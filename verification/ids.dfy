/** Transaction ids: integers as the shortest big-endian byte strings. */
module TransactionIds {
  import opened Bits

  const WORD := 0x1_0000_0000_0000_0000

  /** The last `n` bytes of an integer. */
  function BigEndian(val: nat, n: nat): (r: seq<byte>)
    ensures |r| == n
  {
    if n == 0 then [] else BigEndian(val / 256, n - 1) + [(val % 256) as byte]
  }

  /** Without leading zeros, but never empty. */
  function Trim(bytes: seq<byte>): (r: seq<byte>)
    requires bytes != []
    ensures r != []
  {
    if bytes[0] == 0 && |bytes| > 1 then Trim(bytes[1..]) else bytes
  }

  function Int2Bytes(val: nat): seq<byte> {
    Trim(BigEndian(val, 8))
  }

  /** One step of reading: the word is shifted up by a byte, losing its top byte. */
  function Shift(acc: nat, b: byte): nat {
    acc * 256 % WORD + b as nat
  }

  function Bytes2Int(data: seq<byte>): (r: nat)
    ensures r < WORD
  {
    if data == [] then 0
    else
      var acc := Bytes2Int(data[..|data| - 1]);
      ShiftStaysInWord(acc, data[|data| - 1]);
      Shift(acc, data[|data| - 1])
  }

  lemma ShiftStaysInWord(acc: nat, b: byte)
    requires acc < WORD
    ensures Shift(acc, b) < WORD
  {
    var top := acc / 0x100_0000_0000_0000;
    assert acc * 256 % WORD == (acc - top * 0x100_0000_0000_0000) * 256;
  }

  function Power256(n: nat): nat {
    if n == 0 then 1 else 256 * Power256(n - 1)
  }

  lemma {:induction false} Power256Monotone(a: nat, b: nat)
    requires a <= b
    ensures 0 < Power256(a) <= Power256(b)
    decreases b
  {
    if b > 0 {
      Power256Monotone(if a == b then a - 1 else a, b - 1);
    }
  }

  lemma PowerStep(val: nat, n: nat)
    requires val < Power256(n)
    ensures n == 0 ==> val == 0
    ensures n > 0 ==> val / 256 < Power256(n - 1)
  {
  }

  lemma {:induction false} ReadBigEndian(val: nat, n: nat)
    requires n <= 8 && val < Power256(n)
    ensures Bytes2Int(BigEndian(val, n)) == val
  {
    hide Shift, Power256;
    PowerStep(val, n);
    if n > 0 {
      ReadBigEndian(val / 256, n - 1);
      var bytes := BigEndian(val, n);
      assert bytes[..n - 1] == BigEndian(val / 256, n - 1);
      Power256Monotone(n - 1, 7);
      SevenBytes();
      ShiftUndoesSplit(val);
    }
  }

  lemma SevenBytes()
    ensures Power256(7) == 0x100_0000_0000_0000 && Power256(8) == WORD
  {
  }

  lemma ShiftUndoesSplit(val: nat)
    requires val / 256 < 0x100_0000_0000_0000
    ensures Shift(val / 256, (val % 256) as byte) == val
  {
    var rest := val / 256;
    assert rest * 256 < WORD;
    assert ((val % 256) as byte) as nat == val % 256;
  }

  lemma {:induction false} LeadingZero(bytes: seq<byte>)
    requires bytes != [] && bytes[0] == 0
    ensures Bytes2Int(bytes) == Bytes2Int(bytes[1..])
  {
    if |bytes| > 1 {
      var front := bytes[..|bytes| - 1];
      LeadingZero(front);
      assert bytes[1..][..|bytes| - 2] == front[1..];
    }
  }

  lemma {:induction false} TrimKeepsValue(bytes: seq<byte>)
    requires bytes != []
    ensures Bytes2Int(Trim(bytes)) == Bytes2Int(bytes)
  {
    if bytes[0] == 0 && |bytes| > 1 {
      LeadingZero(bytes);
      TrimKeepsValue(bytes[1..]);
    }
  }

  lemma {:induction false} TrimIsShort(bytes: seq<byte>)
    requires bytes != []
    ensures |Trim(bytes)| <= |bytes| && (Trim(bytes)[0] != 0 || |Trim(bytes)| == 1)
  {
    if bytes[0] == 0 && |bytes| > 1 {
      TrimIsShort(bytes[1..]);
    }
  }

  /** The bytes have no leading zero, but for zero itself, and are at most eight. */
  lemma NoLeadingZero(val: nat)
    ensures |Int2Bytes(val)| <= 8 && (Int2Bytes(val)[0] != 0 || |Int2Bytes(val)| == 1)
  {
    TrimIsShort(BigEndian(val, 8));
  }

  /** Every 64-bit integer reads back from its bytes. */
  lemma IntRoundTrip(val: nat)
    requires val < WORD
    ensures Bytes2Int(Int2Bytes(val)) == val
  {
    SevenBytes();
    ReadBigEndian(val, 8);
    TrimKeepsValue(BigEndian(val, 8));
  }

  /** So different integers have different ids. */
  lemma IdsDiffer(a: nat, b: nat)
    requires a < WORD && b < WORD
    ensures Int2Bytes(a) == Int2Bytes(b) <==> a == b
  {
    IntRoundTrip(a);
    IntRoundTrip(b);
  }

  /** Fills eight bytes from the last to the first and cuts off the leading zeros. */
  method ToBytes(val: nat) returns (r: seq<byte>)
    requires val < WORD
    ensures r == Int2Bytes(val)
  {
    var buf := new byte[8](_ => 0);
    var rest := val;
    var i := 8;
    while i > 0
      invariant 0 <= i <= 8
      invariant BigEndian(val, 8) == BigEndian(rest, i) + buf[i..]
    {
      i := i - 1;
      ghost var was := buf[i + 1..];
      buf[i] := (rest % 256) as byte;
      assert buf[i..] == [(rest % 256) as byte] + was;
      rest := rest / 256;
    }
    assert buf[..] == buf[0..] == BigEndian(val, 8);
    var first := 0;
    while first < 7 && buf[first] == 0
      invariant 0 <= first <= 7
      invariant Trim(buf[..]) == Trim(buf[first..])
    {
      assert buf[first..][1..] == buf[first + 1..];
      first := first + 1;
    }
    r := buf[first..];
    assert Trim(r) == r;
  }

  /** The number that a string of bytes of any length denotes. */
  function Denoted(data: seq<byte>): nat {
    if data == [] then 0 else 256 * Denoted(data[..|data| - 1]) + data[|data| - 1] as nat
  }

  lemma ShiftIsModulo(n: nat, b: byte)
    ensures Shift(n % WORD, b) == (256 * n + b as nat) % WORD
  {
    var m := n % WORD;
    var top := m / 0x100_0000_0000_0000;
    var low := (m - top * 0x100_0000_0000_0000) * 256;
    assert m * 256 % WORD == low;
    assert 256 * n + b as nat == (256 * (n / WORD) + top) * WORD + (low + b as nat);
    assert low + b as nat < WORD;
  }

  /** Of a longer string the last eight bytes count: it is read modulo two to the sixty-fourth. */
  lemma {:induction false} ReadModulo(data: seq<byte>)
    ensures Bytes2Int(data) == Denoted(data) % WORD
  {
    hide Shift;
    if data != [] {
      ReadModulo(data[..|data| - 1]);
      ShiftIsModulo(Denoted(data[..|data| - 1]), data[|data| - 1]);
    }
  }

  /** Shifts the bytes in one by one; what overflows the word is lost. */
  method FromBytes(data: seq<byte>) returns (val: nat)
    ensures val == Bytes2Int(data) == Denoted(data) % WORD
  {
    ReadModulo(data);
    val := 0;
    for i := 0 to |data|
      invariant val == Bytes2Int(data[..i])
    {
      assert data[..i + 1][..i] == data[..i];
      val := Shift(val, data[i]);
    }
    assert data[..|data|] == data;
  }
}
