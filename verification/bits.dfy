/** Bytes, bit strings and the integers they denote, most significant bit first. */
module Bits {
  type byte = bv8

  /** A position in the id space: the bits read so far. */
  type Path = seq<bool>

  const ID_BYTES := 20
  const ID_BITS := 160

  type Id = s: seq<byte> | |s| == ID_BYTES witness seq(ID_BYTES, _ => 0)

  /** `1 << (7 - m)`: the byte whose only set bit is number `m`, the most significant being 0. */
  function Mask(m: nat): byte
    requires m < 8
  {
    if m == 0 then 0x80
    else if m == 1 then 0x40
    else if m == 2 then 0x20
    else if m == 3 then 0x10
    else if m == 4 then 8
    else if m == 5 then 4
    else if m == 6 then 2
    else 1
  }

  predicate ByteBit(b: byte, m: nat)
    requires m < 8
  {
    b & Mask(m) != 0
  }

  predicate BitAt(data: seq<byte>, i: nat)
    requires i < 8 * |data|
  {
    ByteBit(data[i / 8], i % 8)
  }

  /** The first `n` bits of `data`. */
  ghost function BitsOf(data: seq<byte>, n: nat): (r: Path)
    requires n <= 8 * |data|
    ensures |r| == n
    ensures forall i :: 0 <= i < n ==> r[i] == BitAt(data, i)
  {
    seq(n, i requires 0 <= i < n => BitAt(data, i))
  }

  ghost function IdBits(id: Id): (r: Path)
    ensures |r| == ID_BITS
  {
    BitsOf(id, ID_BITS)
  }

  lemma MasksCoverByte(a: byte, b: byte)
    requires AgreeBelow(a, b, 8)
    ensures a == b
  {
    assert ByteBit(a, 0) == ByteBit(b, 0) && ByteBit(a, 1) == ByteBit(b, 1);
    assert ByteBit(a, 2) == ByteBit(b, 2) && ByteBit(a, 3) == ByteBit(b, 3);
    assert ByteBit(a, 4) == ByteBit(b, 4) && ByteBit(a, 5) == ByteBit(b, 5);
    assert ByteBit(a, 6) == ByteBit(b, 6) && ByteBit(a, 7) == ByteBit(b, 7);
  }

  /** Bit `m` of byte `j` is bit `8 * j + m` of the whole. */
  lemma BitInByte(data: seq<byte>, j: nat, m: nat)
    requires j < |data| && m < 8
    ensures BitAt(data, 8 * j + m) == ByteBit(data[j], m)
  {
    assert (8 * j + m) / 8 == j && (8 * j + m) % 8 == m;
  }

  /** Byte strings that agree on their first `8 * n` bits agree on their first `n` bytes. */
  lemma BitsDetermineBytes(a: seq<byte>, b: seq<byte>, n: nat)
    requires n <= |a| && n <= |b|
    requires forall i :: 0 <= i < 8 * n ==> BitAt(a, i) == BitAt(b, i)
    ensures a[..n] == b[..n]
  {
    forall j | 0 <= j < n
      ensures a[j] == b[j]
    {
      forall m: nat | m < 8
        ensures ByteBit(a[j], m) == ByteBit(b[j], m)
      {
        BitInByte(a, j, m);
        BitInByte(b, j, m);
        assert BitAt(a, 8 * j + m) == BitAt(b, 8 * j + m);
      }
      MasksCoverByte(a[j], b[j]);
    }
  }

  /** Ids are told apart by their bits. */
  lemma IdBitsInjective(a: Id, b: Id)
    ensures IdBits(a) == IdBits(b) <==> a == b
  {
    if IdBits(a) == IdBits(b) {
      forall i | 0 <= i < ID_BITS
        ensures BitAt(a, i) == BitAt(b, i)
      {
        assert IdBits(a)[i] == IdBits(b)[i];
      }
      BitsDetermineBytes(a, b, ID_BYTES);
      assert a == a[..ID_BYTES] == b[..ID_BYTES] == b;
    }
  }

  // ----- bit strings as unsigned big-endian integers

  function Pow2(n: nat): (r: nat)
    ensures r > 0
  {
    if n == 0 then 1 else 2 * Pow2(n - 1)
  }

  ghost function Value(bits: Path): (r: nat)
    ensures r < Pow2(|bits|)
  {
    if bits == [] then 0 else (if bits[0] then Pow2(|bits| - 1) else 0) + Value(bits[1..])
  }

  /** The first bit in which two strings of one length differ decides which integer is larger. */
  lemma {:induction false} FirstDifferenceDecides(a: Path, b: Path, i: nat)
    requires |a| == |b| && i < |a|
    requires a[..i] == b[..i] && !a[i] && b[i]
    ensures Value(a) < Value(b)
  {
    if i > 0 {
      assert a[0] == a[..i][0] == b[..i][0] == b[0];
      assert a[1..][..i - 1] == a[..i][1..] == b[..i][1..] == b[1..][..i - 1];
      FirstDifferenceDecides(a[1..], b[1..], i - 1);
    }
  }

  ghost predicate AgreeBelow(a: byte, b: byte, m: nat)
    requires m <= 8
  {
    forall l: nat :: l < m ==> ByteBit(a, l) == ByteBit(b, l)
  }

  lemma LargerBitLargerByte(a: byte, b: byte, m: nat)
    requires m < 8 && AgreeBelow(a, b, m)
    requires ByteBit(a, m) && !ByteBit(b, m)
    ensures a > b
  {
    assert m > 0 ==> ByteBit(a, 0) == ByteBit(b, 0);
    assert m > 1 ==> ByteBit(a, 1) == ByteBit(b, 1);
    assert m > 2 ==> ByteBit(a, 2) == ByteBit(b, 2);
    assert m > 3 ==> ByteBit(a, 3) == ByteBit(b, 3);
    assert m > 4 ==> ByteBit(a, 4) == ByteBit(b, 4);
    assert m > 5 ==> ByteBit(a, 5) == ByteBit(b, 5);
    assert m > 6 ==> ByteBit(a, 6) == ByteBit(b, 6);
  }

  /** Of two different bytes, the smaller has a 0 where they first differ. */
  lemma FirstDifferentBit(a: byte, b: byte) returns (m: nat)
    requires a < b
    ensures m < 8 && !ByteBit(a, m) && ByteBit(b, m)
    ensures AgreeBelow(a, b, m)
  {
    m := 0;
    while m < 8 && ByteBit(a, m) == ByteBit(b, m)
      invariant m <= 8 && AgreeBelow(a, b, m)
    {
      m := m + 1;
    }
    if m == 8 {
      MasksCoverByte(a, b);
    } else if ByteBit(a, m) {
      LargerBitLargerByte(a, b, m);
    }
  }

  // ----- counting

  lemma {:induction false} Pow2Monotone(a: nat, b: nat)
    requires a <= b
    ensures Pow2(a) <= Pow2(b)
  {
    if a < b {
      Pow2Monotone(a, b - 1);
    }
  }

  ghost function Tails(s: set<Path>, first: bool): set<Path> {
    set b | b in s && |b| > 0 && b[0] == first :: b[1..]
  }

  lemma TailsSplit(s: set<Path>, first: bool, x: Path)
    requires forall b :: b in s ==> |b| > 0 && b[0] == first
    requires x in s
    ensures Tails(s, first) == Tails(s - {x}, first) + {x[1..]}
    ensures x[1..] !in Tails(s - {x}, first)
  {
    forall b | b in Tails(s, first)
      ensures b in Tails(s - {x}, first) + {x[1..]}
    {
      var c :| c in s && |c| > 0 && c[0] == first && c[1..] == b;
      if c != x {
        assert c in s - {x};
      }
    }
    forall c | c in s && c[1..] == x[1..]
      ensures c == x
    {
      assert c == [first] + c[1..] && x == [first] + x[1..];
    }
  }

  lemma {:induction false} TailsCount(s: set<Path>, first: bool)
    requires forall b :: b in s ==> |b| > 0 && b[0] == first
    ensures |Tails(s, first)| == |s|
  {
    if s == {} {
      assert Tails(s, first) == {};
    } else {
      var x :| x in s;
      TailsCount(s - {x}, first);
      TailsSplit(s, first, x);
    }
  }

  lemma TailsLength(s: set<Path>, first: bool, n: nat)
    requires forall b :: b in s ==> |b| == n
    ensures forall b :: b in Tails(s, first) ==> |b| == n - 1
  {
  }

  /** There are at most `2^n` bit strings of length `n`. */
  lemma {:induction false} FewStringsOfLength(s: set<Path>, n: nat)
    requires forall b :: b in s ==> |b| == n
    ensures |s| <= Pow2(n)
    decreases n
  {
    hide Tails;
    if n == 0 {
      assert s <= {[]};
      assert s == {} || s == {[]};
    } else {
      var zeros := set b | b in s && !b[0];
      var ones := set b | b in s && b[0];
      assert s == zeros + ones;
      TailsCount(zeros, false);
      TailsCount(ones, true);
      TailsLength(zeros, false, n);
      TailsLength(ones, true, n);
      FewStringsOfLength(Tails(zeros, false), n - 1);
      FewStringsOfLength(Tails(ones, true), n - 1);
    }
  }
}
