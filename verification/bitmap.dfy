/** Bitmaps packed eight to a byte: prefixes of ids, and whole ids when distances are compared. */
module Bitmaps {
  import opened Bits

  /** Lexicographic comparison of bytes `j` up to `d` of two byte strings: -1, 0 or 1. */
  function CompareBytes(a: seq<byte>, b: seq<byte>, j: nat, d: nat): (c: int)
    requires j <= d <= |a| && d <= |b|
    ensures c == -1 || c == 0 || c == 1
    decreases d - j
  {
    if j == d then 0
    else if a[j] < b[j] then -1
    else if a[j] > b[j] then 1
    else CompareBytes(a, b, j + 1, d)
  }

  /** Where the first `n` bits of two byte strings part, if they do. */
  ghost predicate PartsAt(a: seq<byte>, b: seq<byte>, n: nat, i: nat)
    requires n <= 8 * |a| && n <= 8 * |b|
  {
    i < n && !BitAt(a, i) && BitAt(b, i) && forall l :: 0 <= l < i ==> BitAt(a, l) == BitAt(b, l)
  }

  lemma PartingDecides(a: seq<byte>, b: seq<byte>, n: nat, i: nat)
    requires n <= 8 * |a| && n <= 8 * |b|
    requires PartsAt(a, b, n, i)
    ensures Value(BitsOf(a, n)) < Value(BitsOf(b, n))
  {
    assert BitsOf(a, n)[..i] == BitsOf(b, n)[..i];
    FirstDifferenceDecides(BitsOf(a, n), BitsOf(b, n), i);
  }

  ghost predicate SameBytes(a: seq<byte>, b: seq<byte>, n: nat)
    requires n <= |a| && n <= |b|
  {
    forall i :: 0 <= i < n ==> a[i] == b[i]
  }

  /**
   * The first `d` bytes compared as unsigned bytes, when all bytes before `j` agree;
   * `i` is the bit at which they part.
   */
  lemma {:induction false} CompareBytesFrom(a: seq<byte>, b: seq<byte>, d: nat, j: nat) returns (i: nat)
    requires j <= d <= |a| && d <= |b|
    requires SameBytes(a, b, j)
    ensures CompareBytes(a, b, j, d) == 0 <==> SameBytes(a, b, d)
    ensures CompareBytes(a, b, j, d) < 0 ==> PartsAt(a, b, 8 * d, i)
    ensures CompareBytes(a, b, j, d) > 0 ==> PartsAt(b, a, 8 * d, i)
    decreases d - j
  {
    i := 0;
    if j < d {
      if a[j] < b[j] {
        i := ByteParts(a, b, d, j);
      } else if b[j] < a[j] {
        i := ByteParts(b, a, d, j);
      } else {
        i := CompareBytesFrom(a, b, d, j + 1);
      }
    }
  }

  lemma ByteParts(a: seq<byte>, b: seq<byte>, d: nat, j: nat) returns (i: nat)
    requires j < d <= |a| && d <= |b|
    requires SameBytes(a, b, j) && a[j] < b[j]
    ensures PartsAt(a, b, 8 * d, i)
  {
    var m := FirstDifferentBit(a[j], b[j]);
    i := 8 * j + m;
    BitInByte(a, j, m);
    BitInByte(b, j, m);
    forall l | 0 <= l < i
      ensures BitAt(a, l) == BitAt(b, l)
    {
      if l < 8 * j {
        assert a[l / 8] == b[l / 8];
      } else {
        BitInByte(a, j, l - 8 * j);
        BitInByte(b, j, l - 8 * j);
      }
    }
  }

  lemma SameBytesSameBits(a: seq<byte>, b: seq<byte>, d: nat)
    requires d <= |a| && d <= |b|
    ensures SameBytes(a, b, d) <==> a[..d] == b[..d]
    ensures SameBytes(a, b, d) <==> forall i :: 0 <= i < 8 * d ==> BitAt(a, i) == BitAt(b, i)
  {
    if a[..d] == b[..d] {
      forall i | 0 <= i < d
        ensures a[i] == b[i]
      {
        assert a[..d][i] == b[..d][i];
      }
    }
    if forall i :: 0 <= i < 8 * d ==> BitAt(a, i) == BitAt(b, i) {
      BitsDetermineBytes(a, b, d);
    }
  }

  /** Setting or clearing bit `m` of a byte leaves the other bits alone. */
  lemma MaskedByte(x: byte, m: nat, l: nat)
    requires m < 8 && l < 8
    ensures ByteBit(x | Mask(m), l) == (l == m || ByteBit(x, l))
    ensures ByteBit(x & !Mask(m), l) == (l != m && ByteBit(x, l))
  {
  }

  class Bitmap {
    var size: nat
    var data: seq<byte>

    /** The bytes are exactly those needed, and the bits past the end are zero. */
    ghost predicate Valid()
      reads this
    {
      && |data| == (size + 7) / 8
      && forall i :: size <= i < 8 * |data| ==> !BitAt(data, i)
    }

    ghost function Contents(): Path
      requires Valid()
      reads this
    {
      BitsOf(data, size)
    }

    constructor (sizeBits: nat)
      ensures Valid() && fresh(this)
      ensures size == sizeBits && forall i :: 0 <= i < size ==> !Contents()[i]
    {
      size := sizeBits;
      data := seq((sizeBits + 7) / 8, _ => 0);
    }

    constructor FromBytes(bytes: seq<byte>)
      ensures Valid() && fresh(this)
      ensures size == 8 * |bytes| && data == bytes
    {
      size := 8 * |bytes|;
      data := bytes;
    }

    predicate Bit(index: nat)
      requires Valid() && index < size
      reads this
    {
      BitAt(data, index)
    }

    method Set(index: nat)
      requires Valid() && index < size
      modifies this
      ensures Valid() && size == old(size)
      ensures Contents() == old(Contents())[index := true]
    {
      hide ByteBit, Mask;
      ghost var was := data;
      data := data[index / 8 := data[index / 8] | Mask(index % 8)];
      forall i | 0 <= i < 8 * |data|
        ensures BitAt(data, i) == (i == index || BitAt(was, i))
      {
        MaskedByte(was[index / 8], index % 8, i % 8);
      }
    }

    method Unset(index: nat)
      requires Valid() && index < size
      modifies this
      ensures Valid() && size == old(size)
      ensures Contents() == old(Contents())[index := false]
    {
      hide ByteBit, Mask;
      ghost var was := data;
      data := data[index / 8 := data[index / 8] & !Mask(index % 8)];
      forall i | 0 <= i < 8 * |data|
        ensures BitAt(data, i) == (i != index && BitAt(was, i))
      {
        MaskedByte(was[index / 8], index % 8, i % 8);
      }
    }

    /** A fresh bitmap that is one bit longer. */
    method ExtendOne(bit: bool) returns (out: Bitmap)
      requires Valid()
      ensures fresh(out) && out.Valid()
      ensures out.size == size + 1 && out.Contents() == Contents() + [bit]
    {
      out := new Bitmap(size + 1);
      out.data := data;
      if |out.data| < (out.size + 7) / 8 {
        out.data := out.data + [0];
        BitInByte(out.data, |data|, 0);
      }
      forall i | size <= i < 8 * |out.data|
        ensures !BitAt(out.data, i)
      {
        assert i < 8 * |data| ==> BitAt(out.data, i) == BitAt(data, i);
        assert out.data[i / 8] == 0 || i < 8 * |data|;
      }
      assert out.Contents() == Contents() + [false];
      if bit {
        out.Set(size);
      }
    }

    /** Compares the first `n` bits as unsigned integers. */
    method ComparePrefix(other: Bitmap, n: nat) returns (c: int)
      requires Valid() && other.Valid()
      requires n <= size && n <= other.size
      ensures c == -1 || c == 0 || c == 1
      ensures c < 0 <==> Value(Contents()[..n]) < Value(other.Contents()[..n])
      ensures c > 0 <==> Value(Contents()[..n]) > Value(other.Contents()[..n])
      ensures c == 0 <==> Contents()[..n] == other.Contents()[..n]
    {
      ghost var mine, theirs := BitsOf(data, n), BitsOf(other.data, n);
      assert Contents()[..n] == mine && other.Contents()[..n] == theirs;
      var div := n / 8;
      c := CompareBytes(data, other.data, 0, div);
      ghost var i := CompareBytesFrom(data, other.data, div, 0);
      if c < 0 {
        PartingDecides(data, other.data, n, i);
        return;
      } else if c > 0 {
        PartingDecides(other.data, data, n, i);
        return;
      }
      SameBytesSameBits(data, other.data, div);
      for i := 8 * div to n
        invariant forall l :: 0 <= l < i ==> BitAt(data, l) == BitAt(other.data, l)
      {
        var b1, b2 := Bit(i), other.Bit(i);
        if b1 && !b2 {
          PartingDecides(other.data, data, n, i);
          return 1;
        } else if !b1 && b2 {
          PartingDecides(data, other.data, n, i);
          return -1;
        }
      }
      assert mine == theirs;
      return 0;
    }

    method Xor(other: Bitmap) returns (out: Bitmap)
      requires Valid() && other.Valid()
      requires size == other.size
      ensures fresh(out) && out.Valid()
      ensures out.size == size && out.Contents() == XorBits(Contents(), other.Contents())
    {
      var d := new byte[|data|](_ => 0);
      for i := 0 to d.Length
        invariant forall l :: 0 <= l < i ==> d[l] == data[l] ^ other.data[l]
      {
        d[i] := data[i] ^ other.data[i];
      }
      out := new Bitmap(size);
      out.data := d[..];
      XorBytes(data, other.data, out.data);
    }

    /** Every bit of this prefix agrees with the id. */
    method MatchesIdPrefix(id: Id) returns (r: bool)
      requires Valid() && size <= ID_BITS
      ensures r <==> Contents() <= IdBits(id)
    {
      var div, rem := size / 8, size % 8;
      SameBytesSameBits(data, id, div);
      if div > 0 && data[..div] != id[..div] {
        ghost var i :| 0 <= i < 8 * div && BitAt(data, i) != BitAt(id, i);
        assert Contents()[i] != IdBits(id)[i];
        return false;
      }
      assert forall i :: 0 <= i < 8 * div ==> BitAt(data, i) == BitAt(id, i);
      if rem == 0 {
        assert Contents() == IdBits(id)[..size];
        return true;
      }
      for i := 8 * div to size
        invariant forall l :: 0 <= l < i ==> BitAt(data, l) == BitAt(id, l)
      {
        if Bit(i) != BitAt(id, i) {
          assert Contents()[i] != IdBits(id)[i];
          return false;
        }
      }
      assert Contents() == IdBits(id)[..size];
      return true;
    }
  }

  ghost function XorBits(a: Path, b: Path): Path
    requires |a| == |b|
  {
    seq(|a|, i requires 0 <= i < |a| => a[i] != b[i])
  }

  lemma XorBytes(a: seq<byte>, b: seq<byte>, x: seq<byte>)
    requires |x| == |a| == |b| && forall j :: 0 <= j < |a| ==> x[j] == a[j] ^ b[j]
    ensures forall i :: 0 <= i < 8 * |a| ==> BitAt(x, i) == (BitAt(a, i) != BitAt(b, i))
  {
    forall i | 0 <= i < 8 * |a|
      ensures BitAt(x, i) == (BitAt(a, i) != BitAt(b, i))
    {
      XorByte(a[i / 8], b[i / 8], i % 8);
    }
  }

  lemma XorByte(a: byte, b: byte, m: nat)
    requires m < 8
    ensures ByteBit(a ^ b, m) == (ByteBit(a, m) != ByteBit(b, m))
  {
    XorMask(a, b, m);
  }

  lemma XorMask(a: byte, b: byte, m: nat)
    requires m < 8
    ensures (a ^ b) & Mask(m) != 0 <==> (a & Mask(m) != 0) != (b & Mask(m) != 0)
  {
    XorOneBit(a, b, Mask(m));
  }

  lemma XorOneBit(a: byte, b: byte, k: byte)
    requires k == 0x80 || k == 0x40 || k == 0x20 || k == 0x10 || k == 8 || k == 4 || k == 2 || k == 1
    ensures (a ^ b) & k != 0 <==> (a & k != 0) != (b & k != 0)
  {
  }

  // ----- the XOR metric

  /** The distance of two ids: their XOR, read as an unsigned 160-bit integer. */
  ghost function Distance(a: Id, b: Id): nat {
    Value(XorBits(IdBits(a), IdBits(b)))
  }

  /** Whether `a` or `b` is nearer to `target`, decided on the bytes of the two XORs. */
  method CompareDistance(target: Id, a: Id, b: Id) returns (c: int)
    ensures c < 0 <==> Distance(target, a) < Distance(target, b)
    ensures c > 0 <==> Distance(target, a) > Distance(target, b)
  {
    var t := new Bitmap.FromBytes(target);
    var ma := new Bitmap.FromBytes(a);
    var mb := new Bitmap.FromBytes(b);
    var da := t.Xor(ma);
    var db := t.Xor(mb);
    assert t.Contents() == IdBits(target) && ma.Contents() == IdBits(a) && mb.Contents() == IdBits(b);
    assert da.Contents()[..ID_BITS] == da.Contents() && db.Contents()[..ID_BITS] == db.Contents();
    c := da.ComparePrefix(db, ID_BITS);
  }

  /** No two ids are equally far from a third, and only an id itself is at distance 0. */
  lemma DistanceSeparates(target: Id, a: Id, b: Id)
    ensures Distance(target, a) == Distance(target, b) <==> a == b
    ensures Distance(target, a) == 0 <==> a == target
  {
    ZeroValue(XorBits(IdBits(target), IdBits(target)));
    if Distance(target, a) == Distance(target, b) {
      SameDistanceSameId(target, a, b);
    }
    if Distance(target, a) == 0 {
      SameDistanceSameId(target, a, target);
    }
  }

  lemma {:induction false} ZeroValue(bits: Path)
    requires forall i :: 0 <= i < |bits| ==> !bits[i]
    ensures Value(bits) == 0
  {
    if bits != [] {
      ZeroValue(bits[1..]);
    }
  }

  lemma SameDistanceSameId(target: Id, a: Id, b: Id)
    requires Distance(target, a) == Distance(target, b)
    ensures a == b
  {
    var x, y := XorBits(IdBits(target), IdBits(a)), XorBits(IdBits(target), IdBits(b));
    ValueInjective(x, y);
    forall i | 0 <= i < ID_BITS
      ensures IdBits(a)[i] == IdBits(b)[i]
    {
      assert x[i] == y[i];
    }
    assert IdBits(a) == IdBits(b);
    IdBitsInjective(a, b);
  }

  lemma {:induction false} ValueInjective(x: Path, y: Path)
    requires |x| == |y| && Value(x) == Value(y)
    ensures x == y
  {
    if x != [] {
      ValueInjective(x[1..], y[1..]);
      assert x == [x[0]] + x[1..] && y == [y[0]] + y[1..];
    }
  }
}
