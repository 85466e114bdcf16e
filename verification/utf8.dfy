/** Lossy reading of bytes as UTF-8: every maximal ill-formed part becomes U+FFFD. */
module Utf8 {
  import opened Bits

  const REPLACEMENT: seq<byte> := [0xEF, 0xBF, 0xBD]

  predicate Continues(s: seq<byte>, i: nat) {
    i < |s| && 0x80 <= s[i] <= 0xBF
  }

  /** Whether the second byte may follow a lead byte of a three-byte character. */
  predicate SecondOfThree(s: seq<byte>)
    requires |s| > 0
  {
    && Continues(s, 1)
    && (s[0] == 0xE0 ==> s[1] >= 0xA0)
    && (s[0] == 0xED ==> s[1] <= 0x9F)
  }

  predicate SecondOfFour(s: seq<byte>)
    requires |s| > 0
  {
    && Continues(s, 1)
    && (s[0] == 0xF0 ==> s[1] >= 0x90)
    && (s[0] == 0xF4 ==> s[1] <= 0x8F)
  }

  /** How many bytes the first character or ill-formed part takes, and which of the two it is. */
  function Scan(s: seq<byte>): (r: (nat, bool))
    requires |s| > 0
    ensures 0 < r.0 <= |s|
  {
    if s[0] < 0x80 then (1, true)
    else if 0xC2 <= s[0] <= 0xDF then
      if Continues(s, 1) then (2, true) else (1, false)
    else if 0xE0 <= s[0] <= 0xEF then
      if !SecondOfThree(s) then (1, false)
      else if !Continues(s, 2) then (2, false)
      else (3, true)
    else if 0xF0 <= s[0] <= 0xF4 then
      if !SecondOfFour(s) then (1, false)
      else if !Continues(s, 2) then (2, false)
      else if !Continues(s, 3) then (3, false)
      else (4, true)
    else (1, false)
  }

  function Lossy(s: seq<byte>): seq<byte> {
    if s == [] then []
    else
      var (n, ok) := Scan(s);
      (if ok then s[..n] else REPLACEMENT) + Lossy(s[n..])
  }

  predicate Valid(s: seq<byte>) {
    s == [] || (Scan(s).1 && Valid(s[Scan(s).0..]))
  }

  /** A character is read the same whatever follows it. */
  lemma ScanAlone(c: seq<byte>, rest: seq<byte>)
    requires |c| > 0 && Scan(c) == (|c|, true)
    ensures Scan(c + rest) == (|c|, true)
  {
  }

  lemma ScanCut(s: seq<byte>)
    requires |s| > 0 && Scan(s).1
    ensures Scan(s[..Scan(s).0]) == Scan(s)
  {
  }

  /** Well-formed text is left alone. */
  lemma {:induction false} LossyKeepsValid(s: seq<byte>)
    requires Valid(s)
    ensures Lossy(s) == s
  {
    if s != [] {
      LossyKeepsValid(s[Scan(s).0..]);
    }
  }

  lemma ValidPrepend(c: seq<byte>, rest: seq<byte>)
    requires |c| > 0 && Scan(c) == (|c|, true) && Valid(rest)
    ensures Valid(c + rest)
  {
    ScanAlone(c, rest);
    assert (c + rest)[|c|..] == rest;
  }

  /** What comes out is always well formed. */
  lemma {:induction false} LossyIsValid(s: seq<byte>)
    ensures Valid(Lossy(s))
  {
    if s != [] {
      var (n, ok) := Scan(s);
      LossyIsValid(s[n..]);
      if ok {
        ScanCut(s);
        ValidPrepend(s[..n], Lossy(s[n..]));
      } else {
        assert Scan(REPLACEMENT) == (3, true);
        ValidPrepend(REPLACEMENT, Lossy(s[n..]));
      }
    }
  }

  // ----- characters by their code points

  predicate Follows(b: byte) {
    b & 0xC0 == 0x80
  }

  function Low(b: byte): bv32 {
    (b & 0x3F) as bv32
  }

  /** The code point that two, three or four bytes spell. */
  function CodePoint(c: seq<byte>): bv32
    requires 2 <= |c| <= 4
  {
    if |c| == 2 then (((c[0] & 0x1F) as bv32) << 6) | Low(c[1])
    else if |c| == 3 then (((c[0] & 0x0F) as bv32) << 12) | (Low(c[1]) << 6) | Low(c[2])
    else (((c[0] & 0x07) as bv32) << 18) | (Low(c[1]) << 12) | (Low(c[2]) << 6) | Low(c[3])
  }

  /** One character in its shortest form: a code point up to U+10FFFF that is no surrogate. */
  predicate IsChar(c: seq<byte>) {
    match |c|
    case 1 => c[0] & 0x80 == 0
    case 2 => c[0] & 0xE0 == 0xC0 && Follows(c[1]) && CodePoint(c) >= 0x80
    case 3 =>
      && c[0] & 0xF0 == 0xE0 && Follows(c[1]) && Follows(c[2])
      && CodePoint(c) >= 0x800 && !(0xD800 <= CodePoint(c) <= 0xDFFF)
    case 4 =>
      && c[0] & 0xF8 == 0xF0 && Follows(c[1]) && Follows(c[2]) && Follows(c[3])
      && 0x1_0000 <= CodePoint(c) <= 0x10_FFFF
    case _ => false
  }

  lemma TwoBytes(a: byte, b: byte)
    ensures IsChar([a, b]) <==> 0xC2 <= a <= 0xDF && 0x80 <= b <= 0xBF
  {
  }

  lemma ThreeBytes(a: byte, b: byte, c: byte)
    ensures IsChar([a, b, c]) <==>
            && 0xE0 <= a <= 0xEF && 0x80 <= b <= 0xBF && 0x80 <= c <= 0xBF
            && (a == 0xE0 ==> b >= 0xA0) && (a == 0xED ==> b <= 0x9F)
  {
  }

  lemma FourBytes(a: byte, b: byte, c: byte, d: byte)
    ensures IsChar([a, b, c, d]) <==>
            && 0xF0 <= a <= 0xF4 && 0x80 <= b <= 0xBF && 0x80 <= c <= 0xBF && 0x80 <= d <= 0xBF
            && (a == 0xF0 ==> b >= 0x90) && (a == 0xF4 ==> b <= 0x8F)
  {
  }

  lemma CharIsScanned(c: seq<byte>)
    requires |c| > 0
    ensures IsChar(c) <==> Scan(c) == (|c|, true)
  {
    hide IsChar;
    if |c| == 1 {
      OneByte(c[0]);
      assert c == [c[0]];
    } else if |c| == 2 {
      TwoBytes(c[0], c[1]);
      assert c == [c[0], c[1]];
    } else if |c| == 3 {
      ThreeBytes(c[0], c[1], c[2]);
      assert c == [c[0], c[1], c[2]];
    } else if |c| == 4 {
      FourBytes(c[0], c[1], c[2], c[3]);
      assert c == [c[0], c[1], c[2], c[3]];
    } else {
      TooLong(c);
    }
  }

  lemma OneByte(a: byte)
    ensures IsChar([a]) <==> a < 0x80
  {
  }

  lemma TooLong(c: seq<byte>)
    requires |c| > 4
    ensures !IsChar(c)
  {
  }

  function Join(chars: seq<seq<byte>>): seq<byte> {
    if chars == [] then [] else chars[0] + Join(chars[1..])
  }

  /** The bytes are those of the characters, one after another. */
  ghost predicate Spells(chars: seq<seq<byte>>, s: seq<byte>) {
    Join(chars) == s && forall c :: c in chars ==> IsChar(c)
  }

  lemma {:induction false} SpelledIsValid(chars: seq<seq<byte>>)
    requires forall c :: c in chars ==> IsChar(c)
    ensures Valid(Join(chars))
  {
    hide IsChar, Scan;
    if chars != [] {
      SpelledIsValid(chars[1..]);
      NotEmpty(chars[0]);
      CharIsScanned(chars[0]);
      ValidPrepend(chars[0], Join(chars[1..]));
    }
  }

  lemma NotEmpty(c: seq<byte>)
    requires IsChar(c)
    ensures |c| > 0
  {
  }

  lemma {:induction false} ValidIsSpelled(s: seq<byte>) returns (chars: seq<seq<byte>>)
    requires Valid(s)
    ensures Spells(chars, s)
  {
    hide IsChar, Scan;
    if s == [] {
      chars := [];
    } else {
      var n := Scan(s).0;
      var rest := ValidIsSpelled(s[n..]);
      ScanCut(s);
      CharIsScanned(s[..n]);
      chars := [s[..n]] + rest;
      assert chars[1..] == rest && s == s[..n] + s[n..];
    }
  }

  /** Valid text is what characters spell, each in its shortest form and none a surrogate. */
  lemma ValidExactly(s: seq<byte>)
    ensures Valid(s) <==> exists chars :: Spells(chars, s)
  {
    hide IsChar, Valid, Join;
    if Valid(s) {
      var chars := ValidIsSpelled(s);
    }
    if chars :| Spells(chars, s) {
      SpelledIsValid(chars);
    }
  }

  /** What stands for an ill-formed part is U+FFFD. */
  lemma ReplacementIs()
    ensures IsChar(REPLACEMENT) && CodePoint(REPLACEMENT) == 0xFFFD
  {
  }
}
