/** Decimal numerals: printing, and reading with the bounds of machine integers. */
module Decimals {
  import opened Bits
  import opened Options

  const USIZE_LIMIT := 0x1_0000_0000_0000_0000
  const I64_MIN := -0x8000_0000_0000_0000
  const I64_MAX := 0x7FFF_FFFF_FFFF_FFFF

  const PLUS: byte := 0x2B
  const MINUS: byte := 0x2D

  predicate IsDigit(b: byte) {
    0x30 <= b <= 0x39
  }

  function DigitOf(d: nat): (b: byte)
    requires d < 10
    ensures IsDigit(b) && DigitValue(b) == d
  {
    (0x30 + d) as byte
  }

  function DigitValue(b: byte): (d: nat)
    requires IsDigit(b)
    ensures d < 10
  {
    b as nat - 0x30
  }

  predicate AllDigits(s: seq<byte>) {
    forall b :: b in s ==> IsDigit(b)
  }

  /** The shortest numeral. */
  function Print(n: nat): (s: seq<byte>)
    ensures s != [] && AllDigits(s)
  {
    if n < 10 then [DigitOf(n)] else Print(n / 10) + [DigitOf(n % 10)]
  }

  function PrintSigned(n: int): (s: seq<byte>)
    ensures s != []
  {
    if n < 0 then [MINUS] + Print(-n) else Print(n)
  }

  function Read(s: seq<byte>): nat
    requires AllDigits(s)
  {
    if s == [] then 0 else 10 * Read(s[..|s| - 1]) + DigitValue(s[|s| - 1])
  }

  /** An optional plus sign and at least one digit, within 64 bits. */
  function ParseUsize(s: seq<byte>): (r: Option<nat>)
    ensures r.Some? ==> r.value < USIZE_LIMIT
  {
    var digits := if s != [] && s[0] == PLUS then s[1..] else s;
    if digits == [] || !AllDigits(digits) then None
    else if Read(digits) < USIZE_LIMIT then Some(Read(digits)) else None
  }

  /** An optional sign and at least one digit, within the signed 64-bit range. */
  function ParseI64(s: seq<byte>): (r: Option<int>)
    ensures r.Some? ==> I64_MIN <= r.value <= I64_MAX
  {
    var signed := s != [] && (s[0] == PLUS || s[0] == MINUS);
    var digits := if signed then s[1..] else s;
    if digits == [] || !AllDigits(digits) then None
    else
      var n: int := if s[0] == MINUS then -(Read(digits) as int) else Read(digits);
      if I64_MIN <= n <= I64_MAX then Some(n) else None
  }

  lemma {:induction false} ReadPrint(n: nat)
    ensures Read(Print(n)) == n
  {
    if n >= 10 {
      ReadPrint(n / 10);
      var s := Print(n);
      assert s[..|s| - 1] == Print(n / 10);
    }
  }

  lemma SizeRoundTrip(n: nat)
    requires n < USIZE_LIMIT
    ensures ParseUsize(Print(n)) == Some(n)
  {
    ReadPrint(n);
    assert Print(n)[0] in Print(n);
  }

  /** Every signed 64-bit integer reads back, the least one included. */
  lemma SignedRoundTrip(n: int)
    requires I64_MIN <= n <= I64_MAX
    ensures ParseI64(PrintSigned(n)) == Some(n)
  {
    hide Print, Read;
    var digits := Print(if n < 0 then -n else n);
    ReadPrint(if n < 0 then -n else n);
    assert digits[0] in digits;
    assert ([MINUS] + digits)[1..] == digits;
  }
}
