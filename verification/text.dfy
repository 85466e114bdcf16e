/** ASCII literals as bytes. */
module Texts {
  import opened Bits

  function Text(s: string): (r: seq<byte>)
    requires forall c :: c in s ==> c < 128 as char
    ensures |r| == |s|
  {
    seq(|s|, i requires 0 <= i < |s| => assert s[i] in s; s[i] as byte)
  }
}
