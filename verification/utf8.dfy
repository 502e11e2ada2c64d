/** Well-formed UTF-8 as the Unicode Standard defines it (Table 3-7 of
    chapter 3), which is what a strict UTF-8 decoder accepts. The header keeps
    the filename as its UTF-8 bytes, so decoding is modelled as this check. */
module Utf8 {
  import opened Bits

  predicate Continuation(b: byte) {
    0x80 <= b <= 0xBF
  }

  /** The length of the well-formed code unit sequence at the start of `s`,
      or 0 when `s` does not start with one. */
  function FirstScalarLength(s: seq<byte>): (n: nat)
    requires |s| > 0
    ensures n <= 4 && n <= |s|
  {
    var b := s[0];
    if b <= 0x7F then 1
    else if 0xC2 <= b <= 0xDF then
      if |s| >= 2 && Continuation(s[1]) then 2 else 0
    else if 0xE0 <= b <= 0xEF then
      var lo: byte := if b == 0xE0 then 0xA0 else 0x80;
      var hi: byte := if b == 0xED then 0x9F else 0xBF;
      if |s| >= 3 && lo <= s[1] <= hi && Continuation(s[2]) then 3 else 0
    else if 0xF0 <= b <= 0xF4 then
      var lo: byte := if b == 0xF0 then 0x90 else 0x80;
      var hi: byte := if b == 0xF4 then 0x8F else 0xBF;
      if |s| >= 4 && lo <= s[1] <= hi && Continuation(s[2]) && Continuation(s[3]) then 4 else 0
    else 0
  }

  /** A sequence of well-formed code unit sequences. No byte of it is
      0xC0, 0xC1 or above 0xF4, and it never starts with a continuation byte. */
  predicate WellFormed(s: seq<byte>): (ok: bool)
    ensures ok && |s| > 0 ==> !Continuation(s[0])
    ensures ok ==> forall i :: 0 <= i < |s| ==> s[i] != 0xC0 && s[i] != 0xC1 && s[i] <= 0xF4
    decreases |s|
  {
    |s| == 0 || (var n := FirstScalarLength(s); n > 0 && WellFormed(s[n..]))
  }

  /** Every byte below 0x80 is a one-byte scalar, so ASCII text decodes. */
  lemma {:induction false} AsciiWellFormed(s: seq<byte>)
    requires forall i :: 0 <= i < |s| ==> s[i] <= 0x7F
    ensures WellFormed(s)
    decreases |s|
  {
    if |s| > 0 {
      AsciiWellFormed(s[1..]);
    }
  }
}
