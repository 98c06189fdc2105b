/** Well-formed UTF-8 (section 4 of RFC 3629), the check `std::str::from_utf8`
    performs before it hands back a string.  Only validity is modelled: a valid
    byte sequence is returned as the string unchanged. */
module Utf8 {
  import opened Bytes

  predicate InRange(b: u8, lo: u8, hi: u8) {
    lo <= b <= hi
  }

  /** A continuation byte, 10xxxxxx. */
  predicate IsTail(b: u8) {
    InRange(b, 0x80, 0xBF)
  }

  /** The length of the well-formed character that `s` starts with, or 0 when
      `s` does not start with one.  Overlong forms, surrogates and code points
      above U+10FFFF are rejected by the ranges of the second byte. */
  function CharLength(s: seq<u8>): (n: nat)
    requires s != []
    ensures n <= |s| && n <= 4
    ensures n == 1 <==> s[0] < 0x80
  {
    var b0 := s[0];
    if b0 < 0x80 then 1
    else if InRange(b0, 0xC2, 0xDF) then
      if |s| >= 2 && IsTail(s[1]) then 2 else 0
    else if InRange(b0, 0xE0, 0xEF) then
      var lo: u8 := if b0 == 0xE0 then 0xA0 else 0x80;
      var hi: u8 := if b0 == 0xED then 0x9F else 0xBF;
      if |s| >= 3 && InRange(s[1], lo, hi) && IsTail(s[2]) then 3 else 0
    else if InRange(b0, 0xF0, 0xF4) then
      var lo: u8 := if b0 == 0xF0 then 0x90 else 0x80;
      var hi: u8 := if b0 == 0xF4 then 0x8F else 0xBF;
      if |s| >= 4 && InRange(s[1], lo, hi) && IsTail(s[2]) && IsTail(s[3]) then 4 else 0
    else 0
  }

  /** `s` is a sequence of well-formed characters. */
  predicate ValidUtf8(s: seq<u8>)
    decreases |s|
  {
    s == [] || (CharLength(s) > 0 && ValidUtf8(s[CharLength(s)..]))
  }

  predicate IsAscii(s: seq<u8>) {
    forall i :: 0 <= i < |s| ==> s[i] < 0x80
  }

  /** ASCII text is valid UTF-8. */
  lemma {:induction false} AsciiIsValidUtf8(s: seq<u8>)
    requires IsAscii(s)
    ensures ValidUtf8(s)
    decreases |s|
  {
    if s != [] {
      assert s[0] < 0x80;
      AsciiIsValidUtf8(s[1..]);
    }
  }
}
