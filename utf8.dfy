/** Rust `String` values, modelled as their UTF-8 bytes (which is how Rust stores them). */
module Utf8 {
  import opened Bytes

  /** A continuation byte, 0x80..0xBF. */
  predicate IsContinuation(b: u8)
  {
    0x80 <= b <= 0xBF
  }

  /** The length of the well-formed UTF-8 sequence that starts s, or 0 when s does not
      start with one. The byte ranges are those of Table 3-7 ("Well-Formed UTF-8 Byte
      Sequences") of the Unicode Standard, section 3.9, which `String::from_utf8`
      accepts: no overlong forms, no surrogates, nothing above U+10FFFF. */
  function LeadingSequenceLength(s: seq<u8>): (n: nat)
    requires |s| > 0
    ensures n <= 4 && n <= |s|
  {
    var b0 := s[0];
    if b0 <= 0x7F then 1
    else if 0xC2 <= b0 <= 0xDF then
      if |s| >= 2 && IsContinuation(s[1]) then 2 else 0
    else if b0 == 0xE0 then
      if |s| >= 3 && 0xA0 <= s[1] <= 0xBF && IsContinuation(s[2]) then 3 else 0
    else if 0xE1 <= b0 <= 0xEC || 0xEE <= b0 <= 0xEF then
      if |s| >= 3 && IsContinuation(s[1]) && IsContinuation(s[2]) then 3 else 0
    else if b0 == 0xED then
      if |s| >= 3 && 0x80 <= s[1] <= 0x9F && IsContinuation(s[2]) then 3 else 0
    else if b0 == 0xF0 then
      if |s| >= 4 && 0x90 <= s[1] <= 0xBF && IsContinuation(s[2]) && IsContinuation(s[3]) then 4 else 0
    else if 0xF1 <= b0 <= 0xF3 then
      if |s| >= 4 && IsContinuation(s[1]) && IsContinuation(s[2]) && IsContinuation(s[3]) then 4 else 0
    else if b0 == 0xF4 then
      if |s| >= 4 && 0x80 <= s[1] <= 0x8F && IsContinuation(s[2]) && IsContinuation(s[3]) then 4 else 0
    else 0
  }

  /** s is a sequence of well-formed UTF-8 code unit sequences: the bytes of some Rust `String`. */
  predicate ValidUtf8(s: seq<u8>)
    decreases |s|
  {
    |s| == 0 || (var n := LeadingSequenceLength(s); n > 0 && ValidUtf8(s[n..]))
  }

  predicate IsAscii(s: string)
  {
    forall i | 0 <= i < |s| :: s[i] as int < 0x80
  }

  /** The bytes of an ASCII string literal; they always form valid UTF-8. */
  function Ascii(s: string): (r: seq<u8>)
    requires IsAscii(s)
    ensures |r| == |s| && ValidUtf8(r)
    ensures forall i | 0 <= i < |s| :: r[i] == s[i] as int
  {
    if |s| == 0 then []
    else
      var rest := Ascii(s[1..]);
      assert ([s[0] as int] + rest)[1..] == rest;
      [s[0] as int] + rest
  }

  /** The text decode falls back to when the extracted bytes are not UTF-8. */
  const NOT_UTF8: seq<u8> := Ascii("Not UTF8")

  /** `String::from_utf8(bytes).unwrap_or(String::from("Not UTF8"))`. */
  function TextOf(bytes: seq<u8>): (text: seq<u8>)
    ensures ValidUtf8(text)
    ensures ValidUtf8(bytes) <==> text == bytes
  {
    if ValidUtf8(bytes) then bytes else NOT_UTF8
  }
}
