/** Text as the codec sees it. A Python `str` is represented by its UTF-8
    bytes; `bytes.decode()` accepts exactly the well-formed UTF-8 sequences
    (Table 3-7 of the Unicode Standard: no overlong forms, no surrogates,
    nothing above U+10FFFF), and `len` of a str counts code points. */
module Utf8 {
  import opened Bytes

  predicate IsContinuation(b: byte) { 0x80 <= b <= 0xBF }

  /** The number of bytes of the well-formed code point that starts `s`,
      or 0 when `s` does not start with one. */
  function LeadWidth(s: seq<byte>): (w: nat)
    ensures w <= |s|
    ensures w == 1 <==> s != [] && s[0] < 0x80
  {
    if s == [] then 0
    else if s[0] < 0x80 then 1
    else if 0xC2 <= s[0] <= 0xDF then
      if |s| >= 2 && IsContinuation(s[1]) then 2 else 0
    else if s[0] == 0xE0 then
      if |s| >= 3 && 0xA0 <= s[1] <= 0xBF && IsContinuation(s[2]) then 3 else 0
    else if 0xE1 <= s[0] <= 0xEC || 0xEE <= s[0] <= 0xEF then
      if |s| >= 3 && IsContinuation(s[1]) && IsContinuation(s[2]) then 3 else 0
    else if s[0] == 0xED then
      if |s| >= 3 && 0x80 <= s[1] <= 0x9F && IsContinuation(s[2]) then 3 else 0
    else if s[0] == 0xF0 then
      if |s| >= 4 && 0x90 <= s[1] <= 0xBF && IsContinuation(s[2]) && IsContinuation(s[3]) then 4 else 0
    else if 0xF1 <= s[0] <= 0xF3 then
      if |s| >= 4 && IsContinuation(s[1]) && IsContinuation(s[2]) && IsContinuation(s[3]) then 4 else 0
    else if s[0] == 0xF4 then
      if |s| >= 4 && 0x80 <= s[1] <= 0x8F && IsContinuation(s[2]) && IsContinuation(s[3]) then 4 else 0
    else 0
  }

  /** What `bytes.decode()` (strict UTF-8) accepts. */
  predicate ValidUtf8(s: seq<byte>)
    decreases |s|
  {
    s == [] || (LeadWidth(s) > 0 && ValidUtf8(s[LeadWidth(s)..]))
  }

  /** A Python str, held as its UTF-8 bytes. Two strs are equal exactly when
      their bytes are, and a str is empty exactly when its bytes are. */
  type Text = s: seq<byte> | ValidUtf8(s)

  predicate IsAscii(s: seq<byte>) { forall i :: 0 <= i < |s| ==> s[i] < 0x80 }

  /** `len(str)`: the number of code points. */
  function CodePoints(s: Text): (n: nat)
    ensures n <= |s|
    ensures s != [] ==> n > 0
    decreases |s|
  {
    if s == [] then 0 else 1 + CodePoints(s[LeadWidth(s)..])
  }

  lemma {:induction false} AsciiIsValid(s: seq<byte>)
    requires IsAscii(s)
    ensures ValidUtf8(s)
    decreases |s|
  {
    if s != [] {
      AsciiIsValid(s[1..]);
    }
  }

  /** A str's length equals its byte count exactly when it is ASCII: every
      other code point takes two to four bytes. */
  lemma {:induction false} CodePointsIsLengthIffAscii(s: Text)
    ensures CodePoints(s) == |s| <==> IsAscii(s)
    decreases |s|
  {
    if s != [] {
      var w := LeadWidth(s);
      var t: Text := s[w..];
      CodePointsIsLengthIffAscii(t);
      if w == 1 {
        assert IsAscii(s) <==> IsAscii(t) by {
          if IsAscii(t) {
            forall i | 0 <= i < |s| ensures s[i] < 0x80 {
              if i > 0 { assert s[i] == t[i - 1]; }
            }
          }
        }
      } else {
        assert !IsAscii(s) by { assert !(s[0] < 0x80); }
      }
    }
  }

  /** The UTF-8 bytes of a string literal made of ASCII characters. */
  function Ascii(s: string): (t: Text)
    requires forall i :: 0 <= i < |s| ==> s[i] < 128 as char
    ensures |t| == |s| && IsAscii(t)
  {
    var b: seq<byte> := seq(|s|, i requires 0 <= i < |s| => s[i] as int);
    AsciiIsValid(b);
    b
  }
}
