/**
  Bytes and the UTF-8 check behind Rust's `String`: `read_line` and
  `String::from_utf8` both refuse a byte sequence that is not well-formed
  UTF-8 in the sense of Table 3-7 of the Unicode Standard (chapter 3.9).
*/
module Utf8 {

  newtype byte = x: int | 0 <= x < 256

  /** A byte in 0x00..0x7F is a whole ASCII character. */
  predicate IsAscii(b: byte) {
    b < 0x80
  }

  predicate IsContinuation(b: byte) {
    0x80 <= b <= 0xBF
  }

  /** Length of the well-formed code unit sequence that starts `s`
      (one row of Table 3-7), or 0 when `s` does not start with one. */
  function FirstCharWidth(s: seq<byte>): (w: nat)
    ensures w <= |s| && w <= 4
    ensures |s| > 0 && IsAscii(s[0]) ==> w == 1
  {
    if |s| == 0 then 0
    else if s[0] <= 0x7F then 1
    else if 0xC2 <= s[0] <= 0xDF then
      if |s| >= 2 && IsContinuation(s[1]) then 2 else 0
    else if 0xE0 <= s[0] <= 0xEF then
      var lo: byte := if s[0] == 0xE0 then 0xA0 else 0x80;
      var hi: byte := if s[0] == 0xED then 0x9F else 0xBF;
      if |s| >= 3 && lo <= s[1] <= hi && IsContinuation(s[2]) then 3 else 0
    else if 0xF0 <= s[0] <= 0xF4 then
      var lo: byte := if s[0] == 0xF0 then 0x90 else 0x80;
      var hi: byte := if s[0] == 0xF4 then 0x8F else 0xBF;
      if |s| >= 4 && lo <= s[1] <= hi && IsContinuation(s[2]) && IsContinuation(s[3]) then 4 else 0
    else 0
  }

  /** `s` is a concatenation of well-formed code unit sequences. */
  predicate ValidUtf8(s: seq<byte>)
    ensures ValidUtf8(s) && |s| > 0 ==> !IsContinuation(s[0])
    decreases |s|
  {
    |s| == 0 || (FirstCharWidth(s) > 0 && ValidUtf8(s[FirstCharWidth(s)..]))
  }

  /** Every ASCII byte sequence is valid UTF-8. */
  lemma {:induction false} AsciiIsValid(s: seq<byte>)
    requires forall i :: 0 <= i < |s| ==> IsAscii(s[i])
    ensures ValidUtf8(s)
    decreases |s|
  {
    if |s| > 0 {
      AsciiIsValid(s[1..]);
    }
  }

  /** Two valid UTF-8 sequences put together stay valid: no character is
      split at the seam. */
  lemma {:induction false} ValidConcat(s: seq<byte>, t: seq<byte>)
    requires ValidUtf8(s) && ValidUtf8(t)
    ensures ValidUtf8(s + t)
    decreases |s|
  {
    if |s| > 0 {
      ConcatStep(s, t);
      ValidConcat(s[FirstCharWidth(s)..], t);
    } else {
      assert s + t == t;
    }
  }

  /** Appending bytes keeps the first character and leaves the rest
      followed by what was appended. */
  lemma ConcatStep(s: seq<byte>, t: seq<byte>)
    requires FirstCharWidth(s) > 0
    ensures FirstCharWidth(s + t) == FirstCharWidth(s)
    ensures (s + t)[FirstCharWidth(s)..] == s[FirstCharWidth(s)..] + t
  {
    var w := FirstCharWidth(s);
    assert (s + t)[..w] == s[..w];
    FirstCharWidthPrefix(s, s + t);
  }

  /** The width of the first character depends only on its own bytes. */
  lemma FirstCharWidthPrefix(s: seq<byte>, t: seq<byte>)
    requires FirstCharWidth(s) > 0 && |s| <= |t| && s == t[..|s|]
    ensures FirstCharWidth(t) == FirstCharWidth(s)
  {
    var w := FirstCharWidth(s);
    assert forall i :: 0 <= i < w ==> t[i] == s[i];
  }
}
