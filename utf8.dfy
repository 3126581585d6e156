/**
 * Well-formed UTF-8 (the check behind Rust's `String::from_utf8` and
 * `OsStr::to_str`), following the table of well-formed byte sequences in
 * the Unicode Standard, section 3.9 (table 3-7).
 */
module Utf8 {
  import opened Common

  predicate InRange(b: byte, lo: int, hi: int) { lo <= b as int <= hi }

  /**
   * The length of the well-formed code-unit sequence that starts `s`, or 0
   * when `s` does not start with one.
   */
  function ScalarWidth(s: seq<byte>): (w: nat)
    ensures w <= 4 && w <= |s|
    ensures |s| > 0 && s[0] < 0x80 ==> w == 1
    ensures w == 1 ==> s[0] < 0x80
  {
    if |s| == 0 then 0
    else if s[0] < 0x80 then 1
    else if InRange(s[0], 0xC2, 0xDF) then
      if |s| >= 2 && InRange(s[1], 0x80, 0xBF) then 2 else 0
    else if InRange(s[0], 0xE0, 0xEF) then
      var lo := if s[0] == 0xE0 then 0xA0 else 0x80;
      var hi := if s[0] == 0xED then 0x9F else 0xBF;
      if |s| >= 3 && InRange(s[1], lo, hi) && InRange(s[2], 0x80, 0xBF) then 3 else 0
    else if InRange(s[0], 0xF0, 0xF4) then
      var lo := if s[0] == 0xF0 then 0x90 else 0x80;
      var hi := if s[0] == 0xF4 then 0x8F else 0xBF;
      if |s| >= 4 && InRange(s[1], lo, hi) && InRange(s[2], 0x80, 0xBF) && InRange(s[3], 0x80, 0xBF)
      then 4 else 0
    else 0
  }

  /** `s` is a concatenation of well-formed code-unit sequences. */
  predicate Valid(s: seq<byte>)
    decreases |s|
  {
    |s| == 0 || (ScalarWidth(s) > 0 && Valid(s[ScalarWidth(s)..]))
  }

  /** Every ASCII byte string is valid UTF-8. */
  lemma {:induction false} AsciiValid(s: seq<byte>)
    requires forall i :: 0 <= i < |s| ==> s[i] < 0x80
    ensures Valid(s)
  {
    if |s| > 0 {
      AsciiValid(s[1..]);
    }
  }

  /** A lone continuation byte is never well-formed. */
  lemma ContinuationAloneInvalid(b: byte)
    requires InRange(b, 0x80, 0xBF)
    ensures !Valid([b])
  {
  }
}
