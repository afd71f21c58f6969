/**
 Well-formed UTF-8, as the grammar of section 4 of RFC 3629 describes it: each
 character is one to four bytes, with no overlong forms, no surrogates and
 nothing above U+10FFFF. `String::from_utf8` accepts exactly these sequences.
 */
module Utf8 {

  predicate Tail(b: bv8)
  {
    0x80 <= b <= 0xBF
  }

  /** The length of the well-formed character `s` starts with, or 0 if it does
      not start with one. */
  function CharLength(s: seq<bv8>): (n: nat)
    ensures n <= 4 && n <= |s|
  {
    if |s| == 0 then 0
    else
      var b := s[0];
      if b <= 0x7F then 1
      else if 0xC2 <= b <= 0xDF then
        if |s| >= 2 && Tail(s[1]) then 2 else 0
      else if 0xE0 <= b <= 0xEF then
        var lo: bv8 := if b == 0xE0 then 0xA0 else 0x80;
        var hi: bv8 := if b == 0xED then 0x9F else 0xBF;
        if |s| >= 3 && lo <= s[1] <= hi && Tail(s[2]) then 3 else 0
      else if 0xF0 <= b <= 0xF4 then
        var lo: bv8 := if b == 0xF0 then 0x90 else 0x80;
        var hi: bv8 := if b == 0xF4 then 0x8F else 0xBF;
        if |s| >= 4 && lo <= s[1] <= hi && Tail(s[2]) && Tail(s[3]) then 4 else 0
      else 0
  }

  /** `s` is a sequence of well-formed characters. */
  predicate Valid(s: seq<bv8>)
    decreases |s|
  {
    |s| == 0 || (CharLength(s) > 0 && Valid(s[CharLength(s)..]))
  }

  /** Bytes below 0x80 are each a character of their own. */
  lemma {:induction false} AsciiValid(s: seq<bv8>)
    requires forall i :: 0 <= i < |s| ==> s[i] < 0x80
    ensures Valid(s)
    decreases |s|
  {
    if |s| > 0 {
      assert CharLength(s) == 1;
      AsciiValid(s[1..]);
    }
  }

  /** No character starts with a continuation byte, with 0xC0 or 0xC1 (which
      could only begin an overlong form) or with a byte from 0xF5 up. */
  lemma InvalidLead(s: seq<bv8>)
    requires |s| > 0 && ((0x80 <= s[0] <= 0xC1) || s[0] >= 0xF5)
    ensures !Valid(s)
  {
  }
}
