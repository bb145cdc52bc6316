/**
 * The few ECMAScript string built-ins the front end relies on:
 * `String.prototype.trim`, `String.prototype.includes`,
 * `String.prototype.toLowerCase` and the `\s` character class of regular
 * expressions.  Strings are sequences of characters.
 */
module JsStrings {

  /** ECMAScript WhiteSpace and LineTerminator code points.  `trim` strips
      exactly these, and the regular-expression class `\s` matches exactly
      these. */
  predicate IsWhitespace(c: char) {
    || c == '\t' || c == '\n' || c == '\U{000B}' || c == '\U{000C}' || c == '\r'
    || c == ' ' || c == '\U{00A0}' || c == '\U{1680}'
    || ('\U{2000}' <= c <= '\U{200A}')
    || c == '\U{2028}' || c == '\U{2029}' || c == '\U{202F}' || c == '\U{205F}'
    || c == '\U{3000}' || c == '\U{FEFF}'
  }

  predicate AllWhitespace(s: string) {
    forall k :: 0 <= k < |s| ==> IsWhitespace(s[k])
  }

  /** The index of the first non-whitespace character at or after `i`, or
      `|s|` when there is none. */
  function SkipLeading(s: string, i: nat): (j: nat)
    requires i <= |s|
    ensures i <= j <= |s|
    ensures forall k :: i <= k < j ==> IsWhitespace(s[k])
    ensures j == |s| || !IsWhitespace(s[j])
    decreases |s| - i
  {
    if i < |s| && IsWhitespace(s[i]) then SkipLeading(s, i + 1) else i
  }

  /** The end of `s[lo..j]` once trailing whitespace is dropped: every
      character from it up to `j` is whitespace, and the one before it, if it
      lies after `lo`, is not. */
  function SkipTrailing(s: string, lo: nat, j: nat): (e: nat)
    requires lo <= j <= |s|
    ensures lo <= e <= j
    ensures forall k :: e <= k < j ==> IsWhitespace(s[k])
    ensures e == lo || !IsWhitespace(s[e - 1])
    decreases j
  {
    if lo < j && IsWhitespace(s[j - 1]) then SkipTrailing(s, lo, j - 1) else j
  }

  /** Neither end of `s` is whitespace. */
  predicate IsTrimmed(s: string) {
    s == [] || (!IsWhitespace(s[0]) && !IsWhitespace(s[|s| - 1]))
  }

  /** `s.trim()`: whitespace removed at both ends; the result is empty
      exactly when `s` is all whitespace. */
  function Trim(s: string): (r: string)
    ensures |r| <= |s|
    ensures r == [] <==> AllWhitespace(s)
    ensures IsTrimmed(r)
  {
    var i := SkipLeading(s, 0);
    var j := SkipTrailing(s, i, |s|);
    s[i..j]
  }

  /** What `trim` leaves is the contiguous middle of `s`, and what it
      removes on either side is whitespace. */
  lemma TrimIsMiddle(s: string) returns (i: nat)
    ensures i + |Trim(s)| <= |s| && Trim(s) == s[i..i + |Trim(s)|]
    ensures AllWhitespace(s[..i]) && AllWhitespace(s[i + |Trim(s)|..])
  {
    i := SkipLeading(s, 0);
    var j := SkipTrailing(s, i, |s|);
    assert Trim(s) == s[i..j];
    assert forall k :: 0 <= k < i ==> s[..i][k] == s[k];
    assert forall k :: 0 <= k < |s| - j ==> s[j..][k] == s[j + k];
  }

  /** The strings `trim` leaves unchanged are exactly those with no
      whitespace at either end; in particular trimming is idempotent. */
  lemma TrimFixedIffTrimmed(s: string)
    ensures Trim(s) == s <==> IsTrimmed(s)
    ensures Trim(Trim(s)) == Trim(s)
  {
    if IsTrimmed(s) && s != [] {
      assert SkipLeading(s, 0) == 0;
      assert SkipTrailing(s, 0, |s|) == |s|;
    }
    var r := Trim(s);
    if r != [] {
      assert SkipLeading(r, 0) == 0;
      assert SkipTrailing(r, 0, |r|) == |r|;
    }
  }

  /** `sub` occurs in `s` starting at index `i`. */
  predicate OccursAt(s: string, sub: string, i: nat) {
    i + |sub| <= |s| && s[i..i + |sub|] == sub
  }

  /** An occurrence in the tail `s[1..]` is an occurrence in `s` one index
      further on, and conversely. */
  lemma OccursShift(s: string, sub: string, j: nat)
    requires s != []
    ensures OccursAt(s[1..], sub, j) <==> OccursAt(s, sub, j + 1)
  {
    if j + 1 + |sub| <= |s| {
      var shifted, direct := s[1..][j..j + |sub|], s[j + 1..j + 1 + |sub|];
      forall k | 0 <= k < |sub|
        ensures shifted[k] == direct[k]
      {
      }
      assert shifted == direct;
    }
  }

  /** `s.includes(sub)`: some occurrence of `sub` in `s`. */
  function Includes(s: string, sub: string): (b: bool)
    ensures b <==> exists i: nat :: OccursAt(s, sub, i)
    decreases |s|
  {
    if sub <= s then
      assert OccursAt(s, sub, 0);
      true
    else if s == [] then
      false
    else
      var b := Includes(s[1..], sub);
      assert b ==> exists i: nat :: OccursAt(s, sub, i) by {
        if b {
          var j: nat :| OccursAt(s[1..], sub, j);
          OccursShift(s, sub, j);
        }
      }
      assert (exists i: nat :: OccursAt(s, sub, i)) ==> b by {
        if exists i: nat :: OccursAt(s, sub, i) {
          var i: nat :| OccursAt(s, sub, i);
          if i > 0 {
            OccursShift(s, sub, i - 1);
          }
        }
      }
      b
  }

  /** The capitals `toLowerCase` maps in this model: A-Z and the Latin-1
      capitals U+00C0..U+00DE except the multiplication sign U+00D7. */
  predicate IsCapital(c: char) {
    'A' <= c <= 'Z' || ('\U{00C0}' <= c <= '\U{00DE}' && c != '\U{00D7}')
  }

  const UpperAlphabet := "ABCDEFGHIJKLMNOPQRSTUVWXYZ"
  const LowerAlphabet := "abcdefghijklmnopqrstuvwxyz"

  /** Lower-case mapping of one character: a capital becomes its small
      letter, every other character is kept. */
  function LowerChar(c: char): (d: char)
    ensures !IsCapital(d)
    ensures !IsCapital(c) ==> d == c
    ensures IsWhitespace(d) <==> IsWhitespace(c)
    ensures d == '@' <==> c == '@'
    ensures d == '.' <==> c == '.'
  {
    if IsCapital(c) then (c as int + 32) as char else c
  }

  /** `s.toLowerCase()`, character by character: the length is kept, no
      capital is left, and only capitals change. */
  function ToLower(s: string): (r: string)
    ensures |r| == |s|
    ensures forall k :: 0 <= k < |s| ==> r[k] == LowerChar(s[k])
    ensures forall k :: 0 <= k < |r| ==> !IsCapital(r[k])
    ensures forall k :: 0 <= k < |s| && !IsCapital(s[k]) ==> r[k] == s[k]
  {
    seq(|s|, k requires 0 <= k < |s| => LowerChar(s[k]))
  }

  /** Lower-casing twice is lower-casing once. */
  lemma {:induction false} ToLowerIdempotent(s: string)
    ensures ToLower(ToLower(s)) == ToLower(s)
  {
    var r := ToLower(s);
    forall k | 0 <= k < |r|
      ensures ToLower(r)[k] == r[k]
    {
    }
  }

  /** The Basic Latin capitals map onto the small letters in order. */
  lemma LowerCasesAlphabet()
    ensures ToLower(UpperAlphabet) == LowerAlphabet
  {
  }
}
