/** The pieces of Python's `str` that the modelled code relies on. */
module Strings {

  /** Python's `str.isspace` on one character, which is also the set that
      `str.strip()` removes when called without an argument. */
  predicate IsWhitespace(c: char) {
    || ('\t' <= c <= '\r')              // tab, line feed, vertical tab, form feed, carriage return
    || ('\U{1C}' <= c <= '\U{1F}')      // the four information separators
    || c == ' '
    || c == '\U{85}' || c == '\U{A0}' || c == '\U{1680}'
    || ('\U{2000}' <= c <= '\U{200A}')
    || c == '\U{2028}' || c == '\U{2029}' || c == '\U{202F}' || c == '\U{205F}' || c == '\U{3000}'
  }

  predicate AllWhitespace(s: string) {
    forall i :: 0 <= i < |s| ==> IsWhitespace(s[i])
  }

  /** The length of the whitespace run at the start of `s`. */
  function LeadingSpace(s: string): (n: nat)
    ensures n <= |s|
    ensures forall i :: 0 <= i < n ==> IsWhitespace(s[i])
    ensures n < |s| ==> !IsWhitespace(s[n])
  {
    if s == [] || !IsWhitespace(s[0]) then 0 else 1 + LeadingSpace(s[1..])
  }

  /** The length of the whitespace run at the end of `s`. */
  function TrailingSpace(s: string): (n: nat)
    ensures n <= |s|
    ensures forall i :: |s| - n <= i < |s| ==> IsWhitespace(s[i])
    ensures n < |s| ==> !IsWhitespace(s[|s| - 1 - n])
  {
    if s == [] || !IsWhitespace(s[|s| - 1]) then 0 else 1 + TrailingSpace(s[..|s| - 1])
  }

  /** `s.strip()`: `s` is a whitespace prefix, the result, and a whitespace
      suffix, and the result neither starts nor ends with whitespace. */
  function Strip(s: string): (r: string)
    ensures LeadingSpace(s) + |r| <= |s|
    ensures r == s[LeadingSpace(s)..LeadingSpace(s) + |r|]
    ensures AllWhitespace(s[..LeadingSpace(s)]) && AllWhitespace(s[LeadingSpace(s) + |r|..])
    ensures r != [] ==> !IsWhitespace(r[0]) && !IsWhitespace(r[|r| - 1])
    ensures r == [] <==> AllWhitespace(s)
  {
    var i := LeadingSpace(s);
    var j := if i == |s| then i else |s| - TrailingSpace(s);
    TrailingAfterLeading(s);
    StripParts(s, i, j);
    s[i..j]
  }

  /** A character that is not whitespace ends the trailing run before it. */
  lemma TrailingAfterLeading(s: string)
    ensures LeadingSpace(s) < |s| ==> LeadingSpace(s) < |s| - TrailingSpace(s)
  {
    if LeadingSpace(s) < |s| {
      assert !IsWhitespace(s[LeadingSpace(s)]);
    }
  }

  /** Cutting `s` at `i` and `j`, where only whitespace lies outside them. */
  lemma StripParts(s: string, i: nat, j: nat)
    requires i <= j <= |s|
    requires forall k :: 0 <= k < i ==> IsWhitespace(s[k])
    requires forall k :: j <= k < |s| ==> IsWhitespace(s[k])
    requires i == j ==> j == |s|
    requires i < j ==> !IsWhitespace(s[i]) && !IsWhitespace(s[j - 1])
    ensures var r := s[i..j];
            && i + |r| <= |s|
            && r == s[i..i + |r|]
            && AllWhitespace(s[..i]) && AllWhitespace(s[i + |r|..])
            && (r != [] ==> !IsWhitespace(r[0]) && !IsWhitespace(r[|r| - 1]))
            && (r == [] <==> AllWhitespace(s))
  {
    assert s == s[..i] + s[i..j] + s[j..];
    assert forall k :: 0 <= k < |s[j..]| ==> s[j..][k] == s[j + k];
    assert forall k :: 0 <= k < |s[..i]| ==> s[..i][k] == s[k];
    if i < j {
      assert !IsWhitespace(s[i]);
    }
  }

  /** Stripping twice is stripping once. */
  lemma StripIdempotent(s: string)
    ensures Strip(Strip(s)) == Strip(s)
  {
    var r := Strip(s);
    if r != [] {
      assert LeadingSpace(r) == 0;
      assert TrailingSpace(r) == 0;
      assert r[0..|r|] == r;
    }
  }

  /** `not s or not s.strip()`: the text is empty or holds only whitespace. */
  function IsBlank(s: string): (b: bool)
    ensures b <==> AllWhitespace(s)
  {
    |s| == 0 || Strip(s) == []
  }

  /** `str.lower()` on one character, restricted to ASCII letters. */
  function LowerChar(c: char): char {
    if 'A' <= c <= 'Z' then (c as int + 32) as char else c
  }

  function UpperChar(c: char): char {
    if 'a' <= c <= 'z' then (c as int - 32) as char else c
  }

  function Lower(s: string): string {
    seq(|s|, i requires 0 <= i < |s| => LowerChar(s[i]))
  }

  lemma LowerCharMatches(x: char, y: char)
    requires !('A' <= y <= 'Z')
    ensures LowerChar(x) == y <==> x == y || x == UpperChar(y)
  {
  }

  /** `s` is `w` with any of its letters possibly in upper case. */
  predicate SameIgnoringCase(s: string, w: string) {
    |s| == |w| && forall i :: 0 <= i < |s| ==> s[i] == w[i] || s[i] == UpperChar(w[i])
  }

  /** Comparing `s.lower()` with a word that has no capital letter accepts
      exactly the spellings of that word in any mix of upper and lower case. */
  lemma LowerMatches(s: string, w: string)
    requires forall i :: 0 <= i < |w| ==> !('A' <= w[i] <= 'Z')
    ensures Lower(s) == w <==> SameIgnoringCase(s, w)
  {
    if |s| == |w| {
      forall i | 0 <= i < |s|
        ensures Lower(s)[i] == w[i] <==> s[i] == w[i] || s[i] == UpperChar(w[i])
      {
        LowerCharMatches(s[i], w[i]);
      }
    }
  }
}
