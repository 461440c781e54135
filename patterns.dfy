/** The two regular expressions of the pipeline, `/\bgzip\b/` (and `/\bdeflate\b/`) and
    `/bytes=(\d*)-(\d*)/`, as searches over strings, each proved against a declarative
    description of where the pattern matches. */
module Patterns {
  import opened Wrappers

  /** A character of the `\w` class, the class `\b` tests its neighbours against. */
  predicate IsWordChar(c: char) {
    ('a' <= c <= 'z') || ('A' <= c <= 'Z') || ('0' <= c <= '9') || c == '_'
  }

  /** A character of the `\d` class. */
  predicate IsDigit(c: char) {
    '0' <= c <= '9'
  }

  predicate AllDigits(s: string) {
    forall k :: 0 <= k < |s| ==> IsDigit(s[k])
  }

  /** The number a string of decimal digits denotes (the empty string denotes 0). */
  function DigitsValue(s: string): nat
    requires AllDigits(s)
  {
    if s == [] then 0 else DigitsValue(s[..|s| - 1]) * 10 + (s[|s| - 1] as int - '0' as int)
  }

  /** `\b` w `\b` matches `s` at index `i`, for a word `w` that starts and ends with a
      word character: `w` occurs at `i` with no word character right before or after. */
  predicate WordAt(s: string, w: string, i: int) {
    && 0 <= i && i + |w| <= |s| && s[i..i + |w|] == w
    && (i == 0 || !IsWordChar(s[i - 1]))
    && (i + |w| == |s| || !IsWordChar(s[i + |w|]))
  }

  ghost predicate HasWord(s: string, w: string) {
    exists i :: WordAt(s, w, i)
  }

  /** The regex engine's scan: try every start position from `i` on. */
  function FindWordFrom(s: string, w: string, i: nat): (found: bool)
    requires |w| > 0
    decreases |s| - i
    ensures found <==> exists j :: i <= j && WordAt(s, w, j)
  {
    if i + |w| > |s| then false
    else if WordAt(s, w, i) then true
    else FindWordFrom(s, w, i + 1)
  }

  /** `RegExp.prototype.test` for `\b` w `\b`. */
  function ContainsWord(s: string, w: string): (found: bool)
    requires |w| > 0
    ensures found <==> HasWord(s, w)
  {
    FindWordFrom(s, w, 0)
  }

  /** The end of the greedy `\d*` run starting at `j`: the first index at or after `j`
      that does not hold a digit, or `|s|`. */
  function DigitRunEnd(s: string, j: nat): (r: nat)
    requires j <= |s|
    decreases |s| - j
    ensures j <= r <= |s|
    ensures forall k :: j <= k < r ==> IsDigit(s[k])
    ensures r < |s| ==> !IsDigit(s[r])
  {
    if j < |s| && IsDigit(s[j]) then DigitRunEnd(s, j + 1) else j
  }

  /** `bytes=(\d*)-(\d*)` matches `s` at index `i`. The first `\d*` cannot give back a
      digit to let `-` match, so the match exists exactly when the maximal digit run after
      `bytes=` is followed by `-`; the second `\d*` always matches. */
  predicate RangeAt(s: string, i: int) {
    && 0 <= i && i + 6 <= |s| && s[i..i + 6] == "bytes="
    && DigitRunEnd(s, i + 6) < |s| && s[DigitRunEnd(s, i + 6)] == '-'
  }

  ghost predicate RangeMatches(s: string) {
    exists i :: RangeAt(s, i)
  }

  /** The match at `i` said without the scanner: `bytes=`, then digits only, then `-`. */
  ghost predicate RangeMatchAt(s: string, i: int) {
    && 0 <= i && i + 6 <= |s| && s[i..i + 6] == "bytes="
    && exists d :: i + 6 <= d < |s| && AllDigits(s[i + 6..d]) && s[d] == '-'
  }

  /** No backtracking is needed: the greedy digit run is followed by `-` exactly when some
      all-digit stretch after `bytes=` is. */
  lemma {:induction false} RangeAtIsMatch(s: string, i: int)
    ensures RangeAt(s, i) <==> RangeMatchAt(s, i)
  {
    if 0 <= i && i + 6 <= |s| && s[i..i + 6] == "bytes=" {
      var r := DigitRunEnd(s, i + 6);
      assert AllDigits(s[i + 6..r]);
      if RangeMatchAt(s, i) {
        var d :| i + 6 <= d < |s| && AllDigits(s[i + 6..d]) && s[d] == '-';
        assert r == d;
      }
    }
  }

  /** The two capture groups of the match at `i`. */
  function CapturesAt(s: string, i: int): (string, string)
    requires RangeAt(s, i)
  {
    var dash := DigitRunEnd(s, i + 6);
    (s[i + 6..dash], s[dash + 1..DigitRunEnd(s, dash + 1)])
  }

  /** The leftmost match at or after `i`, as `String.prototype.match` finds it. */
  function MatchRangeFrom(s: string, i: nat): (m: Option<(string, string)>)
    decreases |s| - i
    ensures m.Some? <==> exists j :: i <= j && RangeAt(s, j)
    ensures m.Some? ==> AllDigits(m.value.0) && AllDigits(m.value.1)
    ensures m.Some? ==>
      exists j :: i <= j && RangeAt(s, j) && m.value == CapturesAt(s, j) && forall k :: i <= k < j ==> !RangeAt(s, k)
  {
    if i + 6 > |s| then None
    else if RangeAt(s, i) then Some(CapturesAt(s, i))
    else MatchRangeFrom(s, i + 1)
  }

  /** `s.match(/bytes=(\d*)-(\d*)/)`: `None` is JavaScript's `null`, otherwise the two
      captured strings, both made of digits only. */
  function MatchRange(s: string): (m: Option<(string, string)>)
    ensures m.Some? <==> RangeMatches(s)
    ensures m.Some? ==> AllDigits(m.value.0) && AllDigits(m.value.1)
    ensures m.Some? ==>
      exists j :: RangeAt(s, j) && m.value == CapturesAt(s, j) && forall k :: 0 <= k < j ==> !RangeAt(s, k)
  {
    MatchRangeFrom(s, 0)
  }

  /** The global `isNaN` applied to a string, for the strings the pipeline passes it:
      `Number` of a digit string (the empty one converts to 0) is a number. Every other
      string is taken as NaN, which is right for strings with letters and wrong for
      signs, blanks, decimal points and hex, none of which a `\d*` capture holds. */
  predicate IsNaN(s: string) {
    !AllDigits(s)
  }
}
