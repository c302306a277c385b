/**
 * The few Ruby String and Regexp behaviours the network utilities rely on:
 * character classes, greedy digit runs, leftmost unanchored search,
 * `String#split` with no argument and `String#strip`.
 */
module Text {
  import opened Wrappers

  /** `\d` in a Ruby regular expression: an ASCII decimal digit. */
  predicate IsDigit(c: char) {
    '0' <= c <= '9'
  }

  /** `\s` in a Ruby 1.8/1.9 regular expression: space, tab, line feed, carriage return or form feed. */
  predicate IsRegexSpace(c: char) {
    c == ' ' || c == '\t' || c == '\n' || c == '\r' || c == '\U{000C}'
  }

  /** Whitespace as `String#split` and `String#strip` see it: space and the controls tab through carriage return. */
  predicate IsSpace(c: char) {
    c == ' ' || '\t' <= c <= '\r'
  }

  /** What `String#rstrip` removes at the end: whitespace and NUL. */
  predicate IsTrailingJunk(c: char) {
    IsSpace(c) || c == '\0'
  }

  predicate StartsWith(s: string, p: string) {
    |p| <= |s| && s[..|p|] == p
  }

  predicate AllDigits(s: string) {
    forall i :: 0 <= i < |s| ==> IsDigit(s[i])
  }

  predicate NoSpace(s: string) {
    forall i :: 0 <= i < |s| ==> !IsSpace(s[i])
  }

  /** Length of the longest run of digits that starts s: what a greedy `\d+` consumes. */
  function DigitRun(s: string): (n: nat)
    ensures n <= |s|
    ensures AllDigits(s[..n])
    ensures n < |s| ==> !IsDigit(s[n])
  {
    if s == [] || !IsDigit(s[0]) then 0
    else
      var m := DigitRun(s[1..]);
      assert s[..1 + m] == [s[0]] + s[1..][..m];
      1 + m
  }

  /**
   * The leftmost position at or after `from` where the pattern `p` matches,
   * as an unanchored `Regexp#match` finds it.
   */
  function Leftmost(p: string -> bool, s: string, from: nat): (r: Option<nat>)
    requires from <= |s|
    ensures r.Some? ==> from <= r.value <= |s| && p(s[r.value..])
    ensures r.Some? ==> forall j :: from <= j < r.value ==> !p(s[j..])
    ensures r.None? ==> forall j :: from <= j <= |s| ==> !p(s[j..])
    decreases |s| - from
  {
    if p(s[from..]) then Some(from)
    else if from == |s| then None
    else Leftmost(p, s, from + 1)
  }

  /**
   * The unanchored search itself: the pattern `p` matches at `from` or at
   * some later position. It carries no contract, so that unfolding it costs
   * one step; MatchesFromIsExists states what it means.
   */
  predicate MatchesFrom(p: string -> bool, s: string, from: nat)
    requires from <= |s|
    decreases |s| - from
  {
    p(s[from..]) || (from < |s| && MatchesFrom(p, s, from + 1))
  }

  lemma {:induction false} MatchesFromIsExists(p: string -> bool, s: string, from: nat)
    requires from <= |s|
    ensures MatchesFrom(p, s, from) <==> exists j :: from <= j <= |s| && p(s[j..])
    decreases |s| - from
  {
    if from < |s| {
      MatchesFromIsExists(p, s, from + 1);
      if !p(s[from..]) {
        assert (exists j :: from <= j <= |s| && p(s[j..])) ==> exists j :: from + 1 <= j <= |s| && p(s[j..]);
      }
    }
  }

  /** Length of the run of non-whitespace characters that starts s. */
  function TokenLen(s: string): (n: nat)
    ensures n <= |s|
    ensures NoSpace(s[..n])
    ensures n < |s| ==> IsSpace(s[n])
  {
    if s == [] || IsSpace(s[0]) then 0
    else
      var m := TokenLen(s[1..]);
      assert s[..1 + m] == [s[0]] + s[1..][..m];
      1 + m
  }

  /** `String#split` with no argument: the maximal runs of non-whitespace characters, in order. */
  function Split(s: string): (tokens: seq<string>)
    ensures forall k :: 0 <= k < |tokens| ==> tokens[k] != [] && NoSpace(tokens[k])
    decreases |s|
  {
    if s == [] then []
    else if IsSpace(s[0]) then Split(s[1..])
    else
      var n := TokenLen(s);
      [s[..n]] + Split(s[n..])
  }

  /** Tokens joined by single spaces, the shape of a kernel command line. */
  function JoinSpaced(tokens: seq<string>): string
  {
    if tokens == [] then []
    else if |tokens| == 1 then tokens[0]
    else tokens[0] + " " + JoinSpaced(tokens[1..])
  }

  /** A token followed by the end of the text or by whitespace is split off whole. */
  lemma {:induction false} SplitToken(t: string, rest: string)
    requires t != [] && NoSpace(t)
    requires rest == [] || IsSpace(rest[0])
    ensures Split(t + rest) == [t] + Split(rest)
  {
    var s := t + rest;
    TokenLenOfToken(t, rest);
    assert s[..|t|] == t;
    assert s[|t|..] == rest;
  }

  lemma {:induction false} TokenLenOfToken(t: string, rest: string)
    requires NoSpace(t)
    requires rest == [] || IsSpace(rest[0])
    ensures TokenLen(t + rest) == |t|
    decreases |t|
  {
    if t != [] {
      assert (t + rest)[1..] == t[1..] + rest;
      TokenLenOfToken(t[1..], rest);
    } else {
      assert t + rest == rest;
    }
  }

  /** Splitting undoes joining: a command line built from tokens splits back into them. */
  lemma {:induction false} SplitJoinSpaced(tokens: seq<string>)
    requires forall k :: 0 <= k < |tokens| ==> tokens[k] != [] && NoSpace(tokens[k])
    ensures Split(JoinSpaced(tokens)) == tokens
    decreases |tokens|
  {
    if |tokens| == 1 {
      SplitToken(tokens[0], []);
      assert tokens[0] + [] == tokens[0];
    } else if |tokens| > 1 {
      var rest := " " + JoinSpaced(tokens[1..]);
      assert JoinSpaced(tokens) == tokens[0] + rest;
      SplitToken(tokens[0], rest);
      assert rest[1..] == JoinSpaced(tokens[1..]);
      SplitJoinSpaced(tokens[1..]);
      assert [tokens[0]] + tokens[1..] == tokens;
    }
  }

  /** Number of leading whitespace characters `String#lstrip` removes. */
  function LStripLen(s: string): (n: nat)
    ensures n <= |s|
    ensures forall i :: 0 <= i < n ==> IsSpace(s[i])
    ensures n < |s| ==> !IsSpace(s[n])
  {
    if s == [] || !IsSpace(s[0]) then 0 else 1 + LStripLen(s[1..])
  }

  /** Length of what `String#rstrip` keeps: s without its trailing whitespace and NUL characters. */
  function RStripLen(s: string): (n: nat)
    ensures n <= |s|
    ensures forall i :: n <= i < |s| ==> IsTrailingJunk(s[i])
    ensures n > 0 ==> !IsTrailingJunk(s[n - 1])
  {
    if s == [] || !IsTrailingJunk(s[|s| - 1]) then |s| else RStripLen(s[..|s| - 1])
  }

  /**
   * `String#strip`: the leading whitespace and then the trailing whitespace and NUL
   * characters removed. The result is the piece of s right after its leading
   * whitespace, everything after it is trailing junk, and it does not end in junk.
   */
  function Strip(s: string): (r: string)
    ensures LStripLen(s) + |r| <= |s|
    ensures r == s[LStripLen(s)..LStripLen(s) + |r|]
    ensures forall i :: LStripLen(s) + |r| <= i < |s| ==> IsTrailingJunk(s[i])
    ensures r != [] ==> !IsSpace(r[0]) && !IsTrailingJunk(r[|r| - 1])
  {
    var a := LStripLen(s);
    var rest := s[a..];
    var r := rest[..RStripLen(rest)];
    assert forall i :: a + |r| <= i < |s| ==> s[i] == rest[i - a];
    r
  }

  /** Padding around a value is stripped away and nothing of the value goes with it. */
  lemma {:induction false} StripPadded(pre: string, v: string, post: string)
    requires forall i :: 0 <= i < |pre| ==> IsSpace(pre[i])
    requires forall i :: 0 <= i < |post| ==> IsTrailingJunk(post[i])
    requires v == [] || (!IsSpace(v[0]) && !IsTrailingJunk(v[|v| - 1]))
    ensures Strip(pre + v + post) == v
  {
    var s := pre + v + post;
    var a := LStripLen(s);
    var r := Strip(s);
    assert forall i :: 0 <= i < |pre| ==> s[i] == pre[i];
    assert forall i :: 0 <= i < |v| ==> s[|pre| + i] == v[i];
    assert forall i :: 0 <= i < |post| ==> s[|pre| + |v| + i] == post[i];
    if v != [] {
      assert a == |pre|;
      assert |r| == |v|;
    } else {
      assert |r| == 0;
    }
  }

  /** Stripping twice is stripping once. */
  lemma StripIdempotent(s: string)
    ensures Strip(Strip(s)) == Strip(s)
  {
    var r := Strip(s);
    StripPadded([], r, []);
    assert [] + r + [] == r;
  }
}
