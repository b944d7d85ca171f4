/**
 * The output reflow of the chat client (`formatOutput` in index.js).
 *
 * Reflow is one global JavaScript `replace` with the regular expression
 * `(?![^\n]{1,N}$)([^\n]{1,N})\s` and the replacement `$1\n`, where N is the
 * terminal width. Dafny has no regular expressions, so the replace is written
 * out as the scan the JavaScript engine performs: at each scan position p the
 * expression either fails (the scan moves to p + 1) or matches k + 1
 * characters, whose last one, a whitespace character, becomes a line feed
 * (the scan moves to p + k + 1). Matches are looked up in the ORIGINAL text,
 * as JavaScript collects all matches before it substitutes them.
 */
module Reflow {
  import opened Wrappers

  /**
   * JavaScript's `\s`: the WhiteSpace and LineTerminator code points of
   * ECMAScript. Every line terminator is whitespace, so `\s` can match a line
   * feed; no ASCII word character (those of `\w`) is.
   */
  predicate IsJsWhitespace(c: char): (b: bool)
    ensures c == '\n' || c == '\r' || c == '\U{2028}' || c == '\U{2029}' ==> b
    ensures b ==> !('0' <= c <= '9' || 'a' <= c <= 'z' || 'A' <= c <= 'Z' || c == '_')
  {
    || c == '\t' || c == '\n' || c == '\U{000B}' || c == '\U{000C}' || c == '\r' || c == ' '
    || c == '\U{00A0}' || c == '\U{1680}' || ('\U{2000}' <= c <= '\U{200A}')
    || c == '\U{2028}' || c == '\U{2029}' || c == '\U{202F}' || c == '\U{205F}'
    || c == '\U{3000}' || c == '\U{FEFF}'
  }

  /** No line feed occurs in s[i..j]. */
  predicate NoNewline(s: string, i: nat, j: nat)
    requires i <= j <= |s|
  {
    forall x :: i <= x < j ==> s[x] != '\n'
  }

  function Min(a: nat, b: nat): nat
  {
    if a <= b then a else b
  }

  /** How many characters `[^\n]*` matches at p: the run up to the next line feed or the end. */
  function RunLength(s: string, p: nat): (r: nat)
    requires p <= |s|
    ensures p + r <= |s| && NoNewline(s, p, p + r)
    ensures p + r == |s| || s[p + r] == '\n'
    decreases |s| - p
  {
    if p == |s| || s[p] == '\n' then 0 else 1 + RunLength(s, p + 1)
  }

  /**
   * The negative lookahead `(?![^\n]{1,n}$)` fails at p: the rest of the text
   * is 1..n characters long and holds no line feed. Without the `m` flag `$`
   * is the end of the input, so this is exactly when the run `[^\n]*` at p
   * reaches the end of the text and is 1..n long.
   */
  predicate LookaheadBlocks(s: string, n: nat, p: nat): (b: bool)
    requires p <= |s|
    ensures b <==> 1 <= |s| - p <= n && RunLength(s, p) == |s| - p
  {
    1 <= |s| - p <= n && NoNewline(s, p, |s|)
  }

  /**
   * The expression can match at p with its group `([^\n]{1,n})` spanning
   * s[p..p + k] and `\s` matching s[p + k].
   */
  predicate IsMatchAt(s: string, n: nat, p: nat, k: nat)
    requires p <= |s|
  {
    && !LookaheadBlocks(s, n, p)
    && 1 <= k <= n
    && p + k < |s|
    && NoNewline(s, p, p + k)
    && IsJsWhitespace(s[p + k])
  }

  /** The greedy quantifier backtracks from its longest run, so the match taken is the longest one. */
  predicate IsGreedyMatchAt(s: string, n: nat, p: nat, k: nat)
    requires p <= |s|
  {
    IsMatchAt(s, n, p, k) && forall j :: k < j <= n ==> !IsMatchAt(s, n, p, j)
  }

  /** A match that began at scan position q turns s[b] into a line feed. */
  predicate MatchBreaksAt(s: string, n: nat, q: nat, b: nat)
  {
    q < b < |s| && IsGreedyMatchAt(s, n, q, b - q)
  }

  /** No whitespace character occurs in s[i..j] (positions past the end of s are ignored). */
  predicate NoWhitespaceIn(s: string, i: nat, j: nat)
  {
    forall x :: i <= x < j && x < |s| ==> !IsJsWhitespace(s[x])
  }

  /** Backtracking `{1,m}` followed by `\s`: the largest k in 1..m with s[p + k] whitespace. */
  function FurthestBreak(s: string, p: nat, m: nat): (r: Option<nat>)
    requires p + m <= |s|
    ensures r.Some? ==> 1 <= r.value <= m && p + r.value < |s| && IsJsWhitespace(s[p + r.value])
    ensures r.Some? ==> NoWhitespaceIn(s, p + r.value + 1, p + m + 1)
    ensures r.None? ==> NoWhitespaceIn(s, p + 1, p + m + 1)
    decreases m
  {
    if m == 0 then None
    else if p + m < |s| && IsJsWhitespace(s[p + m]) then Some(m)
    else FurthestBreak(s, p, m - 1)
  }

  /** A match never runs over the line feed that ends the run at p. */
  lemma MatchWithinRun(s: string, n: nat, p: nat, k: nat)
    requires p <= |s|
    requires IsMatchAt(s, n, p, k)
    ensures k <= RunLength(s, p)
  {
  }

  /** The attempt to match at scan position p: the length of the group, or None when it fails. */
  function MatchAt(s: string, n: nat, p: nat): (r: Option<nat>)
    requires p <= |s|
    ensures r.Some? ==> 1 <= r.value <= n && p + r.value < |s|
  {
    if LookaheadBlocks(s, n, p) then None
    else FurthestBreak(s, p, Min(n, RunLength(s, p)))
  }

  /**
   * MatchAt agrees with the regular expression: it finds the longest match at
   * p when there is one, and fails only when no match exists.
   */
  lemma MatchAtIsLongestMatch(s: string, n: nat, p: nat)
    requires p <= |s|
    ensures MatchAt(s, n, p).Some? ==> IsGreedyMatchAt(s, n, p, MatchAt(s, n, p).value)
    ensures MatchAt(s, n, p).None? ==> forall k :: !IsMatchAt(s, n, p, k)
  {
    forall k: nat | IsMatchAt(s, n, p, k) ensures k <= RunLength(s, p) {
      MatchWithinRun(s, n, p, k);
    }
  }

  /** s[i..] is s[i..j], then s[j], then s[j + 1..]. */
  lemma SplitAround(s: string, i: nat, j: nat)
    requires i <= j < |s|
    ensures s[i..] == s[i..j] + [s[j]] + s[j + 1..]
  {
  }

  /**
   * What the expression does at each scan position of s: the longest match
   * where one exists, None where none does. JavaScript's global replace finds
   * its matches in the original text before it substitutes any of them.
   */
  ghost predicate IsMatchTable(s: string, n: nat, ms: seq<Option<nat>>)
  {
    && |ms| == |s|
    && (forall q :: 0 <= q < |s| && ms[q].Some? ==> IsGreedyMatchAt(s, n, q, ms[q].value))
    && (forall q, k :: 0 <= q < |s| && ms[q].None? ==> !IsMatchAt(s, n, q, k))
  }

  /** Each entry of ms describes a match that ends inside s. */
  predicate MatchesInRange(s: string, ms: seq<Option<nat>>)
  {
    |ms| == |s| && forall q :: 0 <= q < |s| && ms[q].Some? ==> q + ms[q].value < |s|
  }

  /** The attempt to match at every position of s. */
  function Matches(s: string, n: nat): (ms: seq<Option<nat>>)
    ensures |ms| == |s|
    ensures forall q :: 0 <= q < |s| ==> ms[q] == MatchAt(s, n, q)
  {
    seq(|s|, q requires 0 <= q < |s| => MatchAt(s, n, q))
  }

  /** The attempts of MatchAt form the table of the expression's matches. */
  lemma MatchesIsMatchTable(s: string, n: nat)
    ensures IsMatchTable(s, n, Matches(s, n)) && MatchesInRange(s, Matches(s, n))
  {
    var ms := Matches(s, n);
    forall q | 0 <= q < |s|
      ensures ms[q].Some? ==> IsGreedyMatchAt(s, n, q, ms[q].value)
      ensures ms[q].None? ==> forall k :: !IsMatchAt(s, n, q, k)
    {
      MatchAtIsLongestMatch(s, n, q);
    }
  }

  /**
   * What the global replace produces for s[p..] once its scan has reached p:
   * where the expression failed, the character and the scan from p + 1; where
   * it matched k + 1 characters, `$1\n` (the group, then a line feed) and the
   * scan from p + k + 1.
   */
  function ReplaceFrom(s: string, ms: seq<Option<nat>>, p: nat): (r: string)
    requires MatchesInRange(s, ms) && p <= |s|
    ensures |r| == |s| - p
    decreases |s| - p
  {
    if p == |s| then ""
    else if ms[p].None? then [s[p]] + ReplaceFrom(s, ms, p + 1)
    else s[p..p + ms[p].value] + ['\n'] + ReplaceFrom(s, ms, p + ms[p].value + 1)
  }

  /** One step of the scan at a position where the expression failed. */
  lemma ReplaceFromFails(s: string, ms: seq<Option<nat>>, p: nat)
    requires MatchesInRange(s, ms) && p < |s| && ms[p].None?
    ensures ReplaceFrom(s, ms, p) == [s[p]] + ReplaceFrom(s, ms, p + 1)
  {
  }

  /** One step of the scan at a position where the expression matched. */
  lemma ReplaceFromMatches(s: string, ms: seq<Option<nat>>, p: nat)
    requires MatchesInRange(s, ms) && p < |s| && ms[p].Some?
    ensures ReplaceFrom(s, ms, p) == s[p..p + ms[p].value] + ['\n'] + ReplaceFrom(s, ms, p + ms[p].value + 1)
  {
  }

  /** r is s with some whitespace characters turned into line feeds, and nothing else changed. */
  predicate BreaksOnlyWhitespace(s: string, r: string)
  {
    |r| == |s| && forall i :: 0 <= i < |s| ==> r[i] == s[i] || (r[i] == '\n' && IsJsWhitespace(s[i]))
  }

  /** Putting the same character in front of both texts keeps the relation. */
  lemma BreaksOnlyWhitespaceCons(c: char, x: string, y: string)
    requires BreaksOnlyWhitespace(x, y)
    ensures BreaksOnlyWhitespace([c] + x, [c] + y)
  {
    assert forall i :: 0 < i <= |x| ==> ([c] + x)[i] == x[i - 1] && ([c] + y)[i] == y[i - 1];
  }

  /** The same prefix, then a whitespace character against a line feed, keeps the relation. */
  lemma BreaksOnlyWhitespaceMatch(u: string, w: char, x: string, y: string)
    requires IsJsWhitespace(w) && BreaksOnlyWhitespace(x, y)
    ensures BreaksOnlyWhitespace(u + [w] + x, u + ['\n'] + y)
  {
    var a, b := u + [w] + x, u + ['\n'] + y;
    assert forall i :: 0 <= i < |u| ==> a[i] == u[i] && b[i] == u[i];
    assert a[|u|] == w && b[|u|] == '\n';
    assert forall i :: |u| < i < |a| ==> a[i] == x[i - |u| - 1] && b[i] == y[i - |u| - 1];
  }

  lemma BreaksAfterFailure(s: string, ms: seq<Option<nat>>, p: nat)
    requires MatchesInRange(s, ms) && p < |s| && ms[p].None?
    requires BreaksOnlyWhitespace(s[p + 1..], ReplaceFrom(s, ms, p + 1))
    ensures BreaksOnlyWhitespace(s[p..], ReplaceFrom(s, ms, p))
  {
    ReplaceFromFails(s, ms, p);
    assert s[p..] == [s[p]] + s[p + 1..];
    BreaksOnlyWhitespaceCons(s[p], s[p + 1..], ReplaceFrom(s, ms, p + 1));
  }

  /** A match ends on a whitespace character. */
  lemma MatchEndsOnWhitespace(s: string, n: nat, ms: seq<Option<nat>>, p: nat)
    requires IsMatchTable(s, n, ms) && p < |s| && ms[p].Some?
    ensures p + ms[p].value < |s| && IsJsWhitespace(s[p + ms[p].value])
  {
    assert IsMatchAt(s, n, p, ms[p].value);
  }

  lemma BreaksAfterMatch(s: string, ms: seq<Option<nat>>, p: nat)
    requires MatchesInRange(s, ms) && p < |s| && ms[p].Some? && IsJsWhitespace(s[p + ms[p].value])
    requires BreaksOnlyWhitespace(s[p + ms[p].value + 1..], ReplaceFrom(s, ms, p + ms[p].value + 1))
    ensures BreaksOnlyWhitespace(s[p..], ReplaceFrom(s, ms, p))
  {
    var k := ms[p].value;
    ReplaceFromMatches(s, ms, p);
    SplitAround(s, p, p + k);
    BreaksOnlyWhitespaceMatch(s[p..p + k], s[p + k], s[p + k + 1..], ReplaceFrom(s, ms, p + k + 1));
  }

  /** The scan changes only whitespace characters, and only into line feeds. */
  lemma {:induction false} ReplaceFromBreaksOnlyWhitespace(s: string, n: nat, ms: seq<Option<nat>>, p: nat)
    requires IsMatchTable(s, n, ms) && MatchesInRange(s, ms) && p <= |s|
    ensures BreaksOnlyWhitespace(s[p..], ReplaceFrom(s, ms, p))
    decreases |s| - p
  {
    if p < |s| {
      if ms[p].None? {
        ReplaceFromBreaksOnlyWhitespace(s, n, ms, p + 1);
        BreaksAfterFailure(s, ms, p);
      } else {
        ReplaceFromBreaksOnlyWhitespace(s, n, ms, p + ms[p].value + 1);
        MatchEndsOnWhitespace(s, n, ms, p);
        BreaksAfterMatch(s, ms, p);
      }
    }
  }

  /** [a, b) is a whole line of o: it starts o or follows a line feed, ends o or precedes one, and holds none. */
  ghost predicate IsLine(o: string, a: nat, b: nat)
  {
    && a <= b <= |o|
    && (a == 0 || o[a - 1] == '\n')
    && (b == |o| || o[b] == '\n')
    && NoNewline(o, a, b)
  }

  /** A line fits a width n when it is at most n long or is one word: no whitespace after its first character. */
  ghost predicate LineFits(o: string, n: nat, a: nat, b: nat)
    requires a <= b <= |o|
  {
    b - a <= n || forall i :: a < i < b ==> !IsJsWhitespace(o[i])
  }

  /** Every line of o fits the width n. */
  ghost predicate AllLinesFit(o: string, n: nat)
  {
    forall a: nat, b: nat :: IsLine(o, a, b) ==> LineFits(o, n, a, b)
  }

  /**
   * The global replace itself. It keeps the length, changes only whitespace
   * characters and only into line feeds, and leaves every line fitting n.
   */
  function ReflowReplace(s: string, n: nat): (r: string)
    requires n >= 1
    ensures BreaksOnlyWhitespace(s, r)
    ensures AllLinesFit(r, n)
  {
    var ms := Matches(s, n);
    MatchesIsMatchTable(s, n);
    ReplaceFromBreaksOnlyWhitespace(s, n, ms, 0);
    assert s[0..] == s;
    LinesFitFrom(s, n, ms, 0, 0);
    assert s[0..0] + ReplaceFrom(s, ms, 0) == ReplaceFrom(s, ms, 0);
    ReplaceFrom(s, ms, 0)
  }

  /**
   * `formatOutput`: the text unchanged when reflow is off or the text is no
   * longer than the width, the global replace otherwise.
   */
  function FormatOutput(content: string, fitOutputToScreen: bool, maxLineLength: nat): (r: string)
    requires fitOutputToScreen ==> maxLineLength >= 1
    ensures !fitOutputToScreen || |content| <= maxLineLength ==> r == content
    ensures BreaksOnlyWhitespace(content, r)
    ensures fitOutputToScreen ==> AllLinesFit(r, maxLineLength)
  {
    if !fitOutputToScreen then content
    else if |content| <= maxLineLength then
      ShortTextFits(content, maxLineLength);
      content
    else ReflowReplace(content, maxLineLength)
  }

  // ---------------------------------------------------------------------------
  // Every line of the output fits

  /** A text no longer than n has only lines that fit n. */
  lemma ShortTextFits(s: string, n: nat)
    requires |s| <= n
    ensures AllLinesFit(s, n)
  {
  }

  /** A text without line feeds is one line, and it fits when that line does. */
  lemma SingleLine(x: string, n: nat)
    requires NoNewline(x, 0, |x|) && LineFits(x, n, 0, |x|)
    ensures AllLinesFit(x, n)
  {
    forall a: nat, b: nat | IsLine(x, a, b) ensures LineFits(x, n, a, b) {
      assert a == 0;
      assert b == |x|;
    }
  }

  /** A fitting line, a line feed, then text whose lines all fit: all lines fit. */
  lemma LineThenLines(x: string, y: string, n: nat)
    requires NoNewline(x, 0, |x|) && LineFits(x, n, 0, |x|)
    requires AllLinesFit(y, n)
    ensures AllLinesFit(x + ['\n'] + y, n)
  {
    var o := x + ['\n'] + y;
    forall a: nat, b: nat | IsLine(o, a, b) ensures LineFits(o, n, a, b) {
      if a <= |x| {
        FirstLineFits(x, y, n, a, b);
      } else {
        LaterLineFits(x, y, n, a, b);
      }
    }
  }

  /** The line of x + "\n" + y that starts inside x is x itself. */
  lemma FirstLineFits(x: string, y: string, n: nat, a: nat, b: nat)
    requires NoNewline(x, 0, |x|) && LineFits(x, n, 0, |x|)
    requires IsLine(x + ['\n'] + y, a, b) && a <= |x|
    ensures LineFits(x + ['\n'] + y, n, a, b)
  {
    var o := x + ['\n'] + y;
    assert forall i :: 0 <= i < |x| ==> o[i] == x[i];
    assert o[|x|] == '\n';
    assert b <= |x|;
  }

  /** A line of x + "\n" + y that starts after the line feed is a line of y. */
  lemma LaterLineFits(x: string, y: string, n: nat, a: nat, b: nat)
    requires AllLinesFit(y, n)
    requires IsLine(x + ['\n'] + y, a, b) && a > |x|
    ensures LineFits(x + ['\n'] + y, n, a, b)
  {
    var o := x + ['\n'] + y;
    assert forall j :: 0 <= j < |y| ==> y[j] == o[|x| + 1 + j];
    var a', b' := a - |x| - 1, b - |x| - 1;
    assert IsLine(y, a', b');
    assert LineFits(y, n, a', b');
  }

  /**
   * Once the scan failed at every position of [a, c), a line [a, e) longer
   * than n keeps no whitespace after its first character: the failed position
   * max(a, w - n) would have reached any whitespace w.
   */
  lemma FailedStretchFits(s: string, n: nat, ms: seq<Option<nat>>, a: nat, c: nat, e: nat)
    requires n >= 1 && IsMatchTable(s, n, ms)
    requires a <= c <= e <= |s| && e <= c + n
    requires NoNewline(s, a, e)
    requires forall q :: a <= q < c ==> ms[q].None?
    ensures NoNewline(s[a..e], 0, e - a) && LineFits(s[a..e], n, 0, e - a)
  {
    var x := s[a..e];
    if e - a > n {
      forall i | 0 < i < e - a ensures !IsJsWhitespace(x[i]) {
        var w := a + i;
        var q: nat := if w - n > a then w - n else a;
        assert a <= q < c && ms[q].None?;
        assert !IsMatchAt(s, n, q, w - q);
      }
    }
  }

  /** The printed text behind a line start a, where the scan has reached the end. */
  lemma PrefixAtEnd(s: string, ms: seq<Option<nat>>, a: nat)
    requires MatchesInRange(s, ms) && a <= |s|
    ensures s[a..|s|] + ReplaceFrom(s, ms, |s|) == s[a..|s|]
  {
  }

  /** An empty prefix adds nothing. */
  lemma EmptyPrefix(s: string, ms: seq<Option<nat>>, p: nat)
    requires MatchesInRange(s, ms) && p <= |s|
    ensures s[p..p] + ReplaceFrom(s, ms, p) == ReplaceFrom(s, ms, p)
  {
  }

  /** A failed attempt at p moves s[p] into the prefix. */
  lemma PrefixThenFailure(s: string, ms: seq<Option<nat>>, a: nat, p: nat)
    requires MatchesInRange(s, ms) && a <= p < |s| && ms[p].None?
    ensures s[a..p] + ReplaceFrom(s, ms, p) == s[a..p + 1] + ReplaceFrom(s, ms, p + 1)
  {
    var rest := ReplaceFrom(s, ms, p + 1);
    assert ReplaceFrom(s, ms, p) == [s[p]] + rest;
    assert s[a..p + 1] == s[a..p] + [s[p]];
  }

  /** A failed attempt at a line feed p ends the line s[a..p]. */
  lemma PrefixThenFailedNewline(s: string, ms: seq<Option<nat>>, a: nat, p: nat)
    requires MatchesInRange(s, ms) && a <= p < |s| && ms[p].None? && s[p] == '\n'
    ensures s[a..p] + ReplaceFrom(s, ms, p) == s[a..p] + ['\n'] + ReplaceFrom(s, ms, p + 1)
  {
    var rest := ReplaceFrom(s, ms, p + 1);
    assert ReplaceFrom(s, ms, p) == ['\n'] + rest;
  }

  /** A match of k + 1 characters at p ends the line s[a..p + k] with a line feed. */
  lemma PrefixThenMatch(s: string, ms: seq<Option<nat>>, a: nat, p: nat)
    requires MatchesInRange(s, ms) && a <= p < |s| && ms[p].Some?
    ensures s[a..p] + ReplaceFrom(s, ms, p)
         == s[a..p + ms[p].value] + ['\n'] + ReplaceFrom(s, ms, p + ms[p].value + 1)
  {
    var k := ms[p].value;
    ReplaceFromMatches(s, ms, p);
    SliceJoin(s, a, p, p + k);
    JoinAroundBreak(s[a..p], s[p..p + k], ReplaceFrom(s, ms, p + k + 1));
  }

  /** Adjacent slices join. */
  lemma SliceJoin(s: string, a: nat, b: nat, c: nat)
    requires a <= b <= c <= |s|
    ensures s[a..b] + s[b..c] == s[a..c]
  {
  }

  /** Regrouping around an inserted line feed. */
  lemma JoinAroundBreak(x: string, y: string, z: string)
    ensures x + (y + ['\n'] + z) == (x + y) + ['\n'] + z
  {
  }

  /** The scan has reached the end: the last line s[a..] held no match and fits. */
  lemma LinesFitAtEnd(s: string, n: nat, ms: seq<Option<nat>>, a: nat)
    requires n >= 1 && IsMatchTable(s, n, ms) && MatchesInRange(s, ms)
    requires a <= |s|
    requires NoNewline(s, a, |s|)
    requires forall q :: a <= q < |s| ==> ms[q].None?
    ensures AllLinesFit(s[a..|s|] + ReplaceFrom(s, ms, |s|), n)
  {
    PrefixAtEnd(s, ms, a);
    FailedStretchFits(s, n, ms, a, |s|, |s|);
    SingleLine(s[a..|s|], n);
  }

  /** A failed attempt at a line feed p closes the line s[a..p], which fits. */
  lemma LinesFitAfterFailedNewline(s: string, n: nat, ms: seq<Option<nat>>, a: nat, p: nat)
    requires n >= 1 && IsMatchTable(s, n, ms) && MatchesInRange(s, ms)
    requires a <= p < |s| && ms[p].None? && s[p] == '\n'
    requires NoNewline(s, a, p)
    requires forall q :: a <= q < p ==> ms[q].None?
    requires AllLinesFit(s[p + 1..p + 1] + ReplaceFrom(s, ms, p + 1), n)
    ensures AllLinesFit(s[a..p] + ReplaceFrom(s, ms, p), n)
  {
    EmptyPrefix(s, ms, p + 1);
    FailedStretchFits(s, n, ms, a, p, p);
    LineThenLines(s[a..p], ReplaceFrom(s, ms, p + 1), n);
    PrefixThenFailedNewline(s, ms, a, p);
  }

  /** A failed attempt at any other character extends the current line. */
  lemma LinesFitAfterFailure(s: string, n: nat, ms: seq<Option<nat>>, a: nat, p: nat)
    requires MatchesInRange(s, ms)
    requires a <= p < |s| && ms[p].None?
    requires AllLinesFit(s[a..p + 1] + ReplaceFrom(s, ms, p + 1), n)
    ensures AllLinesFit(s[a..p] + ReplaceFrom(s, ms, p), n)
  {
    PrefixThenFailure(s, ms, a, p);
  }

  /** A match at p closes the line s[a..p + k], which fits, with the line feed it inserts. */
  lemma LinesFitAfterMatch(s: string, n: nat, ms: seq<Option<nat>>, a: nat, p: nat)
    requires n >= 1 && IsMatchTable(s, n, ms) && MatchesInRange(s, ms)
    requires a <= p < |s| && ms[p].Some?
    requires NoNewline(s, a, p)
    requires forall q :: a <= q < p ==> ms[q].None?
    requires AllLinesFit(s[p + ms[p].value + 1..p + ms[p].value + 1] + ReplaceFrom(s, ms, p + ms[p].value + 1), n)
    ensures AllLinesFit(s[a..p] + ReplaceFrom(s, ms, p), n)
  {
    var k := ms[p].value;
    assert IsMatchAt(s, n, p, k);
    EmptyPrefix(s, ms, p + k + 1);
    assert NoNewline(s, a, p + k);
    FailedStretchFits(s, n, ms, a, p, p + k);
    LineThenLines(s[a..p + k], ReplaceFrom(s, ms, p + k + 1), n);
    PrefixThenMatch(s, ms, a, p);
  }

  /**
   * The lines of what is printed from a line start a on, when the scan has
   * reached p and failed at every position of [a, p), all fit n.
   */
  lemma {:induction false} LinesFitFrom(s: string, n: nat, ms: seq<Option<nat>>, a: nat, p: nat)
    requires n >= 1 && IsMatchTable(s, n, ms) && MatchesInRange(s, ms)
    requires a <= p <= |s|
    requires NoNewline(s, a, p)
    requires forall q :: a <= q < p ==> ms[q].None?
    ensures AllLinesFit(s[a..p] + ReplaceFrom(s, ms, p), n)
    decreases |s| - p
  {
    if p == |s| {
      LinesFitAtEnd(s, n, ms, a);
    } else if ms[p].None? && s[p] == '\n' {
      LinesFitFrom(s, n, ms, p + 1, p + 1);
      LinesFitAfterFailedNewline(s, n, ms, a, p);
    } else if ms[p].None? {
      LinesFitFrom(s, n, ms, a, p + 1);
      LinesFitAfterFailure(s, n, ms, a, p);
    } else {
      LinesFitFrom(s, n, ms, p + ms[p].value + 1, p + ms[p].value + 1);
      LinesFitAfterMatch(s, n, ms, a, p);
    }
  }

  // ---------------------------------------------------------------------------
  // Fixpoints and idempotence

  /** Where the line holding position p starts. */
  ghost function LineStart(o: string, p: nat): (a: nat)
    requires p <= |o|
    ensures a <= p && (a == 0 || o[a - 1] == '\n') && NoNewline(o, a, p)
    decreases p
  {
    if p == 0 || o[p - 1] == '\n' then p else LineStart(o, p - 1)
  }

  /** In a text whose lines all fit, every match ends on a line feed that is already there. */
  lemma FittingTextHasOnlyTrivialMatches(o: string, n: nat, ms: seq<Option<nat>>, p: nat)
    requires AllLinesFit(o, n) && IsMatchTable(o, n, ms)
    requires p < |o|
    ensures ms[p].Some? ==> o[p + ms[p].value] == '\n'
  {
    if ms[p].Some? {
      var k := ms[p].value;
      var run := RunLength(o, p);
      assert IsGreedyMatchAt(o, n, p, k);
      MatchWithinRun(o, n, p, k);
      var a, b := LineStart(o, p), p + run;
      assert IsLine(o, a, b);
      assert LineFits(o, n, a, b);
      if b < |o| && run <= n {
        assert IsMatchAt(o, n, p, run);
      }
    }
  }

  lemma TrivialFailureStep(o: string, ms: seq<Option<nat>>, p: nat)
    requires MatchesInRange(o, ms) && p < |o| && ms[p].None?
    requires ReplaceFrom(o, ms, p + 1) == o[p + 1..]
    ensures ReplaceFrom(o, ms, p) == o[p..]
  {
    ReplaceFromFails(o, ms, p);
    assert o[p..] == [o[p]] + o[p + 1..];
  }

  lemma TrivialMatchStep(o: string, ms: seq<Option<nat>>, p: nat)
    requires MatchesInRange(o, ms) && p < |o| && ms[p].Some? && o[p + ms[p].value] == '\n'
    requires ReplaceFrom(o, ms, p + ms[p].value + 1) == o[p + ms[p].value + 1..]
    ensures ReplaceFrom(o, ms, p) == o[p..]
  {
    ReplaceFromMatches(o, ms, p);
    SplitAround(o, p, p + ms[p].value);
  }

  /** A scan that meets only matches ending on a line feed reproduces its text. */
  lemma {:induction false} TrivialMatchesLeaveTextAlone(o: string, ms: seq<Option<nat>>, p: nat)
    requires MatchesInRange(o, ms) && p <= |o|
    requires forall q :: 0 <= q < |o| && ms[q].Some? ==> o[q + ms[q].value] == '\n'
    ensures ReplaceFrom(o, ms, p) == o[p..]
    decreases |o| - p
  {
    if p < |o| {
      if ms[p].None? {
        TrivialMatchesLeaveTextAlone(o, ms, p + 1);
        TrivialFailureStep(o, ms, p);
      } else {
        TrivialMatchesLeaveTextAlone(o, ms, p + ms[p].value + 1);
        TrivialMatchStep(o, ms, p);
      }
    }
  }

  /** The texts the replace leaves alone are exactly those whose every line fits. */
  lemma FixpointsAreFittingTexts(o: string, n: nat)
    requires n >= 1
    ensures ReflowReplace(o, n) == o <==> AllLinesFit(o, n)
  {
    if AllLinesFit(o, n) {
      var ms := Matches(o, n);
      MatchesIsMatchTable(o, n);
      forall q | 0 <= q < |o| && ms[q].Some? ensures o[q + ms[q].value] == '\n' {
        FittingTextHasOnlyTrivialMatches(o, n, ms, q);
      }
      TrivialMatchesLeaveTextAlone(o, ms, 0);
    }
  }

  /** Reflowing reflowed text changes nothing. */
  lemma ReflowIdempotent(s: string, n: nat)
    requires n >= 1
    ensures ReflowReplace(ReflowReplace(s, n), n) == ReflowReplace(s, n)
  {
    FixpointsAreFittingTexts(ReflowReplace(s, n), n);
  }

  /** The `length <= width` guard only saves work: the replace would leave such text alone too. */
  lemma ShortTextUnchanged(s: string, n: nat)
    requires n >= 1
    requires |s| <= n
    ensures ReflowReplace(s, n) == s
  {
    ShortTextFits(s, n);
    FixpointsAreFittingTexts(s, n);
  }

  /** `formatOutput` applied to its own output changes nothing. */
  lemma FormatOutputIdempotent(content: string, fitOutputToScreen: bool, maxLineLength: nat)
    requires fitOutputToScreen ==> maxLineLength >= 1
    ensures FormatOutput(FormatOutput(content, fitOutputToScreen, maxLineLength), fitOutputToScreen, maxLineLength)
         == FormatOutput(content, fitOutputToScreen, maxLineLength)
  {
    if fitOutputToScreen && |content| > maxLineLength {
      ReflowIdempotent(content, maxLineLength);
    }
  }

  /** With reflow on, `formatOutput` returns its input exactly when every line of it fits. */
  lemma FormatOutputFixpoints(content: string, maxLineLength: nat)
    requires maxLineLength >= 1
    ensures FormatOutput(content, true, maxLineLength) == content <==> AllLinesFit(content, maxLineLength)
  {
    if |content| <= maxLineLength {
      ShortTextFits(content, maxLineLength);
    } else {
      FixpointsAreFittingTexts(content, maxLineLength);
    }
  }

  // ---------------------------------------------------------------------------
  // The last line and the origin of each break

  /**
   * The scan from p reaches position q: past a failure it moves on by one
   * character, past a match of k + 1 characters it resumes after the line
   * feed it put in.
   */
  ghost predicate ScanVisits(s: string, ms: seq<Option<nat>>, p: nat, q: nat)
    requires MatchesInRange(s, ms) && p <= |s|
    decreases |s| - p
  {
    || p == q
    || (&& p < q && p < |s|
        && if ms[p].None? then ScanVisits(s, ms, p + 1, q) else ScanVisits(s, ms, p + ms[p].value + 1, q))
  }

  /**
   * Position b of s is the end of a match the table records at a position q
   * the scan from p reaches.
   */
  ghost predicate BrokenByMatchFrom(s: string, ms: seq<Option<nat>>, p: nat, b: nat)
    requires MatchesInRange(s, ms) && p <= |s|
  {
    exists q {:trigger ScanVisits(s, ms, p, q)} :: p <= q < b < |s| && ScanVisits(s, ms, p, q) && ms[q] == Some(b - q)
  }

  /** Every character the scan from p changes ends a match the scan itself took. */
  ghost predicate BreaksComeFromMatches(s: string, ms: seq<Option<nat>>, p: nat)
    requires MatchesInRange(s, ms) && p <= |s|
  {
    forall i :: 0 <= i < |s| - p && ReplaceFrom(s, ms, p)[i] != s[p + i] ==> BrokenByMatchFrom(s, ms, p, p + i)
  }

  /** The part of u + v after position x, when x lies inside v. */
  lemma DropAfter(u: string, v: string, x: nat)
    requires |u| <= x <= |u| + |v|
    ensures (u + v)[x..] == v[x - |u|..]
  {
    assert forall i :: 0 <= i < |u| + |v| - x ==> (u + v)[x..][i] == v[x - |u|..][i];
  }

  /** Once the scan from p reaches q, the rest of what it prints is what the scan from q prints. */
  lemma {:induction false} ScanSuffix(s: string, ms: seq<Option<nat>>, p: nat, q: nat)
    requires MatchesInRange(s, ms) && p <= q <= |s| && ScanVisits(s, ms, p, q)
    ensures ReplaceFrom(s, ms, p)[q - p..] == ReplaceFrom(s, ms, q)
    decreases |s| - p
  {
    if p < q {
      if ms[p].None? {
        ScanSuffix(s, ms, p + 1, q);
        SuffixAfterFailure(s, ms, p, q);
      } else {
        ScanSuffix(s, ms, p + ms[p].value + 1, q);
        SuffixAfterMatch(s, ms, p, q);
      }
    }
  }

  lemma SuffixAfterFailure(s: string, ms: seq<Option<nat>>, p: nat, q: nat)
    requires MatchesInRange(s, ms) && p < q <= |s| && ms[p].None?
    requires ReplaceFrom(s, ms, p + 1)[q - (p + 1)..] == ReplaceFrom(s, ms, q)
    ensures ReplaceFrom(s, ms, p)[q - p..] == ReplaceFrom(s, ms, q)
  {
    ReplaceFromFails(s, ms, p);
    DropAfter([s[p]], ReplaceFrom(s, ms, p + 1), q - p);
  }

  lemma SuffixAfterMatch(s: string, ms: seq<Option<nat>>, p: nat, q: nat)
    requires MatchesInRange(s, ms) && p < |s| && ms[p].Some? && p + ms[p].value + 1 <= q <= |s|
    requires ReplaceFrom(s, ms, p + ms[p].value + 1)[q - (p + ms[p].value + 1)..] == ReplaceFrom(s, ms, q)
    ensures ReplaceFrom(s, ms, p)[q - p..] == ReplaceFrom(s, ms, q)
  {
    var k := ms[p].value;
    ReplaceFromMatches(s, ms, p);
    DropAfter(s[p..p + k] + ['\n'], ReplaceFrom(s, ms, p + k + 1), q - p);
  }

  /** A break the scan from p' takes is one the scan from p takes, when the scan from p moves on to p'. */
  lemma OriginBeforeStep(s: string, ms: seq<Option<nat>>, p: nat, p': nat, b: nat)
    requires MatchesInRange(s, ms) && p < p' <= |s|
    requires if ms[p].None? then p' == p + 1 else p' == p + ms[p].value + 1
    requires BrokenByMatchFrom(s, ms, p', b)
    ensures BrokenByMatchFrom(s, ms, p, b)
  {
    var q :| p' <= q < b < |s| && ScanVisits(s, ms, p', q) && ms[q] == Some(b - q);
    assert ScanVisits(s, ms, p, q);
  }

  /** A character the scan from p changes after a failure at p is one the scan from p + 1 changes. */
  lemma OriginAfterFailureAt(s: string, ms: seq<Option<nat>>, p: nat, i: nat)
    requires MatchesInRange(s, ms) && p < |s| && ms[p].None?
    requires BreaksComeFromMatches(s, ms, p + 1)
    requires 0 < i < |s| - p && ReplaceFrom(s, ms, p)[i] != s[p + i]
    ensures BrokenByMatchFrom(s, ms, p, p + i)
  {
    ReplaceFromFails(s, ms, p);
    var rest := ReplaceFrom(s, ms, p + 1);
    assert ([s[p]] + rest)[i] == rest[i - 1];
    assert rest[i - 1] != s[(p + 1) + (i - 1)];
    OriginBeforeStep(s, ms, p, p + 1, p + i);
  }

  lemma OriginsAfterFailure(s: string, ms: seq<Option<nat>>, p: nat)
    requires MatchesInRange(s, ms) && p < |s| && ms[p].None?
    requires BreaksComeFromMatches(s, ms, p + 1)
    ensures BreaksComeFromMatches(s, ms, p)
  {
    ReplaceFromFails(s, ms, p);
    assert ReplaceFrom(s, ms, p)[0] == s[p];
    forall i | 0 < i < |s| - p && ReplaceFrom(s, ms, p)[i] != s[p + i] ensures BrokenByMatchFrom(s, ms, p, p + i) {
      OriginAfterFailureAt(s, ms, p, i);
    }
  }

  /** After the line feed of the match at p, the scan from p prints what the scan after that line feed prints. */
  lemma IndexAfterMatch(s: string, ms: seq<Option<nat>>, p: nat, i: nat)
    requires MatchesInRange(s, ms) && p < |s| && ms[p].Some? && ms[p].value < i < |s| - p
    ensures ReplaceFrom(s, ms, p)[i] == ReplaceFrom(s, ms, p + ms[p].value + 1)[i - ms[p].value - 1]
  {
    ReplaceFromMatches(s, ms, p);
  }

  lemma OriginsAfterMatch(s: string, ms: seq<Option<nat>>, p: nat)
    requires MatchesInRange(s, ms) && p < |s| && ms[p].Some? && ms[p].value >= 1
    requires BreaksComeFromMatches(s, ms, p + ms[p].value + 1)
    ensures BreaksComeFromMatches(s, ms, p)
  {
    var k := ms[p].value;
    ReplaceFromMatches(s, ms, p);
    var r := ReplaceFrom(s, ms, p);
    assert forall i :: 0 <= i < k ==> r[i] == s[p + i];
    assert ScanVisits(s, ms, p, p);
    forall i | k < i < |s| - p && r[i] != s[p + i] ensures BrokenByMatchFrom(s, ms, p, p + i) {
      IndexAfterMatch(s, ms, p, i);
      assert ReplaceFrom(s, ms, p + k + 1)[i - k - 1] != s[(p + k + 1) + (i - k - 1)];
      OriginBeforeStep(s, ms, p, p + k + 1, p + i);
    }
  }

  /** Every character the scan from p changes ends a match the scan took. */
  lemma {:induction false} BreakOriginsFrom(s: string, ms: seq<Option<nat>>, p: nat)
    requires MatchesInRange(s, ms) && p <= |s|
    requires forall q :: 0 <= q < |s| && ms[q].Some? ==> ms[q].value >= 1
    ensures BreaksComeFromMatches(s, ms, p)
    decreases |s| - p
  {
    if p < |s| {
      if ms[p].None? {
        BreakOriginsFrom(s, ms, p + 1);
        OriginsAfterFailure(s, ms, p);
      } else {
        BreakOriginsFrom(s, ms, p + ms[p].value + 1);
        OriginsAfterMatch(s, ms, p);
      }
    }
  }

  /** The scan copies the group of every match it takes: what it prints at s[q..b] is s[q..b]. */
  lemma GroupCopied(s: string, ms: seq<Option<nat>>, q: nat, b: nat)
    requires MatchesInRange(s, ms) && q < b < |s| && ScanVisits(s, ms, 0, q) && ms[q] == Some(b - q)
    ensures ReplaceFrom(s, ms, 0)[q..b] == s[q..b]
  {
    var k := ms[q].value;
    ScanSuffix(s, ms, 0, q);
    ReplaceFromMatches(s, ms, q);
    TakeAfter(ReplaceFrom(s, ms, 0), q, s[q..q + k], ['\n'], ReplaceFrom(s, ms, q + k + 1));
  }

  /** When o continues at q with u + w + v, o[q..q + |u|] is u. */
  lemma TakeAfter(o: string, q: nat, u: string, w: string, v: string)
    requires q <= |o| && o[q..] == u + w + v
    ensures o[q..q + |u|] == u
  {
    assert forall i :: 0 <= i < |u| ==> o[q..q + |u|][i] == o[q..][i];
  }

  /** A line holding no line feed in o[q..p] starts at or before q. */
  lemma {:induction false} LineStartBefore(o: string, q: nat, p: nat)
    requires q <= p <= |o| && NoNewline(o, q, p)
    ensures LineStart(o, p) <= q
    decreases p
  {
    if p > q {
      LineStartBefore(o, q, p - 1);
    }
  }

  /** The facts a break at b inherits from the match at q whose group the output r kept. */
  lemma KeptMatchFacts(s: string, n: nat, r: string, q: nat, b: nat)
    requires |r| == |s| && MatchBreaksAt(s, n, q, b) && r[q..b] == s[q..b]
    ensures b - q <= n && NoNewline(s, q, b) && IsJsWhitespace(s[b])
    ensures LineStart(r, b) <= q
  {
    assert IsMatchAt(s, n, q, b - q);
    assert forall x :: q <= x < b ==> r[x] == r[q..b][x - q];
    LineStartBefore(r, q, b);
  }

  /** The origin of one break of the reflow. */
  lemma BreakOriginAt(s: string, n: nat, b: nat)
    requires n >= 1 && b < |s| && ReflowReplace(s, n)[b] != s[b]
    ensures exists q: nat :: && ScanVisits(s, Matches(s, n), 0, q)
                             && MatchBreaksAt(s, n, q, b) && b - q <= n && NoNewline(s, q, b) && IsJsWhitespace(s[b])
                             && ReflowReplace(s, n)[q..b] == s[q..b]
                             && LineStart(ReflowReplace(s, n), b) <= q
  {
    var ms := Matches(s, n);
    var q := BreakScanPosition(s, n, b);
    MatchAtIsLongestMatch(s, n, q);
    GroupCopied(s, ms, q, b);
    KeptMatchFacts(s, n, ReflowReplace(s, n), q, b);
  }

  /** The position the scan reached and matched at, for a character the replace changes. */
  lemma BreakScanPosition(s: string, n: nat, b: nat) returns (q: nat)
    requires n >= 1 && b < |s| && ReflowReplace(s, n)[b] != s[b]
    ensures MatchesInRange(s, Matches(s, n)) && q < b
    ensures ScanVisits(s, Matches(s, n), 0, q) && Matches(s, n)[q] == Some(b - q)
  {
    var ms := Matches(s, n);
    MatchesIsMatchTable(s, n);
    BreakOriginsFrom(s, ms, 0);
    assert ReplaceFrom(s, ms, 0)[b] != s[0 + b];
    assert BrokenByMatchFrom(s, ms, 0, 0 + b);
    q :| 0 <= q < b < |s| && ScanVisits(s, ms, 0, q) && ms[q] == Some(b - q);
  }

  /**
   * Each break the reflow inserts replaces the whitespace s[b] of a longest
   * match that began at a position q the scan reaches, with b - q <= n and no
   * line feed in s[q..b]. The scan copies s[q..b] unchanged, so the output
   * line the break ends starts at or before q.
   */
  lemma BreakOrigins(s: string, n: nat)
    requires n >= 1
    ensures forall b :: 0 <= b < |s| && ReflowReplace(s, n)[b] != s[b] ==>
      exists q: nat :: && ScanVisits(s, Matches(s, n), 0, q)
                       && MatchBreaksAt(s, n, q, b) && b - q <= n && NoNewline(s, q, b) && IsJsWhitespace(s[b])
                       && ReflowReplace(s, n)[q..b] == s[q..b]
                       && LineStart(ReflowReplace(s, n), b) <= q
  {
    forall b | 0 <= b < |s| && ReflowReplace(s, n)[b] != s[b]
      ensures exists q: nat :: && ScanVisits(s, Matches(s, n), 0, q)
                               && MatchBreaksAt(s, n, q, b) && b - q <= n && NoNewline(s, q, b) && IsJsWhitespace(s[b])
                               && ReflowReplace(s, n)[q..b] == s[q..b]
                               && LineStart(ReflowReplace(s, n), b) <= q
    {
      BreakOriginAt(s, n, b);
    }
  }

  /** No match reaches into a last line s[j..] of 1..n characters: from inside it the lookahead blocks. */
  lemma NoBreakInShortLastLine(s: string, n: nat, j: nat, q: nat, b: nat)
    requires j <= b < |s| && |s| - j <= n
    requires j == 0 || s[j - 1] == '\n'
    requires NoNewline(s, j, |s|)
    ensures !MatchBreaksAt(s, n, q, b)
  {
    if q < j && q < b {
      assert s[j - 1] == '\n' && q <= j - 1 < b;
      assert !NoNewline(s, q, b);
    } else if j <= q < b {
      assert LookaheadBlocks(s, n, q);
    }
  }

  /**
   * When the text after the last line feed (or the whole text, when it has
   * none) is 1..width characters long, `formatOutput` leaves it as it is.
   */
  lemma FormatOutputKeepsShortLastLine(content: string, fitOutputToScreen: bool, maxLineLength: nat, j: nat)
    requires fitOutputToScreen ==> maxLineLength >= 1
    requires j <= |content| && 1 <= |content| - j <= maxLineLength
    requires j == 0 || content[j - 1] == '\n'
    requires NoNewline(content, j, |content|)
    ensures FormatOutput(content, fitOutputToScreen, maxLineLength)[j..] == content[j..]
  {
    if fitOutputToScreen && |content| > maxLineLength {
      var r := ReflowReplace(content, maxLineLength);
      BreakOrigins(content, maxLineLength);
      forall b | j <= b < |content| ensures r[b] == content[b] {
        forall q ensures !MatchBreaksAt(content, maxLineLength, q, b) {
          NoBreakInShortLastLine(content, maxLineLength, j, q, b);
        }
      }
    }
  }

  // ---------------------------------------------------------------------------
  // A worked example: the scan resumes after each break

  /**
   * At width 4, "a b c d e" has a match at every position up to 4, but the
   * scan takes only those at 0 and 4: the attempts in between are skipped
   * because the scan resumes after the line feed each match puts in.
   */
  const Sample: string := "a b c d e"

  lemma SampleMatchAt0()
    ensures MatchAt(Sample, 4, 0) == Some(3)
  {
    assert RunLength(Sample, 0) == 9;
    assert FurthestBreak(Sample, 0, 4) == Some(3);
  }

  lemma SampleMatchAt2()
    ensures MatchAt(Sample, 4, 2) == Some(3)
  {
    assert RunLength(Sample, 2) == 7;
    assert FurthestBreak(Sample, 2, 4) == Some(3);
  }

  lemma SampleMatchAt4()
    ensures MatchAt(Sample, 4, 4) == Some(3)
  {
    assert RunLength(Sample, 4) == 5;
    assert FurthestBreak(Sample, 4, 4) == Some(3);
  }

  lemma SampleMatchAt8()
    ensures MatchAt(Sample, 4, 8) == None
  {
    assert LookaheadBlocks(Sample, 4, 8);
  }

  lemma SampleScan(ms: seq<Option<nat>>)
    requires MatchesInRange(Sample, ms) && ms[0] == Some(3) && ms[4] == Some(3) && ms[8] == None
    ensures ReplaceFrom(Sample, ms, 0) == "a b\nc d\ne"
  {
    ReplaceFromFails(Sample, ms, 8);
    ReplaceFromMatches(Sample, ms, 4);
    ReplaceFromMatches(Sample, ms, 0);
    assert Sample[0..3] == "a b" && Sample[4..7] == "c d" && Sample[8] == 'e';
  }

  /**
   * The expression also matches at 2, with its whitespace at 5, but the scan
   * never tries that position, so the space at 5 stays.
   */
  lemma ReflowSample()
    ensures Matches(Sample, 4)[2] == Some(3)
    ensures ReflowReplace(Sample, 4) == "a b\nc d\ne"
  {
    MatchesIsMatchTable(Sample, 4);
    SampleMatchAt0();
    SampleMatchAt2();
    SampleMatchAt4();
    SampleMatchAt8();
    SampleScan(Matches(Sample, 4));
  }
}
