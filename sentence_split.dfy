/**
 * The two `split` calls of frontend/lib/utils/recommendations.ts:
 * `text.split(/\r\n|\n/)` into lines (line 25) and
 * `processedText.split(/\.\s+(?=[A-Z])|\.$/)` into sentences (line 16).
 *
 * `split` with a regular expression tries the pattern at each position in
 * turn; where it matches, the text since the last cut becomes a piece and
 * the matched text is dropped; after the last match the rest of the text is
 * the final piece. Both patterns only look forward, so whether one matches
 * at position `i` of `s` depends on `s[i..]` alone (`MatchLength`), and
 * `Split` below walks the text one character at a time.
 */
module SentenceSplit {
  import opened Text

  /** The two separators. */
  datatype Separator =
    | LineBreak     // `/\r\n|\n/`
    | SentenceEnd   // `/\.\s+(?=[A-Z])|\.$/`

  /** Length of the run of `\s` characters at the start of `s`. */
  function SpaceRun(s: string): (n: nat)
    ensures n <= |s|
    ensures forall i :: 0 <= i < n ==> IsSpace(s[i])
    ensures n == |s| || !IsSpace(s[n])
  {
    if |s| > 0 && IsSpace(s[0]) then 1 + SpaceRun(s[1..]) else 0
  }

  /**
   * Length of the match of `sep` at the start of `s`, or 0 where it does not
   * match (neither pattern matches the empty string).
   *
   * A line break is `\r\n`, tried first, or a lone `\n`; a `\r` alone is not
   * one. A sentence end is a period followed by one or more `\s` and then an
   * ASCII capital, which the lookahead leaves in place; `\s+` is greedy and
   * backing off would leave a space before the capital, so only the whole
   * run can match. The other alternative is a period that is the last
   * character, since `$` without the multiline flag is the end of the text.
   */
  function MatchLength(s: string, sep: Separator): (n: nat)
    ensures n <= |s|
    ensures sep == LineBreak && n > 0 ==>
              if s[0] == '\r' then n == 2 && s[1] == '\n' else n == 1 && s[0] == '\n'
    ensures sep == LineBreak && n == 0 ==> |s| == 0 || (s[0] != '\n' && (s[0] == '\r' ==> |s| == 1 || s[1] != '\n'))
    ensures sep == SentenceEnd && n > 0 ==>
              && s[0] == '.'
              && (n == 1 ==> |s| == 1)
              && (n > 1 ==> n < |s| && IsSpace(s[1]) && IsAsciiUpper(s[n]))
    ensures sep == SentenceEnd && n > 1 ==> forall i :: 1 <= i < n ==> IsSpace(s[i])
  {
    match sep
    case LineBreak =>
      if |s| >= 2 && s[0] == '\r' && s[1] == '\n' then 2
      else if |s| >= 1 && s[0] == '\n' then 1
      else 0
    case SentenceEnd =>
      if |s| == 0 || s[0] != '.' then 0
      else if |s| == 1 then 1
      else
        var w := SpaceRun(s[1..]);
        if 0 < w && 1 + w < |s| && IsAsciiUpper(s[1 + w]) then 1 + w else 0
  }

  /**
   * `s.split(pattern)` for the pattern of `sep`. The first piece is a prefix
   * of `s` (it is the text before the first match).
   */
  function Split(s: string, sep: Separator): (r: seq<string>)
    ensures |r| >= 1
    decreases |s|
  {
    if |s| == 0 then
      [""]
    else if MatchLength(s, sep) > 0 then
      [""] + Split(s[MatchLength(s, sep)..], sep)
    else
      Prefixed([s[0]], Split(s[1..], sep))
  }

  /** The pieces with `p` put in front of the first one. */
  function Prefixed(p: string, pieces: seq<string>): (r: seq<string>)
    requires |pieces| >= 1
    ensures |r| == |pieces| && r[0] == p + pieces[0] && r[1..] == pieces[1..]
  {
    [p + pieces[0]] + pieces[1..]
  }

  /** The pattern does not match at any of the first `i` positions of `s`. */
  predicate NoMatchBefore(s: string, sep: Separator, i: nat)
    requires i <= |s|
    decreases i
  {
    i == 0 || (MatchLength(s, sep) == 0 && NoMatchBefore(s[1..], sep, i - 1))
  }

  /** The sentence-end pattern matches at no position of `s`. */
  predicate NoSentenceEnd(s: string) {
    forall j :: 0 <= j < |s| ==> MatchLength(s[j..], SentenceEnd) == 0
  }

  /** The pieces joined with `sep` between them. */
  function Join(pieces: seq<string>, sep: string): string {
    if |pieces| == 0 then ""
    else if |pieces| == 1 then pieces[0]
    else pieces[0] + sep + Join(pieces[1..], sep)
  }

  /** Joining three parts puts the separator between the first two and between the last two. */
  lemma JoinThree(a: string, b: string, c: string, sep: string)
    ensures Join([a, b, c], sep) == a + sep + b + sep + c
  {
    assert [a, b, c][1..] == [b, c];
    assert [b, c][1..] == [c];
    assert Join([b, c], sep) == b + sep + c;
  }

  /** The text with every `\r\n` written as `\n`. */
  function CollapseCrlf(s: string): (r: string)
    ensures |r| <= |s|
    decreases |s|
  {
    if |s| == 0 then []
    else if |s| >= 2 && s[0] == '\r' && s[1] == '\n' then "\n" + CollapseCrlf(s[2..])
    else [s[0]] + CollapseCrlf(s[1..])
  }

  /** No line contains a line feed. */
  lemma {:induction false} LinesHaveNoLineFeed(s: string)
    ensures forall k, i :: 0 <= k < |Split(s, LineBreak)| && 0 <= i < |Split(s, LineBreak)[k]| ==>
              Split(s, LineBreak)[k][i] != '\n'
    decreases |s|
  {
    if |s| > 0 {
      var n := MatchLength(s, LineBreak);
      if n > 0 {
        LinesHaveNoLineFeed(s[n..]);
      } else {
        LinesHaveNoLineFeed(s[1..]);
      }
    }
  }

  /** Joining the lines with `\n` gives back the text, up to `\r\n` becoming `\n`. */
  lemma {:induction false} JoinSplitLines(s: string)
    ensures Join(Split(s, LineBreak), "\n") == CollapseCrlf(s)
    decreases |s|
  {
    if |s| > 0 {
      var n := MatchLength(s, LineBreak);
      if n > 0 {
        JoinSplitLines(s[n..]);
        var rest := Split(s[n..], LineBreak);
        assert Split(s, LineBreak) == [""] + rest;
        assert Join([""] + rest, "\n") == "" + "\n" + Join(rest, "\n");
      } else {
        JoinSplitLines(s[1..]);
        var rest := Split(s[1..], LineBreak);
        JoinConsHead(s[0], rest, "\n");
      }
    }
  }

  /** A character put in front of the first piece comes out in front of the join. */
  lemma JoinConsHead(c: char, pieces: seq<string>, sep: string)
    requires |pieces| > 0
    ensures Join(Prefixed([c], pieces), sep) == [c] + Join(pieces, sep)
  {
  }

  /** Putting two prefixes in front one after the other. */
  lemma PrefixedTwice(a: string, b: string, pieces: seq<string>)
    requires |pieces| >= 1
    ensures Prefixed(a, Prefixed(b, pieces)) == Prefixed(a + b, pieces)
  {
    assert a + (b + pieces[0]) == (a + b) + pieces[0];
  }

  /** Putting nothing in front changes nothing. */
  lemma PrefixedEmpty(pieces: seq<string>)
    requires |pieces| >= 1
    ensures Prefixed("", pieces) == pieces
  {
    assert "" + pieces[0] == pieces[0];
  }

  /** The quantified form of `NoMatchBefore`. */
  lemma {:induction false} NoMatchBeforeFromAll(s: string, sep: Separator, i: nat)
    requires i <= |s|
    requires forall j :: 0 <= j < i ==> MatchLength(s[j..], sep) == 0
    ensures NoMatchBefore(s, sep, i)
    decreases i
  {
    if i > 0 {
      assert s[0..] == s;
      forall j | 0 <= j < i - 1
        ensures MatchLength(s[1..][j..], sep) == 0
      {
        assert s[1..][j..] == s[j + 1..];
      }
      NoMatchBeforeFromAll(s[1..], sep, i - 1);
    }
  }

  /** Text in which the pattern does not match is copied into the first piece. */
  lemma {:induction false} SplitCopiesPlainPrefix(s: string, sep: Separator, i: nat)
    requires i <= |s| && NoMatchBefore(s, sep, i)
    ensures Split(s, sep) == Prefixed(s[..i], Split(s[i..], sep))
    decreases i
  {
    if i == 0 {
      assert s[0..] == s;
      PrefixedEmpty(Split(s, sep));
    } else {
      SplitCopiesPlainPrefix(s[1..], sep, i - 1);
      assert s[1..][i - 1..] == s[i..];
      PrefixedTwice([s[0]], s[1..][..i - 1], Split(s[i..], sep));
      assert [s[0]] + s[1..][..i - 1] == s[..i];
    }
  }

  /**
   * The reference definition: the text before the first match is the first
   * piece, and the rest is split after the match.
   */
  lemma SplitAtFirstMatch(s: string, sep: Separator, i: nat)
    requires i < |s| && MatchLength(s[i..], sep) > 0
    requires forall j :: 0 <= j < i ==> MatchLength(s[j..], sep) == 0
    ensures Split(s, sep) == [s[..i]] + Split(s[i + MatchLength(s[i..], sep)..], sep)
  {
    var n := MatchLength(s[i..], sep);
    NoMatchBeforeFromAll(s, sep, i);
    SplitCopiesPlainPrefix(s, sep, i);
    assert s[i..][n..] == s[i + n..];
    assert Split(s[i..], sep) == [""] + Split(s[i + n..], sep);
    assert s[..i] + "" == s[..i];
  }

  /** Where the pattern matches nowhere, the text is the one piece. */
  lemma SplitWithoutMatch(s: string, sep: Separator)
    requires forall j :: 0 <= j < |s| ==> MatchLength(s[j..], sep) == 0
    ensures Split(s, sep) == [s]
  {
    NoMatchBeforeFromAll(s, sep, |s|);
    SplitCopiesPlainPrefix(s, sep, |s|);
    assert s[..|s|] == s && s[|s|..] == "";
    assert s + "" == s;
  }

  /** A lone `\r` is not a line break: text without a line feed is one line. */
  lemma OneLineWithoutLineFeed(s: string)
    requires forall i :: 0 <= i < |s| ==> s[i] != '\n'
    ensures Split(s, LineBreak) == [s]
  {
    forall j | 0 <= j < |s|
      ensures MatchLength(s[j..], LineBreak) == 0
    {
      assert s[j..][0] == s[j];
      if j + 1 < |s| {
        assert s[j..][1] == s[j + 1];
      }
    }
    SplitWithoutMatch(s, LineBreak);
  }

  /**
   * A line is cut only at a period followed by spaces and an ASCII capital,
   * or at a period that ends it; a line with no such period is one sentence.
   */
  lemma OneSentenceWithoutBoundary(s: string)
    requires forall j :: 0 <= j < |s| && s[j] == '.' ==>
               j + 1 < |s| && (SpaceRun(s[j + 1..]) == 0 || j + 1 + SpaceRun(s[j + 1..]) == |s|
                               || !IsAsciiUpper(s[j + 1 + SpaceRun(s[j + 1..])]))
    ensures Split(s, SentenceEnd) == [s]
  {
    forall j | 0 <= j < |s|
      ensures MatchLength(s[j..], SentenceEnd) == 0
    {
      var t := s[j..];
      assert t[0] == s[j];
      if s[j] == '.' {
        assert t[1..] == s[j + 1..];
        var w := SpaceRun(t[1..]);
        if 0 < w && 1 + w < |t| {
          assert t[1 + w] == s[j + 1 + w];
        }
      }
    }
    SplitWithoutMatch(s, SentenceEnd);
  }

  /** A text without periods put in front of one without a sentence end adds none. */
  lemma NoSentenceEndPrefix(p: string, y: string)
    requires NoPeriod(p) && NoSentenceEnd(y)
    ensures NoSentenceEnd(p + y)
  {
    forall j | 0 <= j < |p + y|
      ensures MatchLength((p + y)[j..], SentenceEnd) == 0
    {
      if j < |p| {
        assert (p + y)[j..][0] == p[j];
      } else {
        assert (p + y)[j..] == y[j - |p|..];
      }
    }
  }

  /** What follows a text without a sentence end has none either. */
  lemma NoSentenceEndSuffix(s: string, k: nat)
    requires NoSentenceEnd(s) && k <= |s|
    ensures NoSentenceEnd(s[k..])
  {
    forall j | 0 <= j < |s| - k
      ensures MatchLength(s[k..][j..], SentenceEnd) == 0
    {
      assert s[k..][j..] == s[k + j..];
    }
  }

  /** The run of white space ends at the first other character. */
  lemma {:induction false} SpaceRunStopsAt(s: string, k: nat)
    requires k <= |s| && (k == |s| || !IsSpace(s[k]))
    requires forall i :: 0 <= i < k ==> IsSpace(s[i])
    ensures SpaceRun(s) == k
    decreases k
  {
    if k > 0 {
      SpaceRunStopsAt(s[1..], k - 1);
    }
  }

  /**
   * The converse of the sentence-end contract of `MatchLength`: a period, a
   * run of spaces and a capital match as the period and the spaces.
   */
  lemma SentenceEndMatchesRun(s: string, k: nat)
    requires 1 < k < |s| && s[0] == '.' && IsAsciiUpper(s[k])
    requires forall i :: 1 <= i < k ==> IsSpace(s[i])
    ensures MatchLength(s, SentenceEnd) == k
  {
    SpaceRunStopsAt(s[1..], k - 1);
  }

  /** The other alternative: a period that ends the text matches alone. */
  lemma SentenceEndMatchesFinalPeriod(s: string)
    requires |s| == 1 && s[0] == '.'
    ensures MatchLength(s, SentenceEnd) == 1
  {
  }

  /** A text ending in its only period splits into the text before it and an empty piece. */
  lemma SplitAtFinalPeriod(p: string)
    requires forall i :: 0 <= i < |p| ==> p[i] != '.'
    ensures Split(p + ".", SentenceEnd) == [p, ""]
  {
    var s := p + ".";
    forall j | 0 <= j < |p|
      ensures MatchLength(s[j..], SentenceEnd) == 0
    {
      assert s[j..][0] == p[j];
    }
    NoMatchBeforeFromAll(s, SentenceEnd, |p|);
    SplitCopiesPlainPrefix(s, SentenceEnd, |p|);
    assert s[..|p|] == p && s[|p|..] == ".";
    assert MatchLength(".", SentenceEnd) == 1;
    assert Split(".", SentenceEnd) == [""] + Split("", SentenceEnd);
    assert p + "" == p;
  }
}
