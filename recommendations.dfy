/**
 * `processRecommendations` (frontend/lib/utils/recommendations.ts): the
 * advice text is cut into lines and each line into sentences; every
 * sentence that mentions an alert keyword goes to `alerts`, every other one
 * to `recommendations`, with a final period added where it lacks one.
 */
module Recommendations {
  import opened Text
  import opened DecimalMask
  import opened SentenceSplit

  /** The alert keywords of lines 39-65, in their order. */
  const AlertKeywords: seq<string> := [
    "excede", "supera", "por encima", "muy alta", "muy baja",
    "fuera del rango", "no está dentro", "por debajo", "insuficiente",
    "demasiado", "evita", "evitar", "no debes", "no exponer", "riesgo",
    "peligro", "cuidado", "atención", "importante", "precaución",
    "advertencia", "no tolera", "puede dañar", "daño", "quemaduras"
  ]

  /** The positive keywords of lines 68-78, in their order. */
  const PositiveKeywords: seq<string> := [
    "dentro del rango ideal", "está dentro del rango", "rango ideal",
    "está bien", "perfecto", "adecuado", "correcto", "óptimo", "apropiado"
  ]

  /** `keywords.some((keyword) => lower.includes(keyword))` with `lower` the lower-case sentence. */
  predicate MentionsAny(sentence: string, keywords: seq<string>) {
    exists k :: k in keywords && Contains(LowerCase(sentence), k)
  }

  /**
   * `hasAlert` of line 83. The test ignores case: a sentence and its lower
   * case form get the same answer.
   */
  function HasAlert(sentence: string): (b: bool)
    ensures b <==> MentionsAny(LowerCase(sentence), AlertKeywords)
  {
    LowerCaseIdempotent(sentence);
    MentionsAny(sentence, AlertKeywords)
  }

  /** `isPositive` of line 86, which ignores case in the same way. */
  function IsPositive(sentence: string): (b: bool)
    ensures b <==> MentionsAny(LowerCase(sentence), PositiveKeywords)
  {
    LowerCaseIdempotent(sentence);
    MentionsAny(sentence, PositiveKeywords)
  }

  /** Line 89: the sentence with a period appended unless it already ends with one. */
  function Finish(sentence: string): (r: string)
    ensures |r| == if EndsWithPeriod(sentence) then |sentence| else |sentence| + 1
    ensures EndsWithPeriod(r) && r[..|sentence|] == sentence
  {
    sentence + (if EndsWithPeriod(sentence) then "" else ".")
  }

  /** Lines 19-21: each piece restored and trimmed, then only those longer than 5 kept. */
  function Retained(pieces: seq<string>): (r: seq<string>)
    ensures forall k :: 0 <= k < |r| ==> |r[k]| > 5 && Trim(r[k]) == r[k]
    ensures |r| <= |pieces|
  {
    if |pieces| == 0 then
      []
    else
      var x := Trim(Restore(pieces[0]));
      var rest := Retained(pieces[1..]);
      TrimIdempotent(Restore(pieces[0]));
      if |x| > 5 then [x] + rest else rest
  }

  /** A sentence is kept exactly when it is the restored, trimmed form of a piece and is longer than 5. */
  lemma {:induction false} RetainedMembership(pieces: seq<string>, x: string)
    ensures x in Retained(pieces) <==>
              exists i :: 0 <= i < |pieces| && x == Trim(Restore(pieces[i])) && |x| > 5
  {
    if |pieces| > 0 {
      var t := pieces[1..];
      RetainedMembership(t, x);
      if exists i :: 0 <= i < |t| && x == Trim(Restore(t[i])) && |x| > 5 {
        var i :| 0 <= i < |t| && x == Trim(Restore(t[i])) && |x| > 5;
        assert pieces[i + 1] == t[i];
      }
      if exists i :: 0 <= i < |pieces| && x == Trim(Restore(pieces[i])) && |x| > 5 {
        var i :| 0 <= i < |pieces| && x == Trim(Restore(pieces[i])) && |x| > 5;
        if i > 0 {
          assert t[i - 1] == pieces[i];
        }
      }
    }
  }

  /** The pieces keep their order: the kept pieces of a text are those of its parts, in turn. */
  lemma {:induction false} RetainedAppend(a: seq<string>, b: seq<string>)
    ensures Retained(a + b) == Retained(a) + Retained(b)
  {
    if |a| == 0 {
      assert a + b == b;
    } else {
      assert (a + b)[0] == a[0];
      assert (a + b)[1..] == a[1..] + b;
      RetainedAppend(a[1..], b);
    }
  }

  /** `splitIntoSentences` (lines 7-22). */
  function SplitIntoSentences(line: string): (r: seq<string>)
    ensures forall k :: 0 <= k < |r| ==> |r[k]| > 5 && Trim(r[k]) == r[k]
  {
    Retained(Split(MaskAll(line), SentenceEnd))
  }

  /** Line 25: the lines that are not blank, in their order. */
  function NonBlank(lines: seq<string>): (r: seq<string>)
    ensures forall k :: 0 <= k < |r| ==> Trim(r[k]) != []
    ensures |r| <= |lines|
  {
    if |lines| == 0 then
      []
    else
      var rest := NonBlank(lines[1..]);
      if Trim(lines[0]) != [] then [lines[0]] + rest else rest
  }

  /** A line is kept exactly when it is one of the lines and is not blank. */
  lemma {:induction false} NonBlankMembership(lines: seq<string>, x: string)
    ensures x in NonBlank(lines) <==> x in lines && Trim(x) != []
  {
    if |lines| > 0 {
      NonBlankMembership(lines[1..], x);
      assert lines == [lines[0]] + lines[1..];
    }
  }

  /** The filter keeps the order of the lines: it works on each part of a text on its own. */
  lemma {:induction false} NonBlankAppend(a: seq<string>, b: seq<string>)
    ensures NonBlank(a + b) == NonBlank(a) + NonBlank(b)
  {
    if |a| == 0 {
      assert a + b == b;
    } else {
      assert (a + b)[0] == a[0];
      assert (a + b)[1..] == a[1..] + b;
      NonBlankAppend(a[1..], b);
    }
  }

  /** The sentences of the lines, line by line and in order within each line. */
  function SentencesOfLines(lines: seq<string>): (r: seq<string>)
    ensures forall k :: 0 <= k < |r| ==> |r[k]| > 5 && Trim(r[k]) == r[k]
  {
    if |lines| == 0 then []
    else SentencesOfLines(lines[..|lines| - 1]) + SplitIntoSentences(Trim(lines[|lines| - 1]))
  }

  /** The retained sentences of the advice text. */
  function Sentences(text: string): (r: seq<string>)
    ensures forall k :: 0 <= k < |r| ==> |r[k]| > 5 && Trim(r[k]) == r[k]
  {
    SentencesOfLines(NonBlank(Split(text, LineBreak)))
  }

  /** The finished forms of the sentences that `keep` accepts, in order. */
  function Picked(sentences: seq<string>, keep: string -> bool): (r: seq<string>)
    ensures |r| <= |sentences|
    ensures forall k :: 0 <= k < |r| ==> EndsWithPeriod(r[k])
  {
    if |sentences| == 0 then []
    else
      var last := sentences[|sentences| - 1];
      Picked(sentences[..|sentences| - 1], keep) + (if keep(last) then [Finish(last)] else [])
  }

  /** The finished sentences that mention an alert keyword, in order. */
  function AlertsOf(sentences: seq<string>): (r: seq<string>)
    ensures |r| <= |sentences|
    ensures forall k :: 0 <= k < |r| ==> EndsWithPeriod(r[k])
  {
    Picked(sentences, HasAlert)
  }

  /** The finished sentences that mention no alert keyword, in order. */
  function RecommendationsOf(sentences: seq<string>): (r: seq<string>)
    ensures |r| <= |sentences|
    ensures forall k :: 0 <= k < |r| ==> EndsWithPeriod(r[k])
  {
    Picked(sentences, s => !HasAlert(s))
  }

  /** What `Picked` holds: the finished forms of exactly the accepted sentences. */
  lemma {:induction false} PickedMembership(ss: seq<string>, keep: string -> bool, x: string)
    ensures x in Picked(ss, keep) <==> exists i :: 0 <= i < |ss| && keep(ss[i]) && x == Finish(ss[i])
  {
    if |ss| > 0 {
      var t := ss[..|ss| - 1];
      PickedMembership(t, keep, x);
      if exists i :: 0 <= i < |t| && keep(t[i]) && x == Finish(t[i]) {
        var i :| 0 <= i < |t| && keep(t[i]) && x == Finish(t[i]);
        assert ss[i] == t[i];
      }
      if exists i :: 0 <= i < |ss| && keep(ss[i]) && x == Finish(ss[i]) {
        var i :| 0 <= i < |ss| && keep(ss[i]) && x == Finish(ss[i]);
        if i < |t| {
          assert t[i] == ss[i];
        }
      }
    }
  }

  /** The lists for a prefix of the sentences are prefixes of the lists for all of them. */
  lemma {:induction false} PickedPrefix(ss: seq<string>, keep: string -> bool, i: nat)
    requires i <= |ss|
    ensures |Picked(ss[..i], keep)| <= |Picked(ss, keep)|
    ensures Picked(ss, keep)[..|Picked(ss[..i], keep)|] == Picked(ss[..i], keep)
    decreases |ss| - i
  {
    if i == |ss| {
      assert ss[..i] == ss;
    } else {
      var t := ss[..|ss| - 1];
      assert t[..i] == ss[..i];
      PickedPrefix(t, keep, i);
    }
  }

  /** One more sentence is finished into exactly one of the two lists, after the others. */
  lemma ListsOfOneMore(ss: seq<string>, x: string)
    ensures AlertsOf(ss + [x]) == AlertsOf(ss) + (if HasAlert(x) then [Finish(x)] else [])
    ensures RecommendationsOf(ss + [x]) == RecommendationsOf(ss) + (if HasAlert(x) then [] else [Finish(x)])
  {
    assert (ss + [x])[..|ss|] == ss;
  }

  /** Every sentence lands in exactly one of the two lists. */
  lemma {:induction false} PartitionSizes(ss: seq<string>)
    ensures |AlertsOf(ss)| + |RecommendationsOf(ss)| == |ss|
  {
    if |ss| > 0 {
      PartitionSizes(ss[..|ss| - 1]);
    }
  }

  /** The lists for a prefix of the sentences are prefixes of the lists for all of them. */
  lemma PrefixLists(ss: seq<string>, i: nat)
    requires i <= |ss|
    ensures |AlertsOf(ss[..i])| <= |AlertsOf(ss)| && AlertsOf(ss)[..|AlertsOf(ss[..i])|] == AlertsOf(ss[..i])
    ensures |RecommendationsOf(ss[..i])| <= |RecommendationsOf(ss)|
    ensures RecommendationsOf(ss)[..|RecommendationsOf(ss[..i])|] == RecommendationsOf(ss[..i])
  {
    PickedPrefix(ss, HasAlert, i);
    PickedPrefix(ss, s => !HasAlert(s), i);
  }

  /**
   * Order is kept: sentence `i` is finished into the alert list when it
   * mentions an alert keyword, otherwise into the recommendation list, at
   * the place right after everything the sentences before it put there.
   */
  lemma SentencePlace(ss: seq<string>, i: nat)
    requires i < |ss|
    ensures HasAlert(ss[i]) ==>
              && |AlertsOf(ss[..i])| < |AlertsOf(ss)|
              && AlertsOf(ss)[|AlertsOf(ss[..i])|] == Finish(ss[i])
    ensures !HasAlert(ss[i]) ==>
              && |RecommendationsOf(ss[..i])| < |RecommendationsOf(ss)|
              && RecommendationsOf(ss)[|RecommendationsOf(ss[..i])|] == Finish(ss[i])
  {
    if HasAlert(ss[i]) {
      PickedPlace(ss, HasAlert, i);
    } else {
      PickedPlace(ss, s => !HasAlert(s), i);
    }
  }

  /** An accepted sentence is finished right after what the sentences before it put in. */
  lemma PickedPlace(ss: seq<string>, keep: string -> bool, i: nat)
    requires i < |ss| && keep(ss[i])
    ensures |Picked(ss[..i], keep)| < |Picked(ss, keep)|
    ensures Picked(ss, keep)[|Picked(ss[..i], keep)|] == Finish(ss[i])
  {
    var u := ss[..i + 1];
    assert u[..i] == ss[..i] && u[i] == ss[i];
    assert Picked(u, keep) == Picked(ss[..i], keep) + [Finish(ss[i])];
    PickedPrefix(ss, keep, i + 1);
  }

  /** An alert is a finished sentence that mentions an alert keyword, and every such sentence is one. */
  lemma AlertMembership(ss: seq<string>, x: string)
    ensures x in AlertsOf(ss) <==> exists i :: 0 <= i < |ss| && HasAlert(ss[i]) && x == Finish(ss[i])
  {
    PickedMembership(ss, HasAlert, x);
  }



  /** A recommendation is a finished sentence that mentions no alert keyword, and every such sentence is one. */
  lemma RecommendationMembership(ss: seq<string>, x: string)
    ensures x in RecommendationsOf(ss) <==> exists i :: 0 <= i < |ss| && !HasAlert(ss[i]) && x == Finish(ss[i])
  {
    PickedMembership(ss, s => !HasAlert(s), x);
  }



  /** Every advice sentence ends with a period and has at least 6 characters. */
  lemma OutputShape(text: string, x: string)
    requires x in AlertsOf(Sentences(text)) || x in RecommendationsOf(Sentences(text))
    ensures EndsWithPeriod(x) && |x| >= 6
  {
    var ss := Sentences(text);
    AlertMembership(ss, x);
    RecommendationMembership(ss, x);
    var i :| 0 <= i < |ss| && x == Finish(ss[i]);
  }

  /** Every line of a text made only of spaces is made only of spaces. */
  lemma {:induction false} BlankLines(s: string)
    requires forall i :: 0 <= i < |s| ==> IsSpace(s[i])
    ensures forall k, i :: 0 <= k < |Split(s, LineBreak)| && 0 <= i < |Split(s, LineBreak)[k]| ==>
              IsSpace(Split(s, LineBreak)[k][i])
    decreases |s|
  {
    if |s| > 0 {
      var n := MatchLength(s, LineBreak);
      if n > 0 {
        BlankLines(s[n..]);
      } else {
        BlankLines(s[1..]);
      }
    }
  }

  /** No line survives the blank-line filter when every line is blank. */
  lemma {:induction false} NonBlankOfBlank(lines: seq<string>)
    requires forall k, i :: 0 <= k < |lines| && 0 <= i < |lines[k]| ==> IsSpace(lines[k][i])
    ensures NonBlank(lines) == []
  {
    if |lines| > 0 {
      TrimEmptyIffBlank(lines[0]);
      NonBlankOfBlank(lines[1..]);
    }
  }

  /** Empty or blank advice text gives no alerts and no recommendations. */
  lemma BlankTextHasNoAdvice(text: string)
    requires forall i :: 0 <= i < |text| ==> IsSpace(text[i])
    ensures Sentences(text) == []
    ensures AlertsOf(Sentences(text)) == [] && RecommendationsOf(Sentences(text)) == []
  {
    BlankLines(text);
    NonBlankOfBlank(Split(text, LineBreak));
  }

  /** A text without line feeds that neither begins nor ends with white space is one line. */
  lemma SingleLineSentences(text: string)
    requires forall i :: 0 <= i < |text| ==> text[i] != '\n'
    requires |text| > 0 && !IsSpace(text[0]) && !IsSpace(text[|text| - 1])
    ensures Sentences(text) == SplitIntoSentences(text)
  {
    OneLineWithoutLineFeed(text);
    TrimmedIsFixed(text);
    assert [text][1..] == [];
    assert NonBlank([text]) == [text] + NonBlank([]);
    assert [text][..0] == [];
    assert SentencesOfLines([text]) == SentencesOfLines([]) + SplitIntoSentences(Trim(text));
  }

  /**
   * A one-line text whose masked form has a single period, at its end, is
   * one sentence: the masked text before the period, restored.
   */
  lemma OneSentenceText(text: string, m: string)
    requires forall i :: 0 <= i < |text| ==> text[i] != '\n'
    requires |text| > 0 && !IsSpace(text[0]) && !IsSpace(text[|text| - 1])
    requires MaskAll(text) == m + "." && forall i :: 0 <= i < |m| ==> m[i] != '.'
    requires Trim(Restore(m)) == Restore(m) && |Restore(m)| > 5
    ensures Sentences(text) == [Restore(m)]
  {
    SingleLineSentences(text);
    SplitAtFinalPeriod(m);
    assert Restore("") == "" && Trim("") == "";
    assert Retained([""]) == [];
    assert [m, ""][1..] == [""];
    assert Retained([m, ""]) == [Restore(m)] + Retained([""]);
  }

  /** Masking one decimal brings in no period, so no sentence end either. */
  lemma MaskOneKeepsNoSentenceEnd(s: string, z: string)
    requires DecimalAtStart(s) && NoSentenceEnd(z)
    ensures NoSentenceEnd(MaskOne(s, z))
  {
    var q, r := DigitRun(s), DecimalEnd(s);
    DecimalDigitsHaveNoPeriod(s);
    assert NoPeriod(Token);
    NoSentenceEndPrefix(s[q + 1..r], z);
    NoSentenceEndPrefix(Token, s[q + 1..r] + z);
    NoSentenceEndPrefix(s[..q], Token + (s[q + 1..r] + z));
  }

  /** The two runs of digits of a decimal hold no period. */
  lemma DecimalDigitsHaveNoPeriod(s: string)
    requires DecimalAtStart(s)
    ensures NoPeriod(s[..DigitRun(s)]) && NoPeriod(s[DigitRun(s) + 1..DecimalEnd(s)])
  {
    DecimalIsMaximal(s);
  }

  /**
   * A character the scan copies keeps the text free of sentence ends: a
   * period copied stays before the same white space and the same next
   * character, which the scan never changes.
   */
  lemma HeadKeepsNoSentenceEnd(s: string, rule: Rule)
    requires |s| > 0 && NoSentenceEnd(s) && NoSentenceEnd(Mask(s[1..], rule))
    ensures NoSentenceEnd([s[0]] + Mask(s[1..], rule))
  {
    var u := s[1..];
    var m := Mask(u, rule);
    var t := [s[0]] + m;
    forall j | 1 <= j < |t|
      ensures MatchLength(t[j..], SentenceEnd) == 0
    {
      assert t[j..] == m[j - 1..];
    }
    assert s[0..] == s && t[0..] == t;
    if s[0] == '.' {
      CopiedPeriodStaysPlain(s, rule);
    }
  }

  /** The period case of `HeadKeepsNoSentenceEnd`. */
  lemma CopiedPeriodStaysPlain(s: string, rule: Rule)
    requires |s| > 0 && s[0] == '.' && MatchLength(s, SentenceEnd) == 0
    ensures MatchLength([s[0]] + Mask(s[1..], rule), SentenceEnd) == 0
  {
    var u := s[1..];
    var m := Mask(u, rule);
    var t := [s[0]] + m;
    assert |u| > 0;
    MaskKeepsHead(u, rule);
    assert t[1..] == m;
    var w := SpaceRun(u);
    if w == 0 {
      SpaceRunStopsAt(m, 0);
    } else {
      MaskKeepsSpaceRun(u, rule);
    }
  }

  /** Masking keeps the run of spaces at the start of `u` and the character that ends it. */
  lemma MaskKeepsSpaceRun(u: string, rule: Rule)
    requires 0 < SpaceRun(u)
    ensures SpaceRun(Mask(u, rule)) == SpaceRun(u)
    ensures SpaceRun(u) < |u| <==> SpaceRun(u) < |Mask(u, rule)|
    ensures SpaceRun(u) < |u| ==> Mask(u, rule)[SpaceRun(u)] == u[SpaceRun(u)]
  {
    var w := SpaceRun(u);
    var p, r := u[..w], u[w..];
    assert NoDigits(p) && StartsWith(u, p);
    MaskCopiesPlainPrefix(p, u, rule);
    var mr := Mask(r, rule);
    if |r| > 0 {
      MaskKeepsHead(r, rule);
    }
    SpacesThen(p, mr);
  }

  /** Spaces, then a text that does not start with one: the run is the spaces. */
  lemma SpacesThen(p: string, r: string)
    requires forall i :: 0 <= i < |p| ==> IsSpace(p[i])
    requires |r| == 0 || !IsSpace(r[0])
    ensures SpaceRun(p + r) == |p|
  {
    SpaceRunStopsAt(p + r, |p|);
  }

  /** The scan of one rule never makes a sentence end where the text had none. */
  lemma {:induction false} MaskKeepsNoSentenceEnd(s: string, rule: Rule)
    requires NoSentenceEnd(s) && (rule.Decimal? ==> NoPeriod(rule.suffix))
    ensures NoSentenceEnd(Mask(s, rule))
    decreases |s|
  {
    if |s| == 0 {
    } else if MatchesAtStart(s, rule) {
      var e := MatchEnd(s, rule);
      NoSentenceEndSuffix(s, e);
      MaskKeepsNoSentenceEnd(s[e..], rule);
      var m := Mask(s[e..], rule);
      MaskAtMatch(s, rule);
      match rule
      case Decimal(suffix) =>
        NoSentenceEndPrefix(suffix, m);
        MaskOneKeepsNoSentenceEnd(s, suffix + m);
      case DecimalRange =>
        var t := s[DecimalEnd(s) + 1..];
        assert s[e..] == t[DecimalEnd(t)..];
        MaskOneKeepsNoSentenceEnd(t, m);
        assert NoPeriod([EnDash]);
        NoSentenceEndPrefix([EnDash], MaskOne(t, m));
        MaskOneKeepsNoSentenceEnd(s, [EnDash] + MaskOne(t, m));
    } else {
      NoSentenceEndSuffix(s, 1);
      MaskKeepsNoSentenceEnd(s[1..], rule);
      HeadKeepsNoSentenceEnd(s, rule);
    }
  }

  /**
   * A line in which no period is followed by white space and an ASCII
   * capital, and which does not end in a period, yields at most one sentence.
   */
  lemma AtMostOneSentence(line: string)
    requires NoSentenceEnd(line)
    ensures |SplitIntoSentences(line)| <= 1
  {
    assert NoPeriod("") && NoPeriod("°C") && NoPeriod("%");
    var bare := Mask(line, Decimal(""));
    MaskKeepsNoSentenceEnd(line, Decimal(""));
    var celsius := Mask(bare, Decimal("°C"));
    MaskKeepsNoSentenceEnd(bare, Decimal("°C"));
    var percent := Mask(celsius, Decimal("%"));
    MaskKeepsNoSentenceEnd(celsius, Decimal("%"));
    MaskKeepsNoSentenceEnd(percent, DecimalRange);
    SplitWithoutMatch(MaskAll(line), SentenceEnd);
  }

  /** The sentences of one more line come after those of the lines before it. */
  lemma SentencesOfNextLine(lines: seq<string>, i: nat)
    requires i < |lines|
    ensures SentencesOfLines(lines[..i + 1]) == SentencesOfLines(lines[..i]) + SplitIntoSentences(Trim(lines[i]))
  {
    assert lines[..i + 1][..i] == lines[..i];
  }

  /** One more sentence adds to exactly one of the two lists. */
  lemma OneMoreSentence(before: seq<string>, sentences: seq<string>, j: nat)
    requires j < |sentences|
    ensures AlertsOf(before + sentences[..j + 1]) ==
              AlertsOf(before + sentences[..j]) + (if HasAlert(sentences[j]) then [Finish(sentences[j])] else [])
    ensures RecommendationsOf(before + sentences[..j + 1]) ==
              RecommendationsOf(before + sentences[..j]) + (if HasAlert(sentences[j]) then [] else [Finish(sentences[j])])
  {
    assert before + sentences[..j + 1] == (before + sentences[..j]) + [sentences[j]];
    ListsOfOneMore(before + sentences[..j], sentences[j]);
  }


  /**
   * `processRecommendations`: the nested `forEach` loops of lines 27-104
   * push each finished sentence into one of the two lists.
   */
  method ProcessRecommendations(text: string) returns (alerts: seq<string>, recommendations: seq<string>)
    ensures alerts == AlertsOf(Sentences(text))
    ensures recommendations == RecommendationsOf(Sentences(text))
  {
    alerts := [];
    recommendations := [];
    var lines := NonBlank(Split(text, LineBreak));
    for i := 0 to |lines|
      invariant alerts == AlertsOf(SentencesOfLines(lines[..i]))
      invariant recommendations == RecommendationsOf(SentencesOfLines(lines[..i]))
    {
      var cleanLine := Trim(lines[i]);
      SentencesOfNextLine(lines, i);
      if |cleanLine| == 0 {
        continue;
      }
      var sentences := SplitIntoSentences(cleanLine);
      alerts, recommendations := FileSentences(SentencesOfLines(lines[..i]), sentences, alerts, recommendations);
    }
    assert lines[..|lines|] == lines;
  }

  /**
   * Lines 34-102, the loop over the sentences of one line: given the
   * buckets of the sentences `before` it, each sentence is finished and
   * pushed onto the bucket its keywords choose.
   */
  method FileSentences(before: seq<string>, sentences: seq<string>, alerts0: seq<string>, recommendations0: seq<string>)
    returns (alerts: seq<string>, recommendations: seq<string>)
    requires forall k :: 0 <= k < |sentences| ==> |sentences[k]| > 5 && Trim(sentences[k]) == sentences[k]
    requires alerts0 == AlertsOf(before) && recommendations0 == RecommendationsOf(before)
    ensures alerts == AlertsOf(before + sentences)
    ensures recommendations == RecommendationsOf(before + sentences)
  {
    alerts, recommendations := alerts0, recommendations0;
    assert before + sentences[..0] == before;
    for j := 0 to |sentences|
      invariant alerts == AlertsOf(before + sentences[..j])
      invariant recommendations == RecommendationsOf(before + sentences[..j])
    {
      var cleanSentence := Trim(sentences[j]);
      OneMoreSentence(before, sentences, j);
      if |cleanSentence| == 0 {
        continue;
      }
      var finalSentence := Finish(cleanSentence);
      if HasAlert(cleanSentence) {
        alerts := alerts + [finalSentence];
      } else if IsPositive(cleanSentence) {
        recommendations := recommendations + [finalSentence];
      } else {
        recommendations := recommendations + [finalSentence];
      }
    }
    assert sentences[..|sentences|] == sentences;
  }

}
