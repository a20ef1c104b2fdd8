/**
 * Three advice texts of the kind the backend produces, run through the
 * classifier of frontend/lib/utils/recommendations.ts. The facts about the
 * literal texts are stated in small lemmas of their own; the lemmas that put
 * them together reason about the texts only through those facts.
 */
module RecommendationExamples {
  import opened Text
  import opened DecimalMask
  import opened SentenceSplit
  import opened Recommendations

  /** No line feed in `s`. */
  predicate NoLineFeed(s: string) {
    forall i :: 0 <= i < |s| ==> s[i] != '\n'
  }

  /** `s` neither begins nor ends with white space. */
  predicate SpaceFreeEnds(s: string) {
    |s| > 0 && !IsSpace(s[0]) && !IsSpace(s[|s| - 1])
  }

  /** A keyword in lower case found at position `j` of `s` is found by the case-insensitive test. */
  lemma MentionedAt(s: string, j: nat, keywords: seq<string>, i: nat)
    requires i < |keywords| && j + |keywords[i]| <= |s| && s[j..j + |keywords[i]|] == keywords[i]
    requires forall n :: 0 <= n < |keywords[i]| ==> LowerChar(keywords[i][n]) == keywords[i][n]
    ensures MentionsAny(s, keywords)
  {
    var k := keywords[i];
    var a, b := s[..j], s[j + |k|..];
    assert s == a + k + b;
    LowerCaseKeepsInfix(a, k, b);
  }

  /**
   * A one-line text without digits and without the letter D, ending in its
   * only period, is the one sentence before that period.
   */
  lemma PlainSentence(text: string, p: string)
    requires text == p + "." && NoDigits(text) && NoLineFeed(text)
    requires NoPeriod(p) && NoLetterD(p) && SpaceFreeEnds(p) && |p| > 5
    ensures Sentences(text) == [p]
  {
    assert NoDecimalPoint(text);
    MaskWithoutDecimalPoint(text, Decimal(""));
    MaskWithoutDecimalPoint(text, Decimal("°C"));
    MaskWithoutDecimalPoint(text, Decimal("%"));
    MaskWithoutDecimalPoint(text, DecimalRange);
    RestoreKeepsPrefixWithoutD(p, "");
    assert p + "" == p;
    TrimmedIsFixed(p);
    OneSentenceText(text, p);
  }

  /** All characters of `s` are digits, and there is at least one. */
  predicate DigitsOnly(s: string) {
    |s| > 0 && forall i :: 0 <= i < |s| ==> IsDigit(s[i])
  }

  /** The masked form of a text with one decimal `x.y` between plain text `a` and `v`. */
  lemma MaskedDecimalLine(a: string, x: string, y: string, v: string)
    requires NoDigits(a) && NoPeriod(a) && DigitsOnly(x) && DigitsOnly(y) && NoDigits(v) && NoPeriod(v)
    ensures MaskAll(a + (x + ("." + (y + (v + "."))))) == a + (x + (Token + (y + v))) + "."
  {
    var text := a + (x + ("." + (y + (v + "."))));
    var z := x + ("." + (y + (v + ".")));
    var m := a + (x + (Token + (y + v)));
    assert text[..|a|] == a && text[|a|..] == z;
    MaskCopiesPlainPrefix(a, text, Decimal(""));
    assert NoDigits(v + ".");
    assert NoDecimalPoint(v + ".");
    MaskBareDecimal(x, y, v + ".");
    MaskWithoutDecimalPoint(v + ".", Decimal(""));
    assert Mask(text, Decimal("")) == a + (x + (Token + (y + (v + "."))));
    MaskedDecimalShape(a, x, y, v);
    MaskWithoutDecimalPoint(m + ".", Decimal("°C"));
    MaskWithoutDecimalPoint(m + ".", Decimal("%"));
    MaskWithoutDecimalPoint(m + ".", DecimalRange);
  }

  /** The masked text has its one period at the end, so no other rule matches in it. */
  lemma MaskedDecimalShape(a: string, x: string, y: string, v: string)
    requires DigitsOnly(x) && DigitsOnly(y)
    ensures a + (x + (Token + (y + (v + ".")))) == a + (x + (Token + (y + v))) + "."
    ensures NoPeriod(a) && NoPeriod(v) ==> NoPeriod(a + (x + (Token + (y + v))))
    ensures NoPeriod(a) && NoPeriod(v) ==> NoDecimalPoint(a + (x + (Token + (y + v))) + ".")
  {
  }

  /** Restoring turns the token after the digits `x` back into the period of `x.y`. */
  lemma RestoreDecimalThen(a: string, x: string, y: string, u: string)
    requires NoLetterD(a) && DigitsOnly(x) && DigitsOnly(y)
    ensures Restore(a + (x + (Token + (y + u)))) == a + (x + ("." + (y + Restore(u))))
  {
    DecimalLineParts(a, x, y, u);
    RestoreKeepsPrefixWithoutD(y, u);
    RestoreTokenHead(y + u);
    RestoreKeepsPrefixWithoutD(a + x, Token + (y + u));
  }

  /** The regroupings `RestoreDecimalThen` needs. */
  lemma DecimalLineParts(a: string, x: string, y: string, u: string)
    requires NoLetterD(a) && DigitsOnly(x) && DigitsOnly(y)
    ensures a + (x + (Token + (y + u))) == (a + x) + (Token + (y + u))
    ensures forall r :: (a + x) + ("." + r) == a + (x + ("." + r))
    ensures NoLetterD(a + x) && NoLetterD(y)
  {
  }

  /**
   * A one-line text with one decimal and no other period than its last
   * character is the one sentence before that period, decimal included.
   */
  lemma DecimalSentence(a: string, x: string, y: string, v: string)
    requires NoDigits(a) && NoPeriod(a) && NoLetterD(a)
    requires DigitsOnly(x) && DigitsOnly(y)
    requires NoDigits(v) && NoPeriod(v) && NoLetterD(v)
    requires NoLineFeed(a + (x + ("." + (y + (v + ".")))))
    requires SpaceFreeEnds(a + (x + ("." + (y + v)))) && |a + (x + ("." + (y + v)))| > 5
    ensures Sentences(a + (x + ("." + (y + (v + "."))))) == [a + (x + ("." + (y + v)))]
  {
    var text := a + (x + ("." + (y + (v + "."))));
    var m := a + (x + (Token + (y + v)));
    var p := a + (x + ("." + (y + v)));
    MaskedDecimalLine(a, x, y, v);
    MaskedDecimalShape(a, x, y, v);
    RestoreDecimalThen(a, x, y, v);
    RestoreKeepsPrefixWithoutD(v, "");
    assert v + "" == v;
    TrimmedIsFixed(p);
    assert text[0] == p[0] && text[|text| - 1] == '.';
    OneSentenceText(text, m);
  }

  /** The sentence that mentions a risk and praise alike. */
  const RiskAndPraise := "Es perfecto pero hay riesgo de quemaduras"

  lemma RiskAndPraiseShape()
    ensures NoPeriod(RiskAndPraise) && NoLetterD(RiskAndPraise)
    ensures SpaceFreeEnds(RiskAndPraise) && |RiskAndPraise| > 5
  {
  }

  lemma RiskAndPraiseText()
    ensures NoDigits(RiskAndPraise + ".") && NoLineFeed(RiskAndPraise + ".")
  {
  }

  lemma RiskAndPraiseAlert()
    ensures HasAlert(RiskAndPraise)
  {
    assert AlertKeywords[14] == "riesgo" == RiskAndPraise[21..27];
    MentionedAt(RiskAndPraise, 21, AlertKeywords, 14);
  }

  lemma RiskAndPraisePositive()
    ensures IsPositive(RiskAndPraise)
  {
    assert RiskAndPraise[..11] == "Es perfecto";
    assert RiskAndPraise[3..11] == "Es perfecto"[3..] == "perfecto";
    assert PositiveKeywords[4] == "perfecto";
    MentionedAt(RiskAndPraise, 3, PositiveKeywords, 4);
  }

  /** A sentence that mentions both a risk and praise goes to the alerts only. */
  lemma AlertTakesPriority()
    ensures IsPositive(RiskAndPraise)
    ensures AlertsOf(Sentences(RiskAndPraise + ".")) == [RiskAndPraise + "."]
    ensures RecommendationsOf(Sentences(RiskAndPraise + ".")) == []
  {
    RiskAndPraiseShape();
    RiskAndPraiseText();
    RiskAndPraiseAlert();
    RiskAndPraisePositive();
    PlainSentence(RiskAndPraise + ".", RiskAndPraise);
    OneAlert(RiskAndPraise);
  }

  /** A reading with a decimal, the form the backend writes temperatures in. */
  const HotReading := "La temperatura es 13.82°C y supera el máximo"

  lemma HotReadingParts()
    ensures NoDigits("La temperatura es ") && NoPeriod("La temperatura es ") && NoLetterD("La temperatura es ")
    ensures DigitsOnly("13") && DigitsOnly("82")
  {
  }

  lemma HotReadingRest()
    ensures NoDigits("°C y supera el máximo") && NoPeriod("°C y supera el máximo")
    ensures NoLetterD("°C y supera el máximo")
  {
  }

  lemma HotReadingText()
    ensures HotReading == "La temperatura es " + ("13" + ("." + ("82" + "°C y supera el máximo")))
  {
  }

  lemma HotReadingEnds()
    ensures NoLineFeed(HotReading + ".") && SpaceFreeEnds(HotReading) && |HotReading| > 5 && !EndsWithPeriod(HotReading)
  {
  }

  lemma HotReadingAlert()
    ensures HasAlert(HotReading)
  {
    assert AlertKeywords[1] == "supera" == HotReading[28..34];
    MentionedAt(HotReading, 28, AlertKeywords, 1);
  }

  /**
   * The period of a decimal is not a sentence end and comes back as it was:
   * the reading is one alert, exactly as written.
   */
  lemma DecimalStaysInSentence()
    ensures AlertsOf(Sentences(HotReading + ".")) == [HotReading + "."]
    ensures RecommendationsOf(Sentences(HotReading + ".")) == []
  {
    HotReadingParts();
    HotReadingRest();
    HotReadingText();
    HotReadingEnds();
    DecimalThenPeriod("La temperatura es ", "13", "82", "°C y supera el máximo");
    DecimalSentence("La temperatura es ", "13", "82", "°C y supera el máximo");
    HotReadingAlert();
    OneAlert(HotReading);
  }

  /** Every character of `s` is in `cs`. */
  predicate CharsIn(s: string, cs: set<char>) {
    forall i :: 0 <= i < |s| ==> s[i] in cs
  }

  /**
   * The lower-case form of `s` lacks the character at `j` of `k`, because no
   * character of `s`, nor its lower-case form, is that character.
   */
  lemma MissesKeyword(s: string, cs: set<char>, k: string, j: nat)
    requires CharsIn(s, cs) && j < |k|
    requires forall d :: d in cs ==> d != k[j] && d as int + 32 != k[j] as int
    ensures !Contains(LowerCase(s), k)
  {
    LowerCaseMissingChar(s, k, j);
  }

  /** A text ending in a sentence end before a capital, then a last sentence. */
  lemma TwoSentenceSplit(m: string, q: string)
    requires NoPeriod(m) && NoPeriod(q) && |q| > 0 && IsAsciiUpper(q[0])
    ensures Split(m + (". " + (q + ".")), SentenceEnd) == [m, q, ""]
  {
    var t := ". " + (q + ".");
    var s := m + t;
    NoSentenceEndBefore(m, t);
    SentenceEndBeforeCapital(q);
    assert s[|m|..] == t;
    SplitAtFirstMatch(s, SentenceEnd, |m|);
    assert s[..|m|] == m && s[|m| + 2..] == q + ".";
    SplitAtFinalPeriod(q);
  }

  /** No sentence end starts inside a text without periods, whatever follows it. */
  lemma NoSentenceEndBefore(m: string, t: string)
    requires NoPeriod(m)
    ensures forall j :: 0 <= j < |m| ==> MatchLength((m + t)[j..], SentenceEnd) == 0
  {
    forall j | 0 <= j < |m|
      ensures MatchLength((m + t)[j..], SentenceEnd) == 0
    {
      assert (m + t)[j..][0] == m[j];
    }
  }

  /** A period, one space and a capital letter: a sentence end two characters long. */
  lemma SentenceEndBeforeCapital(q: string)
    requires |q| > 0 && IsAsciiUpper(q[0])
    ensures MatchLength(". " + (q + "."), SentenceEnd) == 2
  {
    var t := ". " + (q + ".");
    assert t[1..][0] == ' ' && t[1..][1] == q[0];
    assert SpaceRun(t[1..][1..]) == 0;
    assert SpaceRun(t[1..]) == 1;
  }

  /** Two decimals joined by a dash, as the backend writes a range, are masked one by one. */
  lemma MaskTwoDecimals(a: string, x1: string, y1: string, x2: string, y2: string, w: string)
    requires NoDigits(a) && DigitsOnly(x1) && DigitsOnly(y1) && DigitsOnly(x2) && DigitsOnly(y2)
    requires NoDigits(w)
    ensures Mask(a + (x1 + ("." + (y1 + ([EnDash] + (x2 + ("." + (y2 + w))))))), Decimal(""))
              == a + (x1 + (Token + (y1 + ([EnDash] + (x2 + (Token + (y2 + w)))))))
  {
    var w1 := [EnDash] + (x2 + ("." + (y2 + w)));
    var text := a + (x1 + ("." + (y1 + w1)));
    assert text[..|a|] == a && text[|a|..] == x1 + ("." + (y1 + w1));
    MaskCopiesPlainPrefix(a, text, Decimal(""));
    MaskBareDecimal(x1, y1, w1);
    assert w1[..1] == [EnDash] && w1[1..] == x2 + ("." + (y2 + w));
    MaskCopiesPlainPrefix([EnDash], w1, Decimal(""));
    assert w == [] || !IsDigit(w[0]);
    MaskBareDecimal(x2, y2, w);
    assert NoDecimalPoint(w);
    MaskWithoutDecimalPoint(w, Decimal(""));
  }

  /** Regrouping a concatenation. */
  lemma AppendAssoc(u: string, v: string, w: string)
    ensures u + (v + w) == (u + v) + w
  {
  }

  /** Two texts without periods make one. */
  lemma NoPeriodAppend(u: string, v: string)
    requires NoPeriod(u) && NoPeriod(v)
    ensures NoPeriod(u + v)
  {
  }

  /** The text `a`, the range `x1.y1–x2.y2`, then the text `t`. */
  function RangeText(a: string, x1: string, y1: string, x2: string, y2: string, t: string): string {
    a + (x1 + ("." + (y1 + ([EnDash] + (x2 + ("." + (y2 + t)))))))
  }

  /** What follows the range can be split off. */
  lemma RangeTextAppend(a: string, x1: string, y1: string, x2: string, y2: string, g: string, r: string)
    ensures RangeText(a, x1, y1, x2, y2, g + r) == RangeText(a, x1, y1, x2, y2, g) + r
  {
    AppendAssoc(y2, g, r);
    AppendAssoc(".", y2 + g, r);
    AppendAssoc(x2, "." + (y2 + g), r);
    AppendAssoc([EnDash], x2 + ("." + (y2 + g)), r);
    AppendAssoc(y1, [EnDash] + (x2 + ("." + (y2 + g))), r);
    AppendAssoc(".", y1 + ([EnDash] + (x2 + ("." + (y2 + g)))), r);
    AppendAssoc(x1, "." + (y1 + ([EnDash] + (x2 + ("." + (y2 + g))))), r);
    AppendAssoc(a, x1 + ("." + (y1 + ([EnDash] + (x2 + ("." + (y2 + g)))))), r);
  }

  /** The text `a`, the decimal `x.y`, then `v`, followed by a period. */
  lemma DecimalThenPeriod(a: string, x: string, y: string, v: string)
    ensures a + (x + ("." + (y + v))) + "." == a + (x + ("." + (y + (v + "."))))
  {
    AppendAssoc(y, v, ".");
    AppendAssoc(".", y + v, ".");
    AppendAssoc(x, "." + (y + v), ".");
    AppendAssoc(a, x + ("." + (y + v)), ".");
  }

  /** The text around a range of two decimals, masked, up to the text `t` after it. */
  function MaskedAround(a: string, x1: string, y1: string, x2: string, y2: string, t: string): string {
    a + (x1 + (Token + (y1 + ([EnDash] + (x2 + (Token + (y2 + t)))))))
  }

  /** What follows the range can be split off. */
  lemma MaskedAroundAppend(a: string, x1: string, y1: string, x2: string, y2: string, g: string, r: string)
    ensures MaskedAround(a, x1, y1, x2, y2, g + r) == MaskedAround(a, x1, y1, x2, y2, g) + r
  {
    AppendAssoc(y2, g, r);
    AppendAssoc(Token, y2 + g, r);
    AppendAssoc(x2, Token + (y2 + g), r);
    AppendAssoc([EnDash], x2 + (Token + (y2 + g)), r);
    AppendAssoc(y1, [EnDash] + (x2 + (Token + (y2 + g))), r);
    AppendAssoc(Token, y1 + ([EnDash] + (x2 + (Token + (y2 + g)))), r);
    AppendAssoc(x1, Token + (y1 + ([EnDash] + (x2 + (Token + (y2 + g))))), r);
    AppendAssoc(a, x1 + (Token + (y1 + ([EnDash] + (x2 + (Token + (y2 + g)))))), r);
  }

  /** Masking leaves no period around the range. */
  lemma MaskedAroundPeriods(a: string, x1: string, y1: string, x2: string, y2: string, g: string)
    requires NoPeriod(a) && DigitsOnly(x1) && DigitsOnly(y1) && DigitsOnly(x2) && DigitsOnly(y2) && NoPeriod(g)
    ensures NoPeriod(MaskedAround(a, x1, y1, x2, y2, g))
  {
    assert NoPeriod(Token) && NoPeriod([EnDash]);
    NoPeriodAppend(y2, g);
    NoPeriodAppend(Token, y2 + g);
    NoPeriodAppend(x2, Token + (y2 + g));
    NoPeriodAppend([EnDash], x2 + (Token + (y2 + g)));
    NoPeriodAppend(y1, [EnDash] + (x2 + (Token + (y2 + g))));
    NoPeriodAppend(Token, y1 + ([EnDash] + (x2 + (Token + (y2 + g)))));
    NoPeriodAppend(x1, Token + (y1 + ([EnDash] + (x2 + (Token + (y2 + g))))));
    NoPeriodAppend(a, x1 + (Token + (y1 + ([EnDash] + (x2 + (Token + (y2 + g)))))));
  }

  /**
   * On a range `x1.y1–x2.y2` between texts without digits or periods, the
   * bare rule of line 10 has already masked both periods, so the °C, % and
   * range rules of lines 11-13 find nothing left to replace.
   */
  lemma LaterRulesKeepMaskedRange(a: string, x1: string, y1: string, x2: string, y2: string, g: string)
    requires NoDigits(a) && NoPeriod(a)
    requires DigitsOnly(x1) && DigitsOnly(y1) && DigitsOnly(x2) && DigitsOnly(y2)
    requires NoDigits(g) && NoPeriod(g)
    ensures Mask(RangeText(a, x1, y1, x2, y2, g), Decimal("")) == MaskedAround(a, x1, y1, x2, y2, g)
    ensures MaskAll(RangeText(a, x1, y1, x2, y2, g)) == MaskedAround(a, x1, y1, x2, y2, g)
  {
    var m := MaskedAround(a, x1, y1, x2, y2, g);
    MaskTwoDecimals(a, x1, y1, x2, y2, g);
    MaskedAroundPeriods(a, x1, y1, x2, y2, g);
    assert NoDecimalPoint(m);
    MaskWithoutDecimalPoint(m, Decimal("°C"));
    MaskWithoutDecimalPoint(m, Decimal("%"));
    MaskWithoutDecimalPoint(m, DecimalRange);
  }

  /** Were it applied first, the range rule of line 13 would mask a range just as the bare rule does. */
  lemma RangeRuleMasksLikeBareRule(a: string, x1: string, y1: string, x2: string, y2: string, g: string)
    requires NoDigits(a) && DigitsOnly(x1) && DigitsOnly(y1) && DigitsOnly(x2) && DigitsOnly(y2)
    requires NoDigits(g) && NoPeriod(g)
    ensures Mask(RangeText(a, x1, y1, x2, y2, g), DecimalRange) == MaskedAround(a, x1, y1, x2, y2, g)
  {
    var rest := x1 + ("." + (y1 + ([EnDash] + (x2 + ("." + (y2 + g))))));
    var text := a + rest;
    assert text[..|a|] == a && text[|a|..] == rest;
    MaskCopiesPlainPrefix(a, text, DecimalRange);
    assert g == [] || !IsDigit(g[0]);
    MaskRange(x1, y1, x2, y2, g);
    assert NoDecimalPoint(g);
    MaskWithoutDecimalPoint(g, DecimalRange);
  }

  /** A sentence end before a last sentence has no period followed by a digit. */
  lemma SentenceEndNoDecimalPoint(m: string, q: string)
    requires NoPeriod(m) && NoPeriod(q) && |q| > 0 && !IsDigit(q[0])
    ensures NoDecimalPoint(m + (". " + (q + ".")))
  {
  }

  /**
   * A line with a range `x1.y1–x2.y2`, then more text `g` and a second
   * sentence `q`, is masked and cut at the sentence end only.
   */
  lemma RangeLineSplit(a: string, x1: string, y1: string, x2: string, y2: string, g: string, q: string)
    requires NoDigits(a) && NoPeriod(a)
    requires DigitsOnly(x1) && DigitsOnly(y1) && DigitsOnly(x2) && DigitsOnly(y2)
    requires NoDigits(g) && NoPeriod(g)
    requires NoDigits(q) && NoPeriod(q) && |q| > 0 && IsAsciiUpper(q[0])
    ensures var w := g + (". " + (q + "."));
      Split(MaskAll(RangeText(a, x1, y1, x2, y2, w)), SentenceEnd)
        == [MaskedAround(a, x1, y1, x2, y2, g), q, ""]
  {
    var w := g + (". " + (q + "."));
    var m := MaskedAround(a, x1, y1, x2, y2, g);
    var bare := m + (". " + (q + "."));
    assert NoDigits(w);
    MaskTwoDecimals(a, x1, y1, x2, y2, w);
    MaskedAroundAppend(a, x1, y1, x2, y2, g, ". " + (q + "."));
    MaskedAroundPeriods(a, x1, y1, x2, y2, g);
    SentenceEndNoDecimalPoint(m, q);
    MaskWithoutDecimalPoint(bare, Decimal("°C"));
    MaskWithoutDecimalPoint(bare, Decimal("%"));
    MaskWithoutDecimalPoint(bare, DecimalRange);
    TwoSentenceSplit(m, q);
  }

  /** Restoring the masked first sentence gives back its decimals. */
  lemma RangeLineRestores(a: string, x1: string, y1: string, x2: string, y2: string, g: string)
    requires NoLetterD(a) && NoLetterD(g)
    requires DigitsOnly(x1) && DigitsOnly(y1) && DigitsOnly(x2) && DigitsOnly(y2)
    ensures Restore(MaskedAround(a, x1, y1, x2, y2, g)) == RangeText(a, x1, y1, x2, y2, g)
  {
    RestoreKeepsPrefixWithoutD(g, "");
    assert g + "" == g;
    assert NoLetterD([EnDash]);
    RestoreDecimalThen([EnDash], x2, y2, g);
    RestoreDecimalThen(a, x1, y1, [EnDash] + (x2 + (Token + (y2 + g))));
  }

  /** Advice with an ideal range, then praise: two sentences. */
  const RangeAdvice := "El rango ideal es 10.0–29.0 grados. Todo está bien."
  const RangeSentence := "El rango ideal es 10.0–29.0 grados"
  const AllWell := "Todo está bien"

  lemma RangeAdviceParts()
    ensures NoDigits("El rango ideal es ") && NoPeriod("El rango ideal es ") && NoLetterD("El rango ideal es ")
    ensures DigitsOnly("10") && DigitsOnly("0") && DigitsOnly("29")
    ensures NoDigits(" grados") && NoPeriod(" grados") && NoLetterD(" grados")
  {
  }

  lemma AllWellShape()
    ensures NoDigits(AllWell) && NoPeriod(AllWell) && NoLetterD(AllWell) && IsAsciiUpper(AllWell[0])
    ensures SpaceFreeEnds(AllWell) && |AllWell| > 5 && !EndsWithPeriod(AllWell)
  {
  }

  lemma RangeAdviceText()
    ensures RangeAdvice == RangeSentence + (". " + (AllWell + "."))
    ensures NoLineFeed(RangeAdvice) && SpaceFreeEnds(RangeAdvice)
  {
    RangeAdviceJoins();
    RangeSentenceChars();
    AllWellChars();
    CharsWithoutLineFeed(RangeSentence, {'E', 'l', ' ', 'r', 'a', 'n', 'g', 'o', 'i', 'd', 'e', 's', '0', '1', '2', '9', '.', '–'});
    CharsWithoutLineFeed(AllWell, {'T', 'o', 'd', ' ', 'e', 's', 't', 'á', 'b', 'i', 'n'});
    NoLineFeedAround(RangeSentence, AllWell);
  }

  lemma RangeAdviceJoins()
    ensures RangeAdvice == RangeSentence + (". " + (AllWell + "."))
  {
  }

  /** A text drawn from characters other than the line feed has none. */
  lemma CharsWithoutLineFeed(s: string, cs: set<char>)
    requires CharsIn(s, cs) && '\n' !in cs
    ensures NoLineFeed(s)
  {
  }

  /** Two texts without line feeds, joined as two sentences, have none. */
  lemma NoLineFeedAround(p: string, q: string)
    requires NoLineFeed(p) && NoLineFeed(q)
    ensures NoLineFeed(p + (". " + (q + ".")))
  {
    var t := p + (". " + (q + "."));
    forall i | 0 <= i < |t|
      ensures t[i] != '\n'
    {
      if i < |p| {
        assert t[i] == p[i];
      } else if |p| + 2 <= i < |p| + 2 + |q| {
        assert t[i] == q[i - |p| - 2];
      }
    }
  }

  lemma RangeSentenceShape()
    ensures RangeSentence == RangeText("El rango ideal es ", "10", "0", "29", "0", " grados")
    ensures RangeSentence == "El rango ideal es " + "10.0–29.0" + " grados"
    ensures SpaceFreeEnds(RangeSentence) && |RangeSentence| > 5 && !EndsWithPeriod(RangeSentence)
  {
  }

  /** The range does not cut the text: the sentence end does, once. */
  lemma RangeAdviceSentences()
    ensures Sentences(RangeAdvice) == [RangeSentence, AllWell]
  {
    RangeAdviceParts();
    AllWellShape();
    RangeAdviceText();
    RangeSentenceShape();
    RangeTextAppend("El rango ideal es ", "10", "0", "29", "0", " grados", ". " + (AllWell + "."));
    var m := MaskedAround("El rango ideal es ", "10", "0", "29", "0", " grados");
    RangeLineSplit("El rango ideal es ", "10", "0", "29", "0", " grados", AllWell);
    RangeLineRestores("El rango ideal es ", "10", "0", "29", "0", " grados");
    SingleLineSentences(RangeAdvice);
    assert Split(MaskAll(RangeAdvice), SentenceEnd) == [m, AllWell, ""];
    RangeLineRetained(m);
  }

  /** The masked range sentence, the last sentence and the empty piece after the final period: two are kept. */
  lemma RangeLineRetained(m: string)
    requires Restore(m) == RangeSentence
    ensures Retained([m, AllWell, ""]) == [RangeSentence, AllWell]
  {
    RangeSentenceShape();
    AllWellShape();
    TrimmedIsFixed(RangeSentence);
    TrimmedIsFixed(AllWell);
    RestoreKeepsPrefixWithoutD(AllWell, "");
    assert AllWell + "" == AllWell;
    assert Restore("") == "" && Trim("") == "";
    assert Retained([""]) == [];
    assert [AllWell, ""][1..] == [""];
    assert Retained([AllWell, ""]) == [AllWell];
    assert [m, AllWell, ""][1..] == [AllWell, ""];
  }

  /** The characters of the range sentence. */
  lemma RangeSentenceChars()
    ensures CharsIn(RangeSentence, {'E', 'l', ' ', 'r', 'a', 'n', 'g', 'o', 'i', 'd', 'e', 's', '0', '1', '2', '9', '.', '–'})
  {
  }

  /** No `r` directly before an `i` in the range sentence, in any case. */
  lemma RangeSentenceNoRi()
    ensures forall i :: 0 <= i < |RangeSentence| - 1 ==>
              LowerChar(RangeSentence[i]) != 'r' || LowerChar(RangeSentence[i + 1]) != 'i'
  {
  }

  lemma RangeSentenceMisses0()
    ensures forall i :: 0 <= i < 3 ==> !Contains(LowerCase(RangeSentence), AlertKeywords[i])
  {
    var cs := {'E', 'l', ' ', 'r', 'a', 'n', 'g', 'o', 'i', 'd', 'e', 's', '0', '1', '2', '9', '.', '–'};
    RangeSentenceChars();
    MissesKeyword(RangeSentence, cs, AlertKeywords[0], 1);
    MissesKeyword(RangeSentence, cs, AlertKeywords[1], 1);
    MissesKeyword(RangeSentence, cs, AlertKeywords[2], 0);
  }

  lemma RangeSentenceMisses1()
    ensures forall i :: 3 <= i < 6 ==> !Contains(LowerCase(RangeSentence), AlertKeywords[i])
  {
    var cs := {'E', 'l', ' ', 'r', 'a', 'n', 'g', 'o', 'i', 'd', 'e', 's', '0', '1', '2', '9', '.', '–'};
    RangeSentenceChars();
    MissesKeyword(RangeSentence, cs, AlertKeywords[3], 0);
    MissesKeyword(RangeSentence, cs, AlertKeywords[4], 0);
    MissesKeyword(RangeSentence, cs, AlertKeywords[5], 0);
  }

  lemma RangeSentenceMisses2()
    ensures forall i :: 6 <= i < 9 ==> !Contains(LowerCase(RangeSentence), AlertKeywords[i])
  {
    var cs := {'E', 'l', ' ', 'r', 'a', 'n', 'g', 'o', 'i', 'd', 'e', 's', '0', '1', '2', '9', '.', '–'};
    RangeSentenceChars();
    MissesKeyword(RangeSentence, cs, AlertKeywords[6], 5);
    MissesKeyword(RangeSentence, cs, AlertKeywords[7], 0);
    MissesKeyword(RangeSentence, cs, AlertKeywords[8], 3);
  }

  lemma RangeSentenceMisses3()
    ensures forall i :: 9 <= i < 12 ==> !Contains(LowerCase(RangeSentence), AlertKeywords[i])
  {
    var cs := {'E', 'l', ' ', 'r', 'a', 'n', 'g', 'o', 'i', 'd', 'e', 's', '0', '1', '2', '9', '.', '–'};
    RangeSentenceChars();
    MissesKeyword(RangeSentence, cs, AlertKeywords[9], 2);
    MissesKeyword(RangeSentence, cs, AlertKeywords[10], 1);
    MissesKeyword(RangeSentence, cs, AlertKeywords[11], 1);
  }

  lemma RangeSentenceMisses4()
    ensures forall i :: 12 <= i < 15 ==> !Contains(LowerCase(RangeSentence), AlertKeywords[i])
  {
    var cs := {'E', 'l', ' ', 'r', 'a', 'n', 'g', 'o', 'i', 'd', 'e', 's', '0', '1', '2', '9', '.', '–'};
    RangeSentenceChars();
    MissesKeyword(RangeSentence, cs, AlertKeywords[12], 5);
    MissesKeyword(RangeSentence, cs, AlertKeywords[13], 4);
    RangeSentenceNoRi();
    LowerCaseMissingPair(RangeSentence, "riesgo", 0);
    assert AlertKeywords[14] == "riesgo";
  }

  lemma RangeSentenceMisses5()
    ensures forall i :: 15 <= i < 18 ==> !Contains(LowerCase(RangeSentence), AlertKeywords[i])
  {
    var cs := {'E', 'l', ' ', 'r', 'a', 'n', 'g', 'o', 'i', 'd', 'e', 's', '0', '1', '2', '9', '.', '–'};
    RangeSentenceChars();
    MissesKeyword(RangeSentence, cs, AlertKeywords[15], 0);
    MissesKeyword(RangeSentence, cs, AlertKeywords[16], 0);
    MissesKeyword(RangeSentence, cs, AlertKeywords[17], 1);
  }

  lemma RangeSentenceMisses6()
    ensures forall i :: 18 <= i < 21 ==> !Contains(LowerCase(RangeSentence), AlertKeywords[i])
  {
    var cs := {'E', 'l', ' ', 'r', 'a', 'n', 'g', 'o', 'i', 'd', 'e', 's', '0', '1', '2', '9', '.', '–'};
    RangeSentenceChars();
    MissesKeyword(RangeSentence, cs, AlertKeywords[18], 1);
    MissesKeyword(RangeSentence, cs, AlertKeywords[19], 0);
    MissesKeyword(RangeSentence, cs, AlertKeywords[20], 2);
  }

  lemma RangeSentenceMisses7()
    ensures forall i :: 21 <= i < 24 ==> !Contains(LowerCase(RangeSentence), AlertKeywords[i])
  {
    var cs := {'E', 'l', ' ', 'r', 'a', 'n', 'g', 'o', 'i', 'd', 'e', 's', '0', '1', '2', '9', '.', '–'};
    RangeSentenceChars();
    MissesKeyword(RangeSentence, cs, AlertKeywords[21], 3);
    MissesKeyword(RangeSentence, cs, AlertKeywords[22], 0);
    MissesKeyword(RangeSentence, cs, AlertKeywords[23], 2);
  }

  lemma RangeSentenceMisses8()
    ensures forall i :: 24 <= i < 25 ==> !Contains(LowerCase(RangeSentence), AlertKeywords[i])
  {
    var cs := {'E', 'l', ' ', 'r', 'a', 'n', 'g', 'o', 'i', 'd', 'e', 's', '0', '1', '2', '9', '.', '–'};
    RangeSentenceChars();
    MissesKeyword(RangeSentence, cs, AlertKeywords[24], 0);
  }

  /** Each alert keyword has a character, or a pair, that the range sentence lacks. */
  lemma RangeSentenceNoAlert()
    ensures !HasAlert(RangeSentence)
  {
    RangeSentenceMisses0();
    RangeSentenceMisses1();
    RangeSentenceMisses2();
    RangeSentenceMisses3();
    RangeSentenceMisses4();
    RangeSentenceMisses5();
    RangeSentenceMisses6();
    RangeSentenceMisses7();
    RangeSentenceMisses8();
  }

  /** The characters of the praise. */
  lemma AllWellChars()
    ensures CharsIn(AllWell, {'T', 'o', 'd', ' ', 'e', 's', 't', 'á', 'b', 'i', 'n'})
  {
  }

  /** No `n` directly before an `o` in the praise, in any case. */
  lemma AllWellNoNo()
    ensures forall i :: 0 <= i < |AllWell| - 1 ==> LowerChar(AllWell[i]) != 'n' || LowerChar(AllWell[i + 1]) != 'o'
  {
  }

  lemma AllWellMisses0()
    ensures forall i :: 0 <= i < 3 ==> !Contains(LowerCase(AllWell), AlertKeywords[i])
  {
    var cs := {'T', 'o', 'd', ' ', 'e', 's', 't', 'á', 'b', 'i', 'n'};
    AllWellChars();
    MissesKeyword(AllWell, cs, AlertKeywords[0], 1);
    MissesKeyword(AllWell, cs, AlertKeywords[1], 1);
    MissesKeyword(AllWell, cs, AlertKeywords[2], 0);
  }

  lemma AllWellMisses1()
    ensures forall i :: 3 <= i < 6 ==> !Contains(LowerCase(AllWell), AlertKeywords[i])
  {
    var cs := {'T', 'o', 'd', ' ', 'e', 's', 't', 'á', 'b', 'i', 'n'};
    AllWellChars();
    MissesKeyword(AllWell, cs, AlertKeywords[3], 0);
    MissesKeyword(AllWell, cs, AlertKeywords[4], 0);
    MissesKeyword(AllWell, cs, AlertKeywords[5], 0);
  }

  lemma AllWellMisses2()
    ensures forall i :: 6 <= i < 9 ==> !Contains(LowerCase(AllWell), AlertKeywords[i])
  {
    var cs := {'T', 'o', 'd', ' ', 'e', 's', 't', 'á', 'b', 'i', 'n'};
    AllWellChars();
    MissesKeyword(AllWell, cs, AlertKeywords[6], 12);
    MissesKeyword(AllWell, cs, AlertKeywords[7], 0);
    MissesKeyword(AllWell, cs, AlertKeywords[8], 3);
  }

  lemma AllWellMisses3()
    ensures forall i :: 9 <= i < 12 ==> !Contains(LowerCase(AllWell), AlertKeywords[i])
  {
    var cs := {'T', 'o', 'd', ' ', 'e', 's', 't', 'á', 'b', 'i', 'n'};
    AllWellChars();
    MissesKeyword(AllWell, cs, AlertKeywords[9], 2);
    MissesKeyword(AllWell, cs, AlertKeywords[10], 1);
    MissesKeyword(AllWell, cs, AlertKeywords[11], 1);
  }

  lemma AllWellMisses4()
    ensures forall i :: 12 <= i < 15 ==> !Contains(LowerCase(AllWell), AlertKeywords[i])
  {
    var cs := {'T', 'o', 'd', ' ', 'e', 's', 't', 'á', 'b', 'i', 'n'};
    AllWellChars();
    AllWellNoNo();
    LowerCaseMissingPair(AllWell, "no debes", 0);
    assert AlertKeywords[12] == "no debes";
    MissesKeyword(AllWell, cs, AlertKeywords[13], 4);
    MissesKeyword(AllWell, cs, AlertKeywords[14], 0);
  }

  lemma AllWellMisses5()
    ensures forall i :: 15 <= i < 18 ==> !Contains(LowerCase(AllWell), AlertKeywords[i])
  {
    var cs := {'T', 'o', 'd', ' ', 'e', 's', 't', 'á', 'b', 'i', 'n'};
    AllWellChars();
    MissesKeyword(AllWell, cs, AlertKeywords[15], 0);
    MissesKeyword(AllWell, cs, AlertKeywords[16], 0);
    MissesKeyword(AllWell, cs, AlertKeywords[17], 4);
  }

  lemma AllWellMisses6()
    ensures forall i :: 18 <= i < 21 ==> !Contains(LowerCase(AllWell), AlertKeywords[i])
  {
    var cs := {'T', 'o', 'd', ' ', 'e', 's', 't', 'á', 'b', 'i', 'n'};
    AllWellChars();
    MissesKeyword(AllWell, cs, AlertKeywords[18], 1);
    MissesKeyword(AllWell, cs, AlertKeywords[19], 0);
    MissesKeyword(AllWell, cs, AlertKeywords[20], 2);
  }

  lemma AllWellMisses7()
    ensures forall i :: 21 <= i < 24 ==> !Contains(LowerCase(AllWell), AlertKeywords[i])
  {
    var cs := {'T', 'o', 'd', ' ', 'e', 's', 't', 'á', 'b', 'i', 'n'};
    AllWellChars();
    MissesKeyword(AllWell, cs, AlertKeywords[21], 5);
    MissesKeyword(AllWell, cs, AlertKeywords[22], 0);
    MissesKeyword(AllWell, cs, AlertKeywords[23], 2);
  }

  lemma AllWellMisses8()
    ensures forall i :: 24 <= i < 25 ==> !Contains(LowerCase(AllWell), AlertKeywords[i])
  {
    var cs := {'T', 'o', 'd', ' ', 'e', 's', 't', 'á', 'b', 'i', 'n'};
    AllWellChars();
    MissesKeyword(AllWell, cs, AlertKeywords[24], 0);
  }

  /** Each alert keyword has a character, or a pair, that the praise lacks. */
  lemma AllWellNoAlert()
    ensures !HasAlert(AllWell)
  {
    AllWellMisses0();
    AllWellMisses1();
    AllWellMisses2();
    AllWellMisses3();
    AllWellMisses4();
    AllWellMisses5();
    AllWellMisses6();
    AllWellMisses7();
    AllWellMisses8();
  }

  /**
   * The range and the praise are two recommendations: the first keeps the
   * range as written, the second is the praise with its period.
   */
  lemma RangeAdviceIsTwoRecommendations()
    ensures AlertsOf(Sentences(RangeAdvice)) == []
    ensures RecommendationsOf(Sentences(RangeAdvice)) == [RangeSentence + ".", "Todo está bien."]
    ensures Contains(RecommendationsOf(Sentences(RangeAdvice))[0], "10.0–29.0")
  {
    RangeAdviceSentences();
    RangeSentenceShape();
    AllWellShape();
    RangeSentenceNoAlert();
    AllWellNoAlert();
    TwoRecommendations(RangeSentence, AllWell);
    AllWellFinished();
    RangeSentenceKeepsRange();
  }

  /** Two sentences without alert keywords are two recommendations, in their order. */
  lemma TwoRecommendations(x: string, y: string)
    requires !HasAlert(x) && !HasAlert(y) && !EndsWithPeriod(x) && !EndsWithPeriod(y)
    ensures AlertsOf([x, y]) == [] && RecommendationsOf([x, y]) == [x + ".", y + "."]
  {
    ListsOfOneMore([], x);
    ListsOfOneMore([x], y);
    assert [] + [x] == [x] && [x] + [y] == [x, y];
  }

  /** One sentence with an alert keyword is one alert. */
  lemma OneAlert(x: string)
    requires HasAlert(x) && !EndsWithPeriod(x)
    ensures AlertsOf([x]) == [x + "."] && RecommendationsOf([x]) == []
  {
    ListsOfOneMore([], x);
    assert [] + [x] == [x];
  }

  lemma AllWellFinished()
    ensures AllWell + "." == "Todo está bien."
  {
  }

  /** The first sentence, finished, holds the range as written. */
  lemma RangeSentenceKeepsRange()
    ensures Contains(RangeSentence + ".", "10.0–29.0")
  {
    RangeSentenceShape();
    ContainsInfix("El rango ideal es ", "10.0–29.0", " grados" + ".");
    AppendAssoc("El rango ideal es " + "10.0–29.0", " grados", ".");
  }
}
