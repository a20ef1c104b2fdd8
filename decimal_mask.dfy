/**
 * Protection of decimal points before sentence splitting
 * (`splitIntoSentences`, frontend/lib/utils/recommendations.ts):
 * four global regular-expression replacements that write the token
 * `DECIMAL` in place of a decimal point, and the replacement that turns
 * every `DECIMAL` back into a period.
 *
 * A global `replace` scans left to right: where the pattern matches at the
 * current position the match is replaced and scanning resumes after it;
 * elsewhere the character is kept and scanning moves on by one. `Mask`
 * below is that scan, for each of the four patterns (`Rule`).
 */
module DecimalMask {
  import opened Text

  /** The protection token. */
  const Token: string := "DECIMAL"

  /** The four patterns, in the order they are applied. */
  datatype Rule =
    | Decimal(suffix: string)   // `(\d+)\.(\d+)` followed by the literal `suffix`
    | DecimalRange              // `(\d+)\.(\d+)–(\d+)\.(\d+)`

  /** The en dash that joins the two ends of a range. */
  const EnDash: char := '\U{2013}'

  /** Length of the maximal run of digits at the start of `s`. */
  function DigitRun(s: string): (n: nat)
    ensures n <= |s|
  {
    if |s| > 0 && IsDigit(s[0]) then 1 + DigitRun(s[1..]) else 0
  }

  /** The run is all digits, and it is maximal. */
  lemma {:induction false} DigitRunIsMaximal(s: string)
    ensures forall i :: 0 <= i < DigitRun(s) ==> IsDigit(s[i])
    ensures DigitRun(s) == |s| || !IsDigit(s[DigitRun(s)])
    decreases |s|
  {
    if |s| > 0 && IsDigit(s[0]) {
      DigitRunIsMaximal(s[1..]);
    }
  }

  /**
   * `(\d+)\.(\d+)` matches at the start of `s`: a run of digits, a period,
   * and a digit. Both `\d+` are greedy and the period is not a digit, so
   * the match takes the whole first run and the whole run after the period.
   */
  predicate DecimalAtStart(s: string) {
    var q := DigitRun(s);
    0 < q && q + 1 < |s| && s[q] == '.' && IsDigit(s[q + 1])
  }

  /** Where that match ends: after the run of digits that follows the period. */
  function DecimalEnd(s: string): (r: nat)
    requires DecimalAtStart(s)
    ensures DigitRun(s) + 1 < r <= |s|
  {
    var q := DigitRun(s);
    DigitRunIsMaximal(s[q + 1..]);
    q + 1 + DigitRun(s[q + 1..])
  }

  /** A decimal is a run of digits, the period, and a maximal run of digits. */
  lemma DecimalIsMaximal(s: string)
    requires DecimalAtStart(s)
    ensures forall i :: 0 <= i < DigitRun(s) ==> IsDigit(s[i])
    ensures forall i :: DigitRun(s) < i < DecimalEnd(s) ==> IsDigit(s[i])
    ensures DecimalEnd(s) == |s| || !IsDigit(s[DecimalEnd(s)])
  {
    var q := DigitRun(s);
    var t := s[q + 1..];
    var r := DecimalEnd(s);
    assert r == q + 1 + DigitRun(t);
    DigitRunIsMaximal(s);
    DigitRunIsMaximal(t);
    forall i | q < i < r
      ensures IsDigit(s[i])
    {
      assert s[i] == t[i - q - 1];
      assert IsDigit(t[i - q - 1]);
    }
    if r < |s| {
      assert s[r] == t[DigitRun(t)];
    }
  }

  /** The decimal at the start of `s` with its period replaced by the token, then `z`. */
  function MaskOne(s: string, z: string): string
    requires DecimalAtStart(s)
  {
    var q := DigitRun(s);
    s[..q] + (Token + (s[q + 1..DecimalEnd(s)] + z))
  }

  /** `rule` matches at the start of `s`. */
  predicate MatchesAtStart(s: string, rule: Rule) {
    && DecimalAtStart(s)
    && var r := DecimalEnd(s);
       match rule
       case Decimal(suffix) =>
         r + |suffix| <= |s| && s[r..r + |suffix|] == suffix
       case DecimalRange =>
         r < |s| && s[r] == EnDash && DecimalAtStart(s[r + 1..])
  }

  /** Length of the match of `rule` at the start of `s`. */
  function MatchEnd(s: string, rule: Rule): (e: nat)
    requires MatchesAtStart(s, rule)
    ensures 0 < e <= |s|
  {
    var r := DecimalEnd(s);
    match rule
    case Decimal(suffix) => r + |suffix|
    case DecimalRange => r + 1 + DecimalEnd(s[r + 1..])
  }

  /** What the match of `rule` at the start of `s` is replaced with, then `z`. */
  function Replace(s: string, rule: Rule, z: string): string
    requires MatchesAtStart(s, rule)
  {
    match rule
    case Decimal(suffix) => MaskOne(s, suffix + z)
    case DecimalRange => MaskOne(s, [EnDash] + MaskOne(s[DecimalEnd(s) + 1..], z))
  }

  /**
   * `s.replace(pattern, ...)` with the `g` flag, for the pattern of `rule`.
   * A replacement only writes the token in place of a period, so the text
   * never gets shorter and keeps its first character, the first digit of
   * any match.
   */
  function Mask(s: string, rule: Rule): (r: string)
    ensures |r| >= |s|
    ensures |s| > 0 ==> |r| > 0 && r[0] == s[0]
    decreases |s|
  {
    if |s| == 0 then
      []
    else if MatchesAtStart(s, rule) then
      Replace(s, rule, Mask(s[MatchEnd(s, rule)..], rule))
    else
      [s[0]] + Mask(s[1..], rule)
  }

  /**
   * The four replacements of lines 10-13, in their order. Whatever they
   * mask, the restoring replacement of line 20 undoes.
   */
  function MaskAll(line: string): (r: string)
    ensures Restore(r) == Restore(line)
  {
    var bare := Mask(line, Decimal(""));
    var celsius := Mask(bare, Decimal("°C"));
    var percent := Mask(celsius, Decimal("%"));
    RestoreUndoesMask(line, Decimal(""));
    RestoreUndoesMask(bare, Decimal("°C"));
    RestoreUndoesMask(celsius, Decimal("%"));
    RestoreUndoesMask(percent, DecimalRange);
    Mask(percent, DecimalRange)
  }

  /** `s.replace(/DECIMAL/g, ".")`; a text without the letter D is left as it is. */
  function Restore(s: string): (r: string)
    ensures |r| <= |s|
    ensures NoLetterD(s) ==> r == s
    decreases |s|
  {
    if |s| == 0 then
      []
    else if TokenAt(s) then
      "." + Restore(s[|Token|..])
    else
      [s[0]] + Restore(s[1..])
  }

  /** `s` begins with the token, compared character by character. */
  predicate TokenAt(s: string) {
    && |s| >= |Token|
    && s[0] == 'D' && s[1] == 'E' && s[2] == 'C' && s[3] == 'I'
    && s[4] == 'M' && s[5] == 'A' && s[6] == 'L'
  }

  /** The character test is the prefix test. */
  lemma TokenAtIsStartsWith(s: string)
    ensures TokenAt(s) <==> StartsWith(s, Token)
  {
    if StartsWith(s, Token) {
      assert forall i :: 0 <= i < |Token| ==> s[i] == s[..|Token|][i];
    }
  }

  /** `s` begins with `p`. */
  predicate StartsWith(s: string, p: string) {
    |p| <= |s| && s[..|p|] == p
  }

  /** No character of `s` is a digit. */
  predicate NoDigits(s: string) {
    forall i :: 0 <= i < |s| ==> !IsDigit(s[i])
  }

  /** No character of `s` is the letter D, with which the token begins. */
  predicate NoLetterD(s: string) {
    forall i :: 0 <= i < |s| ==> s[i] != 'D'
  }

  /** No period in `s` is followed by a digit, so no decimal can match in it. */
  predicate NoDecimalPoint(s: string) {
    forall i :: 0 <= i < |s| - 1 ==> s[i] == '.' ==> !IsDigit(s[i + 1])
  }

  /** The rules whose fixed text has no D, so that it survives restoring. */
  predicate SuffixWithoutD(rule: Rule) {
    rule.Decimal? ==> NoLetterD(rule.suffix)
  }

  /**
   * One way for `(\d+)\.(\d+)` followed by `suffix` to match at the start of
   * `s`: digits up to `q`, the period at `q`, digits up to `r`, then `suffix`.
   */
  ghost predicate DecimalShape(s: string, suffix: string, q: int, r: int) {
    && 0 < q && q + 1 < r && r + |suffix| <= |s|
    && (forall i :: 0 <= i < q ==> IsDigit(s[i]))
    && s[q] == '.'
    && (forall i :: q < i < r ==> IsDigit(s[i]))
    && s[r..r + |suffix|] == suffix
  }

  /**
   * The scan's test agrees with the pattern: the rule matches at the start
   * exactly when some split of the text has the pattern's shape, and the
   * match it takes is the greedy one, with the longest second run of digits.
   */
  lemma DecimalMatchIsGreedy(s: string, suffix: string)
    requires |suffix| == 0 || !IsDigit(suffix[0])
    ensures MatchesAtStart(s, Decimal(suffix)) <==> exists q, r :: DecimalShape(s, suffix, q, r)
    ensures MatchesAtStart(s, Decimal(suffix)) ==>
              && DecimalShape(s, suffix, DigitRun(s), DecimalEnd(s))
              && forall q, r :: DecimalShape(s, suffix, q, r) ==> q == DigitRun(s) && r <= DecimalEnd(s)
  {
    if MatchesAtStart(s, Decimal(suffix)) {
      DecimalIsMaximal(s);
      assert DecimalShape(s, suffix, DigitRun(s), DecimalEnd(s));
    }
    forall q, r | DecimalShape(s, suffix, q, r)
      ensures MatchesAtStart(s, Decimal(suffix)) && q == DigitRun(s) && r <= DecimalEnd(s)
    {
      ShapeIsGreedyMatch(s, suffix, q, r);
    }
  }

  /** Any split with the pattern's shape is the scan's match, or a shorter one. */
  lemma ShapeIsGreedyMatch(s: string, suffix: string, q: int, r: int)
    requires |suffix| == 0 || !IsDigit(suffix[0])
    requires DecimalShape(s, suffix, q, r)
    ensures MatchesAtStart(s, Decimal(suffix)) && q == DigitRun(s) && r <= DecimalEnd(s)
  {
    DigitRunStopsAt(s, q);
    assert DecimalAtStart(s);
    var t := s[q + 1..];
    DigitRunAtLeast(t, r - q - 1);
    if |suffix| > 0 {
      assert !IsDigit(t[r - q - 1]);
      DigitRunStopsAt(t, r - q - 1);
    }
  }

  /** The run of digits ends at the first character that is not a digit. */
  lemma {:induction false} DigitRunStopsAt(s: string, k: nat)
    requires k < |s| && !IsDigit(s[k])
    requires forall i :: 0 <= i < k ==> IsDigit(s[i])
    ensures DigitRun(s) == k
    decreases k
  {
    if k > 0 {
      DigitRunStopsAt(s[1..], k - 1);
    }
  }

  /** A run of `k` digits at the start makes the digit run at least `k` long. */
  lemma {:induction false} DigitRunAtLeast(s: string, k: nat)
    requires k <= |s|
    requires forall i :: 0 <= i < k ==> IsDigit(s[i])
    ensures DigitRun(s) >= k
    decreases k
  {
    if k > 0 {
      DigitRunAtLeast(s[1..], k - 1);
    }
  }

  /** Where the text starts with a non-digit, the scan copies that character and moves on. */
  lemma MaskSkipsNonDigit(z: string, rule: Rule)
    requires |z| > 0 && !IsDigit(z[0])
    ensures Mask(z, rule) == [z[0]] + Mask(z[1..], rule)
  {
    assert DigitRun(z) == 0;
  }

  /** The scan never changes the first character. */
  lemma MaskKeepsHead(z: string, rule: Rule)
    requires |z| > 0
    ensures |Mask(z, rule)| > 0 && Mask(z, rule)[0] == z[0]
  {
    if MatchesAtStart(z, rule) {
      var m := Mask(z[MatchEnd(z, rule)..], rule);
      if rule.Decimal? {
        assert MaskOne(z, rule.suffix + m)[0] == z[0];
      } else {
        assert MaskOne(z, [EnDash] + MaskOne(z[DecimalEnd(z) + 1..], m))[0] == z[0];
      }
    }
  }

  /**
   * A prefix without digits is never part of a match: the scan copies it,
   * and the output starts with it exactly when the input does.
   */
  lemma {:induction false} MaskKeepsPlainPrefix(p: string, z: string, rule: Rule)
    requires NoDigits(p)
    ensures StartsWith(Mask(z, rule), p) <==> StartsWith(z, p)
    decreases |p|
  {
    if |p| > 0 && |z| > 0 {
      MaskKeepsHead(z, rule);
      if !IsDigit(z[0]) {
        MaskSkipsNonDigit(z, rule);
        MaskKeepsPlainPrefix(p[1..], z[1..], rule);
        StartsWithCons(z, p);
        StartsWithCons(Mask(z, rule), p);
      }
    }
  }

  /** Where the text starts with a prefix without digits, the scan copies that prefix. */
  lemma {:induction false} MaskCopiesPlainPrefix(p: string, z: string, rule: Rule)
    requires NoDigits(p) && StartsWith(z, p)
    ensures Mask(z, rule) == p + Mask(z[|p|..], rule)
    decreases |p|
  {
    if |p| > 0 {
      assert z[0] == z[..|p|][0] == p[0];
      MaskSkipsNonDigit(z, rule);
      assert z[1..][..|p| - 1] == z[..|p|][1..];
      MaskCopiesPlainPrefix(p[1..], z[1..], rule);
      assert z[1..][|p| - 1..] == z[|p|..];
      ConsAppend(p, Mask(z[|p|..], rule));
    }
  }

  /** Putting the first element back in front of the rest. */
  lemma ConsAppend(p: string, w: string)
    requires |p| > 0
    ensures [p[0]] + (p[1..] + w) == p + w
  {
  }

  /** `s` starts with `p` when their first characters agree and the rests do. */
  lemma StartsWithCons(s: string, p: string)
    requires |s| > 0 && |p| > 0
    ensures StartsWith(s, p) <==> s[0] == p[0] && StartsWith(s[1..], p[1..])
  {
    if s[0] == p[0] && StartsWith(s[1..], p[1..]) {
      assert s[..|p|] == [s[0]] + s[1..][..|p| - 1];
    }
  }

  /** Where `z` is a decimal `x.y` then a non-digit or nothing, the match ends after `y`. */
  lemma BareDecimalEnd(z: string, x: nat, y: nat)
    requires x + 1 + y <= |z| && x > 0 && y > 0 && z[x] == '.'
    requires forall i :: 0 <= i < x ==> IsDigit(z[i])
    requires forall i :: x < i < x + 1 + y ==> IsDigit(z[i])
    requires x + 1 + y == |z| || !IsDigit(z[x + 1 + y])
    ensures MatchesAtStart(z, Decimal("")) && DigitRun(z) == x && DecimalEnd(z) == x + 1 + y
  {
    DigitRunStopsAt(z, x);
    var t := z[x + 1..];
    if x + 1 + y == |z| {
      DigitRunAtLeast(t, y);
    } else {
      DigitRunStopsAt(t, y);
    }
    assert z[x + 1 + y..x + 1 + y] == "";
  }

  /**
   * A decimal `x.y` followed by a non-digit (or by nothing) is masked by the
   * bare rule, and the scan goes on right after its last digit.
   */
  lemma MaskBareDecimal(x: string, y: string, w: string)
    requires |x| > 0 && (forall i :: 0 <= i < |x| ==> IsDigit(x[i]))
    requires |y| > 0 && (forall i :: 0 <= i < |y| ==> IsDigit(y[i]))
    requires |w| == 0 || !IsDigit(w[0])
    ensures Mask(x + ("." + (y + w)), Decimal("")) == x + (Token + (y + Mask(w, Decimal(""))))
  {
    var z := x + ("." + (y + w));
    BareDecimalParts(x, y, w);
    MaskAtDecimal(z, x, y, w);
  }

  /** The bare rule matches at the start of `x.y` then `w`, exactly over `x.y`. */
  lemma BareDecimalParts(x: string, y: string, w: string)
    requires |x| > 0 && (forall i :: 0 <= i < |x| ==> IsDigit(x[i]))
    requires |y| > 0 && (forall i :: 0 <= i < |y| ==> IsDigit(y[i]))
    requires |w| == 0 || !IsDigit(w[0])
    ensures var z := x + ("." + (y + w)); var e := |x| + 1 + |y|;
      && MatchesAtStart(z, Decimal("")) && DigitRun(z) == |x| && DecimalEnd(z) == e
      && z[..|x|] == x && z[|x| + 1..e] == y && z[e..] == w
  {
    var z := x + ("." + (y + w));
    DecimalParts(x, y, w);
    BareDecimalEnd(z, |x|, |y|);
  }

  /** Where the bare rule matches a decimal `a.b` at the start of `z`, followed by `w`, the scan masks it and goes on with `w`. */
  lemma MaskAtDecimal(z: string, a: string, b: string, w: string)
    requires MatchesAtStart(z, Decimal("")) && DigitRun(z) == |a| && DecimalEnd(z) == |a| + 1 + |b|
    requires z[..|a|] == a && z[|a| + 1..|a| + 1 + |b|] == b && z[|a| + 1 + |b|..] == w
    ensures Mask(z, Decimal("")) == a + (Token + (b + Mask(w, Decimal(""))))
  {
    var m := Mask(w, Decimal(""));
    assert MatchEnd(z, Decimal("")) == |a| + 1 + |b|;
    MaskAtMatch(z, Decimal(""));
    assert Mask(z, Decimal("")) == Replace(z, Decimal(""), m);
    assert Replace(z, Decimal(""), m) == MaskOne(z, "" + m);
    assert "" + m == m;
    assert MaskOne(z, m) == z[..|a|] + (Token + (z[|a| + 1..|a| + 1 + |b|] + m));
  }

  /**
   * The range rule of line 13 on `x1.y1–x2.y2` then `w`: both periods
   * become the token, and the scan goes on with `w`.
   */
  lemma MaskRange(x1: string, y1: string, x2: string, y2: string, w: string)
    requires |x1| > 0 && (forall i :: 0 <= i < |x1| ==> IsDigit(x1[i]))
    requires |y1| > 0 && (forall i :: 0 <= i < |y1| ==> IsDigit(y1[i]))
    requires |x2| > 0 && (forall i :: 0 <= i < |x2| ==> IsDigit(x2[i]))
    requires |y2| > 0 && (forall i :: 0 <= i < |y2| ==> IsDigit(y2[i]))
    requires |w| == 0 || !IsDigit(w[0])
    ensures Mask(x1 + ("." + (y1 + ([EnDash] + (x2 + ("." + (y2 + w)))))), DecimalRange)
              == x1 + (Token + (y1 + ([EnDash] + (x2 + (Token + (y2 + Mask(w, DecimalRange)))))))
  {
    var t := x2 + ("." + (y2 + w));
    BareDecimalParts(x1, y1, [EnDash] + t);
    BareDecimalParts(x2, y2, w);
    MaskAtRange(x1 + ("." + (y1 + ([EnDash] + t))), x1, y1, t, x2, y2, w);
  }

  /**
   * Where the range rule matches `a.b–c.d` at the start of `z`, followed by
   * `w`, the scan masks both periods and goes on with `w`.
   */
  lemma MaskAtRange(z: string, a: string, b: string, t: string, c: string, d: string, w: string)
    requires DecimalAtStart(z) && DigitRun(z) == |a| && DecimalEnd(z) == |a| + 1 + |b|
    requires z[..|a|] == a && z[|a| + 1..|a| + 1 + |b|] == b && z[|a| + 1 + |b|..] == [EnDash] + t
    requires DecimalAtStart(t) && DigitRun(t) == |c| && DecimalEnd(t) == |c| + 1 + |d|
    requires t[..|c|] == c && t[|c| + 1..|c| + 1 + |d|] == d && t[|c| + 1 + |d|..] == w
    ensures Mask(z, DecimalRange) == a + (Token + (b + ([EnDash] + (c + (Token + (d + Mask(w, DecimalRange)))))))
  {
    RangeMatchParts(z, t, w);
    var m := Mask(w, DecimalRange);
    MaskAtMatch(z, DecimalRange);
    assert Mask(z, DecimalRange) == Replace(z, DecimalRange, m);
    assert Replace(z, DecimalRange, m) == MaskOne(z, [EnDash] + MaskOne(t, m));
    MaskOneParts(t, c, d, m);
    MaskOneParts(z, a, b, [EnDash] + MaskOne(t, m));
  }

  /** The range rule matches at the start of `z`, a decimal, a dash and `t`, and the match ends where `w` begins. */
  lemma RangeMatchParts(z: string, t: string, w: string)
    requires DecimalAtStart(z) && z[DecimalEnd(z)..] == [EnDash] + t
    requires DecimalAtStart(t) && t[DecimalEnd(t)..] == w
    ensures MatchesAtStart(z, DecimalRange) && z[DecimalEnd(z) + 1..] == t
    ensures z[MatchEnd(z, DecimalRange)..] == w
  {
    var r := DecimalEnd(z);
    DropDrop(z, r, [EnDash] + t, 1);
    assert ([EnDash] + t)[1..] == t;
    assert z[r] == ([EnDash] + t)[0];
    RangeAt(z, t);
    DropDrop(z, r + 1, t, DecimalEnd(t));
  }

  /** The range rule matches where a decimal is followed by a dash and a second decimal. */
  lemma RangeAt(z: string, t: string)
    requires DecimalAtStart(z) && DecimalEnd(z) < |z| && z[DecimalEnd(z)] == EnDash
    requires z[DecimalEnd(z) + 1..] == t && DecimalAtStart(t)
    ensures MatchesAtStart(z, DecimalRange) && MatchEnd(z, DecimalRange) == DecimalEnd(z) + 1 + DecimalEnd(t)
  {
  }

  /** Dropping `k` characters and then `j` more is dropping `k + j`. */
  lemma DropDrop(z: string, k: nat, t: string, j: nat)
    requires k <= |z| && z[k..] == t && j <= |t|
    ensures z[k + j..] == t[j..]
  {
  }

  /** The masked form of the decimal `a.b` at the start of `z`, then `u`. */
  lemma MaskOneParts(z: string, a: string, b: string, u: string)
    requires DecimalAtStart(z) && DigitRun(z) == |a| && DecimalEnd(z) == |a| + 1 + |b|
    requires z[..|a|] == a && z[|a| + 1..|a| + 1 + |b|] == b
    ensures MaskOne(z, u) == a + (Token + (b + u))
  {
  }

  /** The parts of `x.y` then `w`, by position. */
  lemma DecimalParts(x: string, y: string, w: string)
    ensures var z := x + ("." + (y + w));
      && z[..|x|] == x && z[|x|] == '.' && z[|x| + 1..|x| + 1 + |y|] == y && z[|x| + 1 + |y|..] == w
      && (forall i :: 0 <= i < |x| ==> z[i] == x[i])
      && (forall i :: |x| < i < |x| + 1 + |y| ==> z[i] == y[i - |x| - 1])
  {
  }

  /** Where the rule matches at the start, the scan replaces that match and goes on after it. */
  lemma MaskAtMatch(s: string, rule: Rule)
    requires MatchesAtStart(s, rule)
    ensures Mask(s, rule) == Replace(s, rule, Mask(s[MatchEnd(s, rule)..], rule))
  {
  }

  /** A text in which no period is followed by a digit is left as it is. */
  lemma {:induction false} MaskWithoutDecimalPoint(s: string, rule: Rule)
    requires NoDecimalPoint(s)
    ensures Mask(s, rule) == s
    decreases |s|
  {
    if |s| > 0 {
      var q := DigitRun(s);
      assert q + 1 < |s| && s[q] == '.' ==> !IsDigit(s[q + 1]);
      assert !DecimalAtStart(s);
      var t := s[1..];
      forall i | 0 <= i < |t| - 1
        ensures t[i] == '.' ==> !IsDigit(t[i + 1])
      {
        assert t[i] == s[i + 1] && t[i + 1] == s[i + 2];
      }
      MaskWithoutDecimalPoint(t, rule);
      MaskWithoutMatch(s, rule);
    }
  }

  /** Where the rule does not match at the start, the scan keeps the first character. */
  lemma MaskWithoutMatch(s: string, rule: Rule)
    requires |s| > 0 && !DecimalAtStart(s)
    ensures Mask(s, rule) == [s[0]] + Mask(s[1..], rule)
  {
  }

  /** A prefix without the letter D passes through `Restore` unchanged. */
  lemma {:induction false} RestoreKeepsPrefixWithoutD(p: string, y: string)
    requires NoLetterD(p)
    ensures Restore(p + y) == p + Restore(y)
    decreases |p|
  {
    if |p| > 0 {
      assert (p + y)[0] == p[0];
      assert (p + y)[1..] == p[1..] + y;
      RestoreKeepsPrefixWithoutD(p[1..], y);
      assert p == [p[0]] + p[1..];
    } else {
      assert p + y == y;
    }
  }

  /** A decimal is digits and a period, so it has no D. */
  lemma DecimalHasNoLetterD(s: string)
    requires DecimalAtStart(s)
    ensures NoLetterD(s[..DecimalEnd(s)])
  {
    var q, r := DigitRun(s), DecimalEnd(s);
    DecimalIsMaximal(s);
    forall i | 0 <= i < r
      ensures s[i] != 'D'
    {
      if i != q {
        assert IsDigit(s[i]);
      }
    }
  }

  /** The text a match covers has no D: digits, periods and the rule's own text. */
  lemma MatchHasNoLetterD(s: string, rule: Rule)
    requires MatchesAtStart(s, rule) && SuffixWithoutD(rule)
    ensures NoLetterD(s[..MatchEnd(s, rule)])
  {
    var r, e := DecimalEnd(s), MatchEnd(s, rule);
    DecimalHasNoLetterD(s);
    if rule.DecimalRange? {
      DecimalHasNoLetterD(s[r + 1..]);
    }
    forall i | 0 <= i < e
      ensures s[i] != 'D'
    {
      if i < r {
        assert s[..r][i] == s[i];
      } else if rule.Decimal? {
        assert s[r..r + |rule.suffix|][i - r] == s[i];
      } else if i > r {
        assert s[r + 1..][..DecimalEnd(s[r + 1..])][i - r - 1] == s[i];
      }
    }
  }

  /** Putting back the three pieces around index `q` gives the prefix up to `r`. */
  lemma Rejoin(s: string, q: int, r: int, w: string)
    requires 0 <= q < r <= |s|
    ensures s[..q] + ([s[q]] + (s[q + 1..r] + w)) == s[..r] + w
  {
  }

  /** Putting back the piece between `r` and `e` gives the prefix up to `e`. */
  lemma Regroup(s: string, r: int, e: int, w: string)
    requires 0 <= r <= e <= |s|
    ensures s[..r] + (s[r..e] + w) == s[..e] + w
  {
  }

  /** The token at the front restores to a period. */
  lemma RestoreTokenHead(y: string)
    ensures Restore(Token + y) == "." + Restore(y)
  {
    assert (Token + y)[|Token|..] == y;
  }

  /** `Restore` copies a prefix without D of its input. */
  lemma {:induction false} RestoreSkips(s: string, k: nat)
    requires k <= |s| && NoLetterD(s[..k])
    ensures Restore(s) == s[..k] + Restore(s[k..])
    decreases k
  {
    if k > 0 {
      var p := s[..k];
      assert s[1..][..k - 1] == p[1..];
      RestoreSkips(s[1..], k - 1);
      assert s[1..][k - 1..] == s[k..];
      ConsAppend(p, Restore(s[k..]));
    }
  }

  /** The masked decimal at the start of `s` restores to the decimal as written. */
  lemma MaskOneRestores(s: string, z: string)
    requires DecimalAtStart(s)
    ensures Restore(MaskOne(s, z)) == s[..DecimalEnd(s)] + Restore(z)
  {
    var q, r := DigitRun(s), DecimalEnd(s);
    var a, b := s[..q], s[q + 1..r];
    DecimalHasNoLetterD(s);
    assert a == s[..r][..q] && b == s[..r][q + 1..];
    RestoreKeepsPrefixWithoutD(a, Token + (b + z));
    RestoreTokenHead(b + z);
    RestoreKeepsPrefixWithoutD(b, z);
    Rejoin(s, q, r, Restore(z));
  }

  /** A replaced match restores to exactly the text it replaced. */
  lemma ReplaceRestores(s: string, rule: Rule, z: string)
    requires MatchesAtStart(s, rule) && SuffixWithoutD(rule)
    ensures Restore(Replace(s, rule, z)) == s[..MatchEnd(s, rule)] + Restore(z)
  {
    var r := DecimalEnd(s);
    match rule
    case Decimal(suffix) =>
      assert MatchEnd(s, rule) == r + |suffix|;
      assert Replace(s, rule, z) == MaskOne(s, suffix + z);
      DecimalReplaceRestores(s, suffix, z);
    case DecimalRange =>
      var t := s[r + 1..];
      assert r < |s| && s[r] == EnDash && DecimalAtStart(t);
      assert MatchEnd(s, rule) == r + 1 + DecimalEnd(t);
      assert Replace(s, rule, z) == MaskOne(s, [EnDash] + MaskOne(t, z));
      RangeReplaceRestores(s, r, t, z);
  }

  /** `ReplaceRestores` for a decimal followed by a fixed text. */
  lemma DecimalReplaceRestores(s: string, suffix: string, z: string)
    requires MatchesAtStart(s, Decimal(suffix)) && NoLetterD(suffix)
    ensures Restore(MaskOne(s, suffix + z)) == s[..DecimalEnd(s) + |suffix|] + Restore(z)
  {
    var r := DecimalEnd(s);
    var e := r + |suffix|;
    assert s[r..e] == suffix;
    MaskOneRestores(s, suffix + z);
    RestoreKeepsPrefixWithoutD(suffix, z);
    assert Restore(MaskOne(s, suffix + z)) == s[..r] + (s[r..e] + Restore(z));
    Regroup(s, r, e, Restore(z));
  }

  /** `ReplaceRestores` for a range of two decimals: `t` is the text after the dash. */
  lemma RangeReplaceRestores(s: string, r: nat, t: string, z: string)
    requires DecimalAtStart(s) && r == DecimalEnd(s)
    requires r < |s| && s[r] == EnDash && t == s[r + 1..] && DecimalAtStart(t)
    ensures Restore(MaskOne(s, [EnDash] + MaskOne(t, z))) == s[..r + 1 + DecimalEnd(t)] + Restore(z)
  {
    var e := r + 1 + DecimalEnd(t);
    MaskOneRestores(s, [EnDash] + MaskOne(t, z));
    RestoreKeepsPrefixWithoutD([EnDash], MaskOne(t, z));
    MaskOneRestores(t, z);
    assert t[..DecimalEnd(t)] == s[r + 1..e];
    Rejoin(s, r, e, Restore(z));
  }

  /**
   * Restoring undoes masking: every token a replacement writes turns back
   * into the period it stood for, and nothing else changes.
   */
  lemma {:induction false} RestoreUndoesMask(s: string, rule: Rule)
    requires SuffixWithoutD(rule)
    ensures Restore(Mask(s, rule)) == Restore(s)
    decreases |s|
  {
    if |s| == 0 {
    } else if MatchesAtStart(s, rule) {
      var e := MatchEnd(s, rule);
      ReplaceRestores(s, rule, Mask(s[e..], rule));
      RestoreUndoesMask(s[e..], rule);
      MatchHasNoLetterD(s, rule);
      RestoreSkips(s, e);
    } else if s[0] != 'D' {
      RestoreKeepsPrefixWithoutD([s[0]], Mask(s[1..], rule));
      RestoreSkips(s, 1);
      RestoreUndoesMask(s[1..], rule);
    } else {
      RestoreUndoesMaskAtD(s, rule);
    }
  }

  /** The case of `RestoreUndoesMask` where the text starts with a D. */
  lemma {:induction false} RestoreUndoesMaskAtD(s: string, rule: Rule)
    requires SuffixWithoutD(rule)
    requires |s| > 0 && s[0] == 'D'
    ensures Restore(Mask(s, rule)) == Restore(s)
    decreases |s|, 0
  {
    var p := Token[1..];
    assert NoDigits(p);
    MaskKeepsPlainPrefix(p, s[1..], rule);
    MaskSkipsNonDigit(s, rule);
    var m := Mask(s, rule);
    StartsWithCons(m, Token);
    StartsWithCons(s, Token);
    TokenAtIsStartsWith(m);
    TokenAtIsStartsWith(s);
    if StartsWith(s[1..], p) {
      MaskCopiesPlainPrefix(p, s[1..], rule);
      assert m[|Token|..] == Mask(s[1..][|p|..], rule);
      assert s[1..][|p|..] == s[|Token|..];
      RestoreUndoesMask(s[|Token|..], rule);
    } else {
      assert m[1..] == Mask(s[1..], rule);
      RestoreUndoesMask(s[1..], rule);
    }
  }

  /** `Restore` leaves a text unchanged exactly when the token does not occur in it. */
  lemma {:induction false} RestoreFixesExactlyTokenFree(s: string)
    ensures Restore(s) == s <==> !Contains(s, Token)
    decreases |s|
  {
    if |s| > 0 {
      ContainsCons(s, Token);
      TokenAtIsStartsWith(s);
      assert OccursAt(s, Token, 0) <==> StartsWith(s, Token);
      if TokenAt(s) {
        assert |Restore(s)| < |s|;
      } else {
        RestoreFixesExactlyTokenFree(s[1..]);
        ConsEquals(s, Restore(s[1..]));
      }
    }
  }

  /** A text is its first character followed by `x` exactly when `x` is its rest. */
  lemma ConsEquals(s: string, x: string)
    requires |s| > 0
    ensures [s[0]] + x == s <==> x == s[1..]
  {
    if [s[0]] + x == s {
      assert ([s[0]] + x)[1..] == x;
    }
  }

  /** A line that does not spell the token comes back from masking and restoring as it was. */
  lemma MaskAllRoundTrip(line: string)
    requires !Contains(line, Token)
    ensures Restore(MaskAll(line)) == line
  {
    RestoreFixesExactlyTokenFree(line);
  }
}
