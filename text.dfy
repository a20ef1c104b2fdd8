/**
 * The JavaScript string primitives the classifier relies on, over `seq<char>`:
 * the regular-expression classes `\d`, `[A-Z]` and `\s`, `trim`, `toLowerCase`,
 * `includes` and `endsWith`.
 */
module Text {

  /** `\d`: an ASCII decimal digit. */
  predicate IsDigit(c: char) {
    '0' <= c <= '9'
  }

  /** `[A-Z]`: an ASCII capital letter (accented capitals are not in the class). */
  predicate IsAsciiUpper(c: char) {
    'A' <= c <= 'Z'
  }

  /**
   * `\s`, and what `trim` removes: the ECMAScript WhiteSpace characters
   * (tab, vertical tab, form feed, byte order mark and the Unicode space
   * separators) and LineTerminator characters (LF, CR, LS, PS).
   */
  predicate IsSpace(c: char) {
    || c == '\t' || c == '\n' || c == '\U{000B}' || c == '\U{000C}' || c == '\r'
    || c == ' ' || c == '\U{00A0}' || c == '\U{1680}'
    || ('\U{2000}' <= c <= '\U{200A}')
    || c == '\U{2028}' || c == '\U{2029}' || c == '\U{202F}' || c == '\U{205F}'
    || c == '\U{3000}' || c == '\U{FEFF}'
  }

  /**
   * `toLowerCase` on one character, for the capitals of ASCII and of the
   * Latin-1 supplement (which holds the Spanish Á, É, Í, Ó, Ú, Ñ, Ü); every
   * other character is left as it is.
   */
  function LowerChar(c: char): (l: char)
    ensures IsDigit(l) <==> IsDigit(c)
    ensures !IsAsciiUpper(l)
    ensures l != c ==> (IsAsciiUpper(c) || '\U{00C0}' <= c <= '\U{00DE}') && l as int == c as int + 32
    ensures IsAsciiUpper(c) || ('\U{00C0}' <= c <= '\U{00DE}' && c != '\U{00D7}') ==> l as int == c as int + 32
  {
    if IsAsciiUpper(c) || ('\U{00C0}' <= c <= '\U{00DE}' && c != '\U{00D7}') then
      (c as int + 32) as char
    else
      c
  }

  /** `toLowerCase`, character by character. */
  function LowerCase(s: string): (r: string)
    ensures |r| == |s|
    ensures forall i :: 0 <= i < |s| ==> r[i] == LowerChar(s[i]) && !IsAsciiUpper(r[i])
  {
    seq(|s|, i requires 0 <= i < |s| => LowerChar(s[i]))
  }

  /** `trim`: drops the `\s` characters at both ends. */
  function Trim(s: string): (r: string)
    ensures |r| <= |s|
    ensures |r| > 0 ==> !IsSpace(r[0]) && !IsSpace(r[|r| - 1])
    decreases |s|
  {
    if |s| > 0 && IsSpace(s[0]) then Trim(s[1..])
    else if |s| > 0 && IsSpace(s[|s| - 1]) then Trim(s[..|s| - 1])
    else s
  }

  /**
   * What `trim` leaves is an infix of `s` that neither starts nor ends with
   * a space, and everything cut off on either side is space.
   */
  lemma {:induction false} TrimSpec(s: string)
    ensures exists a :: SpaceMargins(s, Trim(s), a)
    ensures |Trim(s)| > 0 ==> !IsSpace(Trim(s)[0]) && !IsSpace(Trim(s)[|Trim(s)| - 1])
    decreases |s|
  {
    var r := Trim(s);
    if |s| > 0 && IsSpace(s[0]) {
      TrimSpec(s[1..]);
      var a :| SpaceMargins(s[1..], r, a);
      MarginsWiden(s, r, a);
    } else if |s| > 0 && IsSpace(s[|s| - 1]) {
      TrimSpec(s[..|s| - 1]);
      var a :| SpaceMargins(s[..|s| - 1], r, a);
      MarginsExtend(s, r, a);
    } else {
      assert SpaceMargins(s, r, 0);
    }
  }

  /** A space in front widens the left margin. */
  lemma MarginsWiden(s: string, r: string, a: int)
    requires |s| > 0 && IsSpace(s[0]) && SpaceMargins(s[1..], r, a)
    ensures SpaceMargins(s, r, a + 1)
  {
    assert s[1..][a..a + |r|] == s[a + 1..a + 1 + |r|];
    forall i | 0 <= i < a + 1
      ensures IsSpace(s[i])
    {
      if i > 0 {
        assert s[i] == s[1..][i - 1];
      }
    }
    forall i | a + 1 + |r| <= i < |s|
      ensures IsSpace(s[i])
    {
      assert s[i] == s[1..][i - 1];
    }
  }

  /** A space at the end widens the right margin. */
  lemma MarginsExtend(s: string, r: string, a: int)
    requires |s| > 0 && IsSpace(s[|s| - 1]) && SpaceMargins(s[..|s| - 1], r, a)
    ensures SpaceMargins(s, r, a)
  {
    assert s[..|s| - 1][a..a + |r|] == s[a..a + |r|];
    forall i | 0 <= i < a
      ensures IsSpace(s[i])
    {
      assert s[i] == s[..|s| - 1][i];
    }
    forall i | a + |r| <= i < |s|
      ensures IsSpace(s[i])
    {
      if i < |s| - 1 {
        assert s[i] == s[..|s| - 1][i];
      }
    }
  }

  /** `r` sits in `s` at offset `a`, and only spaces surround it. */
  ghost predicate SpaceMargins(s: string, r: string, a: int) {
    && 0 <= a <= |s| - |r|
    && r == s[a..a + |r|]
    && (forall i :: 0 <= i < a ==> IsSpace(s[i]))
    && (forall i :: a + |r| <= i < |s| ==> IsSpace(s[i]))
  }

  /** A string that neither starts nor ends with a space is its own trim. */
  lemma TrimmedIsFixed(s: string)
    requires |s| == 0 || (!IsSpace(s[0]) && !IsSpace(s[|s| - 1]))
    ensures Trim(s) == s
  {
  }

  /** `trim` is idempotent. */
  lemma TrimIdempotent(s: string)
    ensures Trim(Trim(s)) == Trim(s)
  {
    TrimSpec(s);
    TrimmedIsFixed(Trim(s));
  }

  /** `trim` yields the empty string exactly when every character is a space. */
  lemma TrimEmptyIffBlank(s: string)
    ensures Trim(s) == [] <==> forall i :: 0 <= i < |s| ==> IsSpace(s[i])
  {
    var r := Trim(s);
    TrimSpec(s);
    var a :| SpaceMargins(s, r, a);
    assert |r| > 0 ==> r[0] == s[a];
    if !forall i :: 0 <= i < |s| ==> IsSpace(s[i]) {
      var k :| 0 <= k < |s| && !IsSpace(s[k]);
      assert a <= k < a + |r| && r[k - a] == s[k];
    }
  }

  /** `includes`: `k` occurs somewhere in `s`. */
  predicate Contains(s: string, k: string) {
    exists i :: 0 <= i <= |s| - |k| && OccursAt(s, k, i)
  }

  /** `k` occurs in `s` starting at index `i`. */
  predicate OccursAt(s: string, k: string, i: int) {
    0 <= i <= |s| - |k| && s[i..i + |k|] == k
  }

  /** `k` occurs in a non-empty `s` at its start or somewhere in its rest. */
  lemma ContainsCons(s: string, k: string)
    requires |s| > 0
    ensures Contains(s, k) <==> OccursAt(s, k, 0) || Contains(s[1..], k)
  {
    if Contains(s, k) && !OccursAt(s, k, 0) {
      var i :| 0 <= i <= |s| - |k| && OccursAt(s, k, i);
      assert s[1..][i - 1..i - 1 + |k|] == s[i..i + |k|];
      assert OccursAt(s[1..], k, i - 1);
    }
    if Contains(s[1..], k) {
      var i :| 0 <= i <= |s[1..]| - |k| && OccursAt(s[1..], k, i);
      assert s[1..][i..i + |k|] == s[i + 1..i + 1 + |k|];
      assert OccursAt(s, k, i + 1);
    }
  }

  /** `toLowerCase` distributes over concatenation. */
  lemma LowerCaseConcat(a: string, b: string)
    ensures LowerCase(a + b) == LowerCase(a) + LowerCase(b)
  {
  }

  /** A text that is already lower case is left as it is. */
  lemma LowerCaseFixes(s: string)
    requires forall i :: 0 <= i < |s| ==> LowerChar(s[i]) == s[i]
    ensures LowerCase(s) == s
  {
  }

  /** Lowering a lowered text changes nothing: a lowered character is never lowered again. */
  lemma LowerCaseIdempotent(s: string)
    ensures LowerCase(LowerCase(s)) == LowerCase(s)
  {
    var l := LowerCase(s);
    forall i | 0 <= i < |l|
      ensures LowerChar(l[i]) == l[i]
    {
      assert l[i] == LowerChar(s[i]);
    }
    LowerCaseFixes(l);
  }

  /** `k` does not occur in `t` when `t` lacks one of the characters of `k`. */
  lemma MissingChar(t: string, k: string, j: int)
    requires 0 <= j < |k|
    requires forall i :: 0 <= i < |t| ==> t[i] != k[j]
    ensures !Contains(t, k)
  {
    forall i | 0 <= i <= |t| - |k|
      ensures !OccursAt(t, k, i)
    {
      assert t[i..i + |k|][j] == t[i + j];
    }
  }

  /** `k` does not occur in `t` when `t` lacks one pair of adjacent characters of `k`. */
  lemma MissingPair(t: string, k: string, j: int)
    requires 0 <= j < |k| - 1
    requires forall i :: 0 <= i < |t| - 1 ==> t[i] != k[j] || t[i + 1] != k[j + 1]
    ensures !Contains(t, k)
  {
    forall i | 0 <= i <= |t| - |k|
      ensures !OccursAt(t, k, i)
    {
      assert t[i..i + |k|][j] == t[i + j];
      assert t[i..i + |k|][j + 1] == t[i + j + 1];
    }
  }

  /** No character of `s` lowers to `c`. */
  predicate LowersAvoid(s: string, c: char) {
    forall i :: 0 <= i < |s| ==> s[i] != c && s[i] as int + 32 != c as int
  }

  /** The lower-case form of `s` lacks a character of `k`, so it does not contain `k`. */
  lemma LowerCaseMissingChar(s: string, k: string, j: int)
    requires 0 <= j < |k| && LowersAvoid(s, k[j])
    ensures !Contains(LowerCase(s), k)
  {
    MissingChar(LowerCase(s), k, j);
  }

  /** The lower-case form of `s` lacks a pair of adjacent characters of `k`. */
  lemma LowerCaseMissingPair(s: string, k: string, j: int)
    requires 0 <= j < |k| - 1
    requires forall i :: 0 <= i < |s| - 1 ==> LowerChar(s[i]) != k[j] || LowerChar(s[i + 1]) != k[j + 1]
    ensures !Contains(LowerCase(s), k)
  {
    MissingPair(LowerCase(s), k, j);
  }

  /** A lower-case `k` between any two texts is found in the lower-case form of the whole. */
  lemma LowerCaseKeepsInfix(a: string, k: string, b: string)
    requires forall i :: 0 <= i < |k| ==> LowerChar(k[i]) == k[i]
    ensures Contains(LowerCase(a + k + b), k)
  {
    LowerCaseConcat(a + k, b);
    LowerCaseConcat(a, k);
    LowerCaseFixes(k);
    ContainsInfix(LowerCase(a), k, LowerCase(b));
  }

  /** `k` occurs in `a + k + b`. */
  lemma ContainsInfix(a: string, k: string, b: string)
    ensures Contains(a + k + b, k)
  {
    assert (a + k + b)[|a|..|a| + |k|] == k;
    assert OccursAt(a + k + b, k, |a|);
  }

  /** No period in `s`. */
  predicate NoPeriod(s: string) {
    forall i :: 0 <= i < |s| ==> s[i] != '.'
  }

  /** `endsWith(".")`. */
  predicate EndsWithPeriod(s: string) {
    |s| > 0 && s[|s| - 1] == '.'
  }
}
