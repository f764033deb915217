/**
 * The string operations the service relies on: Python's `str.strip()` and
 * `str.title()` (letters are the ASCII letters; every other character is
 * uncased), `str(int)` and its inverse, and the ASCII case folding SQLite uses
 * for `ILIKE`.
 */
module Text {
  import opened Options

  // ---------------------------------------------------------------- characters

  /** The characters for which Python's `str.isspace()` holds: what `strip()` removes. */
  predicate IsSpace(c: char) {
    || c == ' ' || ('\t' <= c <= '\r') || ('\U{1c}' <= c <= '\U{1f}')
    || c == '\U{85}' || c == '\U{a0}' || c == '\U{1680}'
    || ('\U{2000}' <= c <= '\U{200a}') || c == '\U{2028}' || c == '\U{2029}'
    || c == '\U{202f}' || c == '\U{205f}' || c == '\U{3000}'
  }

  /** A cased character in the sense of `str.title()`. */
  predicate IsLetter(c: char) {
    ('a' <= c <= 'z') || ('A' <= c <= 'Z')
  }

  function Upper(c: char): char {
    if 'a' <= c <= 'z' then (c as int - 32) as char else c
  }

  function Lower(c: char): char {
    if 'A' <= c <= 'Z' then (c as int + 32) as char else c
  }

  predicate IsDigit(c: char) {
    '0' <= c <= '9'
  }

  // ---------------------------------------------------------------- strip()

  /** `s.lstrip()`: `s` without its leading whitespace. */
  function TrimStart(s: string): (r: string)
    ensures |r| <= |s|
    ensures r == s[|s| - |r|..]
    ensures r != [] ==> !IsSpace(r[0])
    ensures forall i :: 0 <= i < |s| - |r| ==> IsSpace(s[i])
  {
    if s != [] && IsSpace(s[0]) then
      var r := TrimStart(s[1..]);
      assert s[1..][|s| - 1 - |r|..] == s[|s| - |r|..];
      r
    else s
  }

  /** `s.rstrip()`: `s` without its trailing whitespace. */
  function TrimEnd(s: string): (r: string)
    ensures |r| <= |s|
    ensures r == s[..|r|]
    ensures r != [] ==> !IsSpace(r[|r| - 1])
    ensures forall i :: |r| <= i < |s| ==> IsSpace(s[i])
  {
    if s != [] && IsSpace(s[|s| - 1]) then
      var r := TrimEnd(s[..|s| - 1]);
      assert s[..|s| - 1][..|r|] == s[..|r|];
      r
    else s
  }

  /** `s` is `r` at offset `a` with only whitespace before and after it. */
  predicate BlankPadded(s: string, a: nat, r: string) {
    && a + |r| <= |s|
    && r == s[a..a + |r|]
    && (forall i :: 0 <= i < a ==> IsSpace(s[i]))
    && (forall i :: a + |r| <= i < |s| ==> IsSpace(s[i]))
  }

  /**
   * Python's `s.strip()`: the slice of `s` left once its leading and trailing
   * whitespace is cut off.
   */
  function Strip(s: string): (r: string)
    ensures |r| <= |s|
    ensures exists a :: BlankPadded(s, a, r)
    ensures r == [] <==> forall i :: 0 <= i < |s| ==> IsSpace(s[i])
    ensures r != [] ==> !IsSpace(r[0]) && !IsSpace(r[|r| - 1])
  {
    StripSlice(s);
    TrimEnd(TrimStart(s))
  }

  /** Trimming both ends leaves a slice of `s` with only whitespace around it. */
  lemma StripSlice(s: string)
    ensures BlankPadded(s, |s| - |TrimStart(s)|, TrimEnd(TrimStart(s)))
    ensures TrimStart(s) == [] ==> forall i :: 0 <= i < |s| ==> IsSpace(s[i])
  {
    var t := TrimStart(s);
    var r := TrimEnd(t);
    assert |t| <= |s| && t == s[|s| - |t|..];
    assert |r| <= |t| && r == t[..|r|];
    SuffixPrefix(s, t, r);
  }

  /** A prefix `r` of a suffix `t` of `s`, with blanks cut off both sides, is `s` blank-padded. */
  lemma SuffixPrefix(s: string, t: string, r: string)
    requires |t| <= |s| && t == s[|s| - |t|..]
    requires forall i :: 0 <= i < |s| - |t| ==> IsSpace(s[i])
    requires |r| <= |t| && r == t[..|r|]
    requires forall i :: |r| <= i < |t| ==> IsSpace(t[i])
    ensures BlankPadded(s, |s| - |t|, r)
  {
    var a := |s| - |t|;
    assert r == s[a..a + |r|];
    forall i | a + |r| <= i < |s| ensures IsSpace(s[i]) {
      assert s[i] == t[i - a];
    }
  }

  /** Stripping twice strips nothing more. */
  lemma StripIdempotent(s: string)
    ensures Strip(Strip(s)) == Strip(s)
  {
    var r := Strip(s);
    if r != [] {
      assert TrimStart(r) == r;
    }
  }

  lemma {:induction false} TrimStartSpaces(pre: string, x: string)
    requires forall i :: 0 <= i < |pre| ==> IsSpace(pre[i])
    ensures TrimStart(pre + x) == TrimStart(x)
  {
    if pre != [] {
      var y := pre + x;
      assert y[0] == pre[0] && IsSpace(pre[0]);
      assert y[1..] == pre[1..] + x;
      assert TrimStart(y) == TrimStart(y[1..]);
      TrimStartSpaces(pre[1..], x);
    } else {
      assert pre + x == x;
    }
  }

  lemma {:induction false} TrimEndSpaces(x: string, post: string)
    requires forall i :: 0 <= i < |post| ==> IsSpace(post[i])
    ensures TrimEnd(x + post) == TrimEnd(x)
  {
    if post != [] {
      var y := x + post;
      var p' := post[..|post| - 1];
      assert y[|y| - 1] == post[|post| - 1] && IsSpace(post[|post| - 1]);
      assert y[..|y| - 1] == x + p';
      assert TrimEnd(y) == TrimEnd(y[..|y| - 1]);
      TrimEndSpaces(x, p');
    } else {
      assert x + post == x;
    }
  }

  lemma {:induction false} TrimStartAppend(s: string, post: string)
    ensures TrimStart(s + post) == if TrimStart(s) == [] then TrimStart(post) else TrimStart(s) + post
  {
    var y := s + post;
    if s == [] {
      assert y == post;
    } else if IsSpace(s[0]) {
      assert y[0] == s[0];
      assert y[1..] == s[1..] + post;
      assert TrimStart(y) == TrimStart(y[1..]);
      assert TrimStart(s) == TrimStart(s[1..]);
      TrimStartAppend(s[1..], post);
    } else {
      assert y[0] == s[0];
      assert TrimStart(y) == y;
      assert TrimStart(s) == s;
    }
  }

  /** Whitespace around a string does not survive `strip()`. */
  lemma StripPadding(pre: string, s: string, post: string)
    requires forall i :: 0 <= i < |pre| ==> IsSpace(pre[i])
    requires forall i :: 0 <= i < |post| ==> IsSpace(post[i])
    ensures Strip(pre + s + post) == Strip(s)
  {
    assert pre + s + post == pre + (s + post);
    TrimStartSpaces(pre, s + post);
    TrimStartAppend(s, post);
    if TrimStart(s) == [] {
      TrimStartSpaces(post, []);
      assert post + [] == post;
    } else {
      TrimEndSpaces(TrimStart(s), post);
    }
  }

  // ---------------------------------------------------------------- title()

  /** `str.title()` continued from a state where the previous character was (or was not) cased. */
  function TitleFrom(s: string, prevCased: bool): (r: string)
    ensures |r| == |s|
  {
    if s == [] then []
    else [if prevCased then Lower(s[0]) else Upper(s[0])] + TitleFrom(s[1..], IsLetter(s[0]))
  }

  /** Python's `s.title()`: a letter is upper-cased after an uncased character and lower-cased after a letter. */
  function Title(s: string): string {
    TitleFrom(s, false)
  }

  /** Whether `TitleFrom(s, prevCased)` lower-cases the character at `i`. */
  predicate CasedBefore(s: string, prevCased: bool, i: nat)
    requires i < |s|
  {
    if i == 0 then prevCased else IsLetter(s[i - 1])
  }

  /** Each character of a title-cased string depends only on itself and its predecessor. */
  lemma {:induction false} TitleFromAt(s: string, prevCased: bool, i: nat)
    requires i < |s|
    ensures TitleFrom(s, prevCased)[i] == if CasedBefore(s, prevCased, i) then Lower(s[i]) else Upper(s[i])
  {
    if i > 0 {
      TitleFromAt(s[1..], IsLetter(s[0]), i - 1);
      assert TitleFrom(s, prevCased)[i] == TitleFrom(s[1..], IsLetter(s[0]))[i - 1];
    }
  }

  lemma TitleAt(s: string, i: nat)
    requires i < |s|
    ensures Title(s)[i] == if i > 0 && IsLetter(s[i - 1]) then Lower(s[i]) else Upper(s[i])
  {
    TitleFromAt(s, false, i);
  }

  /** Case mapping never turns whitespace into something else, or back. */
  lemma CaseKeepsSpace(c: char)
    ensures IsSpace(Upper(c)) <==> IsSpace(c)
    ensures IsSpace(Lower(c)) <==> IsSpace(c)
  {
  }

  lemma {:induction false} TitleFromPrefix(s: string, prevCased: bool, k: nat)
    requires k <= |s|
    ensures TitleFrom(s, prevCased)[..k] == TitleFrom(s[..k], prevCased)
  {
    if k > 0 {
      TitleFromPrefix(s[1..], IsLetter(s[0]), k - 1);
      assert s[..k][1..] == s[1..][..k - 1];
    }
  }

  lemma {:induction false} TitleTrimStart(s: string)
    ensures TrimStart(Title(s)) == Title(TrimStart(s))
  {
    if s != [] {
      CaseKeepsSpace(s[0]);
      if IsSpace(s[0]) {
        assert Title(s) == [s[0]] + Title(s[1..]);
        TitleTrimStart(s[1..]);
      }
    }
  }

  lemma {:induction false} TitleFromTrimEnd(s: string, prevCased: bool)
    ensures TrimEnd(TitleFrom(s, prevCased)) == TitleFrom(TrimEnd(s), prevCased)
    decreases |s|
  {
    if s != [] {
      var n := |s| - 1;
      var t := TitleFrom(s, prevCased);
      TitleFromAt(s, prevCased, n);
      CaseKeepsSpace(s[n]);
      if IsSpace(s[n]) {
        TitleFromPrefix(s, prevCased, n);
        TitleFromTrimEnd(s[..n], prevCased);
      }
    }
  }

  /**
   * `s.strip().title() == s.title().strip()`: registration looks users up by the
   * first form and stores the second, so the lookup finds what was stored.
   */
  lemma TitleStripCommute(s: string)
    ensures Title(Strip(s)) == Strip(Title(s))
  {
    TitleTrimStart(s);
    TitleFromTrimEnd(TrimStart(s), false);
  }

  /** Title-casing twice changes nothing more. */
  lemma TitleIdempotent(s: string)
    ensures Title(Title(s)) == Title(s)
  {
    var t := Title(s);
    forall i | 0 <= i < |s| ensures Title(t)[i] == t[i] {
      TitleAt(s, i);
      TitleAt(t, i);
      if i > 0 { TitleAt(s, i - 1); }
    }
  }

  /** The normal form of names and usernames: `s.strip().title()`. */
  function Normalize(s: string): string {
    Title(Strip(s))
  }

  // ---------------------------------------------------------------- case folding

  /** SQL `lower()` as SQLite computes it: ASCII letters only. */
  function Fold(s: string): (r: string)
    ensures |r| == |s|
  {
    seq(|s|, i requires 0 <= i < |s| => Lower(s[i]))
  }

  /** Title-casing only moves letters between cases, so it is invisible after folding. */
  lemma FoldTitle(s: string)
    ensures Fold(Title(s)) == Fold(s)
  {
    forall i | 0 <= i < |s| ensures Fold(Title(s))[i] == Fold(s)[i] {
      TitleAt(s, i);
    }
  }

  /** Strings that agree up to case normalise to the same name. */
  lemma {:induction false} TitleFromIgnoresCase(s: string, t: string, prevCased: bool)
    requires Fold(s) == Fold(t)
    ensures TitleFrom(s, prevCased) == TitleFrom(t, prevCased)
  {
    if s != [] {
      assert Lower(s[0]) == Lower(t[0]) by { assert Fold(s)[0] == Fold(t)[0]; }
      assert Fold(s[1..]) == Fold(t[1..]) by {
        forall i | 0 <= i < |s| - 1 ensures Fold(s[1..])[i] == Fold(t[1..])[i] {
          assert Fold(s)[i + 1] == Fold(t)[i + 1];
        }
      }
      TitleFromIgnoresCase(s[1..], t[1..], IsLetter(s[0]));
    }
  }

  lemma FoldSlice(s: string, lo: nat, hi: nat)
    requires lo <= hi <= |s|
    ensures Fold(s[lo..hi]) == Fold(s)[lo..hi]
  {
  }

  /** Folding to lower case keeps whitespace where it is. */
  lemma FoldKeepsSpace(s: string, t: string, i: nat)
    requires Fold(s) == Fold(t) && i < |s|
    ensures IsSpace(s[i]) <==> IsSpace(t[i])
  {
    assert Fold(s)[i] == Fold(t)[i];
    CaseKeepsSpace(s[i]);
    CaseKeepsSpace(t[i]);
  }

  lemma {:induction false} FoldTrimStart(s: string, t: string)
    requires Fold(s) == Fold(t)
    ensures Fold(TrimStart(s)) == Fold(TrimStart(t))
  {
    if s != [] {
      FoldKeepsSpace(s, t, 0);
      if IsSpace(s[0]) {
        FoldSlice(s, 1, |s|);
        FoldSlice(t, 1, |t|);
        assert s[1..|s|] == s[1..] && t[1..|t|] == t[1..];
        FoldTrimStart(s[1..], t[1..]);
      }
    }
  }

  lemma {:induction false} FoldTrimEnd(s: string, t: string)
    requires Fold(s) == Fold(t)
    ensures Fold(TrimEnd(s)) == Fold(TrimEnd(t))
    decreases |s|
  {
    if s != [] {
      var n := |s| - 1;
      FoldKeepsSpace(s, t, n);
      if IsSpace(s[n]) {
        FoldSlice(s, 0, n);
        FoldSlice(t, 0, n);
        assert s[0..n] == s[..n] && t[0..n] == t[..n];
        FoldTrimEnd(s[..n], t[..n]);
      }
    }
  }

  /**
   * Two spellings that differ only in letter case and surrounding whitespace
   * have the same normal form.
   */
  lemma NormalizeIgnoresCaseAndPadding(s: string, t: string, pre: string, post: string)
    requires Fold(s) == Fold(t)
    requires forall i :: 0 <= i < |pre| ==> IsSpace(pre[i])
    requires forall i :: 0 <= i < |post| ==> IsSpace(post[i])
    ensures Normalize(pre + t + post) == Normalize(s)
  {
    StripPadding(pre, t, post);
    FoldTrimStart(s, t);
    FoldTrimEnd(TrimStart(s), TrimStart(t));
    TitleFromIgnoresCase(Strip(s), Strip(t), false);
  }

  /** `pat` occurs in `text` at some position. */
  predicate Contains(text: string, pat: string)
    decreases |text|
  {
    pat <= text || (text != [] && Contains(text[1..], pat))
  }

  /** `name ILIKE '%pat%'` with the pattern taken literally, folding case as SQLite does. */
  predicate ContainsIgnoringCase(name: string, pat: string) {
    Contains(Fold(name), Fold(pat))
  }

  // ---------------------------------------------------------------- str(int)

  function DigitChar(d: nat): (c: char)
    requires d < 10
    ensures IsDigit(c) && c as int - '0' as int == d
  {
    (d + '0' as int) as char
  }

  /** Decimal digits of `n`, most significant first, without leading zeros. */
  function NatToString(n: nat): (r: string)
    ensures r != []
    ensures forall i :: 0 <= i < |r| ==> IsDigit(r[i])
  {
    if n < 10 then [DigitChar(n)] else NatToString(n / 10) + [DigitChar(n % 10)]
  }

  /** Python's `str(i)`. */
  function IntToString(i: int): string {
    if i < 0 then "-" + NatToString(-i) else NatToString(i)
  }

  /** The value of a string of decimal digits. */
  function DigitsValue(s: string): nat
    requires forall i :: 0 <= i < |s| ==> IsDigit(s[i])
  {
    if s == [] then 0
    else
      assert IsDigit(s[|s| - 1]);
      10 * DigitsValue(s[..|s| - 1]) + (s[|s| - 1] as int - '0' as int)
  }

  /** Python's `int(s)` on what `str` produces: an optional minus sign and at least one digit. */
  function ParseInt(s: string): Option<int> {
    if s != [] && s[0] == '-' then
      if |s| > 1 && forall i :: 1 <= i < |s| ==> IsDigit(s[i]) then Some(0 - DigitsValue(s[1..])) else None
    else if s != [] && forall i :: 0 <= i < |s| ==> IsDigit(s[i]) then Some(DigitsValue(s))
    else None
  }

  lemma {:induction false} NatToStringValue(n: nat)
    ensures DigitsValue(NatToString(n)) == n
  {
    if n >= 10 {
      NatToStringValue(n / 10);
      var r := NatToString(n);
      assert r[..|r| - 1] == NatToString(n / 10);
    }
  }

  /** `int(str(i)) == i`. */
  lemma IntToStringRoundTrip(i: int)
    ensures ParseInt(IntToString(i)) == Some(i)
  {
    var s := IntToString(i);
    if i < 0 {
      var digits := NatToString(-i);
      NatToStringValue(-i);
      assert s == "-" + digits;
      assert s[1..] == digits;
      assert |s| > 1 && s[0] == '-';
      assert forall k :: 1 <= k < |s| ==> IsDigit(s[k]) by {
        forall k | 1 <= k < |s| ensures IsDigit(s[k]) {
          assert s[k] == digits[k - 1];
        }
      }
    } else {
      NatToStringValue(i);
      assert IsDigit(s[0]);
    }
  }

  /** Distinct integers print differently. */
  lemma IntToStringInjective(i: int, j: int)
    requires IntToString(i) == IntToString(j)
    ensures i == j
  {
    IntToStringRoundTrip(i);
    IntToStringRoundTrip(j);
  }

  /** The rendering of an integer holds no character other than digits and a leading minus. */
  lemma IntToStringChars(i: int)
    ensures forall k :: 0 <= k < |IntToString(i)| ==> IsDigit(IntToString(i)[k]) || IntToString(i)[k] == '-'
  {
  }
}
