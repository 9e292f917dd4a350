/** The parts of .NET `string` the editor windows rely on: ordinal `Contains` and
    `Replace`, `long.ToString()`, `IsNullOrWhiteSpace` and `Substring(startIndex)`. */
module Strings {
  import opened Wrappers

  /** `s.Contains(pat)` with ordinal comparison. */
  predicate Contains(s: string, pat: string) {
    |pat| <= |s| && (s[..|pat|] == pat || (|s| > 0 && Contains(s[1..], pat)))
  }

  /** `pat` occurs in `s` starting at index `i`. */
  predicate OccursAt(s: string, pat: string, i: int) {
    0 <= i && i + |pat| <= |s| && s[i..i + |pat|] == pat
  }

  /** `Contains` agrees with the positional definition of an occurrence. */
  lemma {:induction false} ContainsIffOccurs(s: string, pat: string)
    ensures Contains(s, pat) <==> exists i :: OccursAt(s, pat, i)
  {
    if |pat| <= |s| && s[..|pat|] != pat && |s| > 0 {
      ContainsIffOccurs(s[1..], pat);
      if Contains(s[1..], pat) {
        var i :| OccursAt(s[1..], pat, i);
        assert s[i + 1..i + 1 + |pat|] == s[1..][i..i + |pat|];
        assert OccursAt(s, pat, i + 1);
      }
      if i :| OccursAt(s, pat, i) {
        assert i != 0;
        assert s[1..][i - 1..i - 1 + |pat|] == s[i..i + |pat|];
        assert OccursAt(s[1..], pat, i - 1);
      }
    } else if |pat| <= |s| && s[..|pat|] == pat {
      assert OccursAt(s, pat, 0);
    }
  }

  /** `s.Replace(pat, rep)` for a non-empty `pat` (the source only uses fixed keywords):
      scans left to right and replaces each non-overlapping occurrence. */
  function Replace(s: string, pat: string, rep: string): (r: string)
    requires |pat| > 0
    ensures !Contains(s, pat) ==> r == s
    decreases |s|
  {
    if |s| < |pat| then s
    else if s[..|pat|] == pat then rep + Replace(s[|pat|..], pat, rep)
    else [s[0]] + Replace(s[1..], pat, rep)
  }

  /** Where no occurrence starts at the front, `Replace` copies the first character and
      scans on. */
  lemma ReplaceStep(s: string, pat: string, rep: string)
    requires |pat| > 0 && |s| > 0 && !OccursAt(s, pat, 0)
    ensures Replace(s, pat, rep) == [s[0]] + Replace(s[1..], pat, rep)
  {
    if |s| >= |pat| {
      assert s[..|pat|] == s[0..|pat|];
    }
  }

  lemma ConsSplit(a: string, r: string)
    requires |a| > 0
    ensures a + r == [a[0]] + (a[1..] + r)
  {
  }

  /** A prefix in which no occurrence can start (here: it has no `{` and the keyword starts
      with one) passes through `Replace` unchanged. */
  lemma {:induction false} ReplaceSkipsPrefix(a: string, b: string, pat: string, rep: string)
    requires |pat| > 0 && pat[0] == '{' && '{' !in a
    ensures Replace(a + b, pat, rep) == a + Replace(b, pat, rep)
    decreases |a|
  {
    if |a| > 0 {
      var s := a + b;
      assert s[0] == a[0] != '{';
      if |s| >= |pat| {
        assert s[0..|pat|][0] != pat[0];
      }
      ReplaceStep(s, pat, rep);
      assert s[1..] == a[1..] + b;
      ReplaceSkipsPrefix(a[1..], b, pat, rep);
      ConsSplit(a, Replace(b, pat, rep));
    } else {
      assert a + b == b;
    }
  }

  /** A prefix at none of whose positions an occurrence starts passes through `Replace`
      unchanged. */
  lemma {:induction false} ReplaceSkipsUnmatched(a: string, b: string, pat: string, rep: string)
    requires |pat| > 0
    requires forall i :: 0 <= i < |a| ==> !OccursAt(a + b, pat, i)
    ensures Replace(a + b, pat, rep) == a + Replace(b, pat, rep)
    decreases |a|
  {
    if |a| > 0 {
      var s := a + b;
      ReplaceStep(s, pat, rep);
      assert s[1..] == a[1..] + b;
      UnmatchedTail(a, b, pat);
      ReplaceSkipsUnmatched(a[1..], b, pat, rep);
      ConsSplit(a, Replace(b, pat, rep));
    } else {
      assert a + b == b;
    }
  }

  lemma UnmatchedTail(a: string, b: string, pat: string)
    requires |a| > 0 && forall i :: 0 <= i < |a| ==> !OccursAt(a + b, pat, i)
    ensures forall i :: 0 <= i < |a[1..]| ==> !OccursAt(a[1..] + b, pat, i)
  {
    var s := a + b;
    assert s[1..] == a[1..] + b;
    forall i | 0 <= i < |a[1..]| ensures !OccursAt(a[1..] + b, pat, i) {
      assert !OccursAt(s, pat, i + 1);
      if i + |pat| <= |s[1..]| {
        assert s[i + 1..i + 1 + |pat|] == s[1..][i..i + |pat|];
      }
    }
  }

  /** No occurrence starts inside `k` or right after it when `k` does not contain `pat`
      and the character that follows `k` does not occur in `pat`. */
  lemma NoOccurrenceBefore(k: string, x: string, pat: string)
    requires |pat| > 0 && !Contains(k, pat) && |x| > 0 && x[0] !in pat
    ensures forall i :: 0 <= i <= |k| ==> !OccursAt(k + x, pat, i)
  {
    ContainsIffOccurs(k, pat);
    forall i | 0 <= i <= |k| ensures !OccursAt(k + x, pat, i) {
      var s := k + x;
      if i + |pat| <= |k| {
        assert s[i..i + |pat|] == k[i..i + |pat|];
        assert !OccursAt(k, pat, i);
      } else if i + |pat| <= |s| {
        assert s[i..i + |pat|][|k| - i] == x[0];
        assert pat[|k| - i] in pat;
      }
    }
  }

  /** A string with no `{` contains no keyword. */
  lemma NoBraceNoKeyword(s: string, pat: string)
    requires |pat| > 0 && pat[0] == '{' && '{' !in s
    ensures !Contains(s, pat)
  {
    ContainsIffOccurs(s, pat);
    forall i ensures !OccursAt(s, pat, i) {
      if 0 <= i && i + |pat| <= |s| {
        assert s[i..i + |pat|][0] == s[i];
      }
    }
  }

  /** A string whose only `{` is its first character, and whose second character differs
      from the keyword's, contains no occurrence of the keyword. */
  lemma ReplaceMismatchedBrace(s: string, pat: string, rep: string)
    requires |pat| > 1 && pat[0] == '{' && |s| > 1 && s[1] != pat[1] && '{' !in s[1..]
    ensures Replace(s, pat, rep) == s
  {
    if |s| >= |pat| {
      assert s[..|pat|][1] != pat[1];
    }
    NoBraceNoKeyword(s[1..], pat);
    assert s == [s[0]] + s[1..];
  }

  /** An occurrence at the start is replaced and scanning continues after it. */
  lemma ReplaceLeading(pat: string, b: string, rep: string)
    requires |pat| > 0
    ensures Replace(pat + b, pat, rep) == rep + Replace(b, pat, rep)
  {
    assert (pat + b)[..|pat|] == pat && (pat + b)[|pat|..] == b;
  }

  /** An occurrence in the left part of a concatenation is an occurrence in the whole. */
  lemma ContainsInLeft(a: string, b: string, x: string)
    requires Contains(a, x)
    ensures Contains(a + b, x)
  {
    ContainsIffOccurs(a, x);
    var i :| OccursAt(a, x, i);
    assert (a + b)[i..i + |x|] == a[i..i + |x|];
    assert OccursAt(a + b, x, i);
    ContainsIffOccurs(a + b, x);
  }

  /** An occurrence in the right part of a concatenation is an occurrence in the whole. */
  lemma ContainsInRight(a: string, b: string, x: string)
    requires Contains(b, x)
    ensures Contains(a + b, x)
  {
    ContainsIffOccurs(b, x);
    var i :| OccursAt(b, x, i);
    assert (a + b)[|a| + i..|a| + i + |x|] == b[i..i + |x|];
    assert OccursAt(a + b, x, |a| + i);
    ContainsIffOccurs(a + b, x);
  }

  /** When `pat` occurs, the result of replacing it contains everything the replacement
      contains. */
  lemma {:induction false} ReplaceKeepsReplacement(s: string, pat: string, rep: string, x: string)
    requires |pat| > 0 && Contains(s, pat) && Contains(rep, x)
    ensures Contains(Replace(s, pat, rep), x)
    decreases |s|
  {
    if s[..|pat|] == pat {
      ContainsInLeft(rep, Replace(s[|pat|..], pat, rep), x);
    } else {
      ReplaceKeepsReplacement(s[1..], pat, rep, x);
      ContainsInRight([s[0]], Replace(s[1..], pat, rep), x);
    }
  }

  /** Replacing one keyword keeps every occurrence of another. Both start with `{`, have
      no other `{`, and differ in their second character, so neither can start inside
      the other. */
  lemma {:induction false} ReplaceKeepsOtherKeyword(s: string, pat: string, rep: string, x: string)
    requires |pat| > 1 && pat[0] == '{' && '{' !in pat[1..]
    requires |x| > 1 && x[0] == '{' && '{' !in x[1..] && x[1] != pat[1]
    requires Contains(s, x)
    ensures Contains(Replace(s, pat, rep), x)
    decreases |s|
  {
    ContainsIffOccurs(s, x);
    var i :| OccursAt(s, x, i);
    if |s| < |pat| {
    } else if s[..|pat|] == pat {
      LeadingKeywordBlocks(s, pat, x, i);
      OccurrenceInSuffix(s, x, i, |pat|);
      ReplaceKeepsOtherKeyword(s[|pat|..], pat, rep, x);
      ContainsInRight(rep, Replace(s[|pat|..], pat, rep), x);
    } else if i == 0 {
      ReplaceAtOtherKeyword(s, pat, rep, x);
      ContainsItself(x);
      ContainsInLeft(x, Replace(s[|x|..], pat, rep), x);
    } else {
      OccurrenceInSuffix(s, x, i, 1);
      ReplaceKeepsOtherKeyword(s[1..], pat, rep, x);
      ContainsInRight([s[0]], Replace(s[1..], pat, rep), x);
    }
  }

  /** An occurrence of `x` cannot start inside a leading occurrence of `pat`. */
  lemma LeadingKeywordBlocks(s: string, pat: string, x: string, i: int)
    requires |pat| > 1 && pat[0] == '{' && '{' !in pat[1..]
    requires |x| > 1 && x[0] == '{' && x[1] != pat[1]
    requires |pat| <= |s| && s[..|pat|] == pat && OccursAt(s, x, i)
    ensures i >= |pat|
  {
    assert s[i] == '{' && s[i + 1] == x[1] by {
      assert s[i..i + |x|][0] == x[0] && s[i..i + |x|][1] == x[1];
    }
    assert forall j :: 1 <= j < |pat| ==> s[j] == s[..|pat|][j] && pat[j] == pat[1..][j - 1];
  }

  /** An occurrence at or after `k` is an occurrence in the suffix from `k`. */
  lemma OccurrenceInSuffix(s: string, x: string, i: int, k: nat)
    requires OccursAt(s, x, i) && k <= i
    ensures Contains(s[k..], x)
  {
    assert s[k..][i - k..i - k + |x|] == s[i..i + |x|];
    assert OccursAt(s[k..], x, i - k);
    ContainsIffOccurs(s[k..], x);
  }

  /** A leading occurrence of the keyword `x` passes through replacing `pat` whole. */
  lemma ReplaceAtOtherKeyword(s: string, pat: string, rep: string, x: string)
    requires |pat| > 1 && pat[0] == '{'
    requires |x| > 1 && '{' !in x[1..] && x[1] != pat[1]
    requires |x| <= |s| && s[..|x|] == x
    requires |s| < |pat| || s[..|pat|] != pat
    ensures Replace(s, pat, rep) == x + Replace(s[|x|..], pat, rep)
  {
    var rest := s[|x|..];
    assert s[1..] == x[1..] + rest;
    ReplaceSkipsPrefix(x[1..], rest, pat, rep);
    assert s[0] == x[0];
    ConsSplit(x, Replace(rest, pat, rep));
  }

  lemma ContainsItself(x: string)
    ensures Contains(x, x)
  {
    assert OccursAt(x, x, 0);
    ContainsIffOccurs(x, x);
  }

  /** The decimal digit character of `d`. */
  function Digit(d: nat): (c: char)
    requires d < 10
    ensures '0' <= c <= '9' && c as int - '0' as int == d
  {
    ('0' as int + d) as char
  }

  /** The decimal digits of `n`, most significant first, without leading zeros. */
  function NatString(n: nat): (r: string)
    ensures |r| > 0 && forall i :: 0 <= i < |r| ==> '0' <= r[i] <= '9'
  {
    if n < 10 then [Digit(n)] else NatString(n / 10) + [Digit(n % 10)]
  }

  /** `long.ToString()`: a minus sign for negative values, then the digits of the
      magnitude. The minus sign is the ASCII one, which is what the invariant and most
      cultures use; the 64-bit range of `long` is not enforced. */
  function DecimalString(n: int): (r: string)
    ensures |r| > 0 && '{' !in r
    ensures r[0] == '-' <==> n < 0
  {
    if n < 0 then "-" + NatString(-n) else NatString(n)
  }

  /** The value of a string of decimal digits. */
  function DigitsValue(s: string): nat
    requires forall i :: 0 <= i < |s| ==> '0' <= s[i] <= '9'
  {
    if |s| == 0 then 0 else DigitsValue(s[..|s| - 1]) * 10 + (s[|s| - 1] as int - '0' as int)
  }

  /** Reading a decimal string back. */
  function ParseDecimal(s: string): int
    requires |s| > 0 && forall i :: 0 <= i < |s| ==> '0' <= s[i] <= '9' || (i == 0 && s[i] == '-')
  {
    if s[0] == '-' then var v: int := DigitsValue(s[1..]); -v else DigitsValue(s)
  }

  lemma {:induction false} NatStringRoundTrip(n: nat)
    ensures DigitsValue(NatString(n)) == n
  {
    if n >= 10 {
      NatStringRoundTrip(n / 10);
      var s := NatString(n);
      assert s[..|s| - 1] == NatString(n / 10);
    }
  }

  /** `ToString` loses nothing: the decimal text reads back as the number. */
  lemma DecimalRoundTrip(n: int)
    ensures ParseDecimal(DecimalString(n)) == n
  {
    if n < 0 {
      NatStringRoundTrip(-n);
      assert DecimalString(n)[1..] == NatString(-n);
    } else {
      NatStringRoundTrip(n);
    }
  }

  /** `char.IsWhiteSpace`: the Unicode space separators, the line and paragraph separators,
      and the controls U+0009 to U+000D and U+0085. */
  predicate IsWhiteSpace(c: char) {
    || ('\t' <= c <= '\r') || c == ' ' || c == '\U{0085}' || c == '\U{00A0}' || c == '\U{1680}'
    || ('\U{2000}' <= c <= '\U{200A}') || c == '\U{2028}' || c == '\U{2029}' || c == '\U{202F}'
    || c == '\U{205F}' || c == '\U{3000}'
  }

  /** `string.IsNullOrWhiteSpace` for a non-null string. */
  predicate IsBlank(s: string) {
    forall i :: 0 <= i < |s| ==> IsWhiteSpace(s[i])
  }

  /** `path.Substring(dataPath.Length - "Assets".Length)`, the project-relative path of a
      path picked in a file dialog. `Substring` throws (`None`) when the start index is
      negative or past the end. */
  function RelativePath(path: string, dataPath: string): (r: Option<string>)
    ensures r.Some? <==> 6 <= |dataPath| <= |path| + 6
    ensures r.Some? ==> |r.value| == |path| - (|dataPath| - 6) && path == path[..|dataPath| - 6] + r.value
  {
    var start := |dataPath| - |"Assets"|;
    if 0 <= start <= |path| then Some(path[start..]) else None
  }

  /** For a path inside the project's data folder `<project>/Assets`, the relative path is
      `Assets` followed by the rest of the path. */
  lemma RelativePathInsideAssets(project: string, rest: string)
    ensures RelativePath(project + "Assets" + rest, project + "Assets") == Some("Assets" + rest)
  {
    var path := project + "Assets" + rest;
    assert path[|project|..] == "Assets" + rest;
  }
}
