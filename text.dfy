/** The Python string operations the cogs rely on: `lower`, `strip`, `isnumeric`, `int`,
    `startswith`, `join` and `replace`. Characters outside ASCII have no case here. */
module Text {

  function Lower(c: char): char
  {
    if 'A' <= c <= 'Z' then (c as int - 'A' as int + 'a' as int) as char else c
  }

  /** `s.lower()` */
  function LowerStr(s: string): string
  {
    seq(|s|, i requires 0 <= i < |s| => Lower(s[i]))
  }

  /** `a.lower() == b.lower()` */
  predicate EqualsIgnoreCase(a: string, b: string)
  {
    LowerStr(a) == LowerStr(b)
  }

  predicate IsAsciiLetter(c: char)
  {
    'A' <= c <= 'Z' || 'a' <= c <= 'z'
  }

  /** Two strings equal ignoring case agree exactly on every position where one of them
      holds a character that is not a letter: case folding never relates a letter to a
      non-letter, so punctuation (and regular-expression metacharacters) must match literally. */
  lemma EqualsIgnoreCaseKeepsNonLetters(a: string, b: string, k: nat)
    requires EqualsIgnoreCase(a, b) && k < |b| && !IsAsciiLetter(b[k])
    ensures |a| == |b| && a[k] == b[k]
  {
    assert |LowerStr(a)| == |a|;
    assert LowerStr(a)[k] == LowerStr(b)[k];
  }

  /** `s.startswith(prefix)` */
  predicate StartsWith(s: string, prefix: string)
  {
    |prefix| <= |s| && s[..|prefix|] == prefix
  }

  /** `sub` occurs in `s` starting at index `i`. */
  predicate InfixAt(s: string, i: int, sub: string)
  {
    0 <= i && i + |sub| <= |s| && s[i..i + |sub|] == sub
  }

  /** `sub in s` */
  ghost predicate IsInfix(sub: string, s: string)
  {
    exists i :: InfixAt(s, i, sub)
  }

  /** An infix of the middle part is an infix of the whole. */
  lemma InfixOfConcat(sub: string, a: string, b: string, c: string)
    requires IsInfix(sub, b)
    ensures IsInfix(sub, a + b + c)
  {
    var i :| InfixAt(b, i, sub);
    assert (a + b + c)[|a| + i..|a| + i + |sub|] == b[i..i + |sub|];
    assert InfixAt(a + b + c, |a| + i, sub);
  }

  /** Removes leading characters that belong to `cs`. */
  function StripLeading(s: string, cs: set<char>): (r: string)
    ensures |r| <= |s| && r == s[|s| - |r|..]
    ensures r != [] ==> r[0] !in cs
    ensures forall i :: 0 <= i < |s| - |r| ==> s[i] in cs
  {
    if |s| > 0 && s[0] in cs then StripLeading(s[1..], cs) else s
  }

  /** Removes trailing characters that belong to `cs`. */
  function StripTrailing(s: string, cs: set<char>): (r: string)
    ensures |r| <= |s| && r == s[..|r|]
    ensures r != [] ==> r[|r| - 1] !in cs
    ensures forall i :: |r| <= i < |s| ==> s[i] in cs
  {
    if |s| > 0 && s[|s| - 1] in cs then StripTrailing(s[..|s| - 1], cs) else s
  }

  /** `s.strip(chars)`: the longest infix of `s` that neither starts nor ends with a
      character of `cs`, obtained by dropping only characters of `cs`. */
  function Strip(s: string, cs: set<char>): (r: string)
    ensures exists i :: InfixAt(s, i, r)
                        && (forall j :: 0 <= j < i ==> s[j] in cs)
                        && (forall j :: i + |r| <= j < |s| ==> s[j] in cs)
    ensures r != [] ==> r[0] !in cs && r[|r| - 1] !in cs
  {
    var l := StripLeading(s, cs);
    var r := StripTrailing(l, cs);
    assert r != [] ==> r[0] == l[0];
    StripBothEnds(s, cs, l, r);
    r
  }

  /** Dropping characters of `cs` from the front of `s` (giving `l`), then from the back of
      `l` (giving `r`), keeps an infix of `s` with only characters of `cs` around it. */
  lemma StripBothEnds(s: string, cs: set<char>, l: string, r: string)
    requires |l| <= |s| && l == s[|s| - |l|..]
    requires forall j :: 0 <= j < |s| - |l| ==> s[j] in cs
    requires |r| <= |l| && r == l[..|r|]
    requires forall j :: |r| <= j < |l| ==> l[j] in cs
    ensures InfixAt(s, |s| - |l|, r)
    ensures forall j :: 0 <= j < |s| - |l| ==> s[j] in cs
    ensures forall j :: |s| - |l| + |r| <= j < |s| ==> s[j] in cs
  {
    var i := |s| - |l|;
    assert s[i..i + |r|] == r;
    forall j | i + |r| <= j < |s|
      ensures s[j] in cs
    {
      assert s[j] == l[j - i];
    }
  }

  predicate IsDigit(c: char)
  {
    '0' <= c <= '9'
  }

  /** `s.isnumeric()` restricted to ASCII digits: non-empty and all digits. */
  predicate IsNumeric(s: string)
  {
    |s| > 0 && forall i :: 0 <= i < |s| ==> IsDigit(s[i])
  }

  /** `int(s)` for a string of decimal digits. */
  function DecimalValue(s: string): nat
    requires forall i :: 0 <= i < |s| ==> IsDigit(s[i])
  {
    if |s| == 0 then 0
    else
      assert IsDigit(s[|s| - 1]);
      DecimalValue(s[..|s| - 1]) * 10 + (s[|s| - 1] as int - '0' as int)
  }

  /** `sep.join(xs)` */
  function Join(xs: seq<string>, sep: string): string
  {
    if |xs| == 0 then ""
    else if |xs| == 1 then xs[0]
    else xs[0] + sep + Join(xs[1..], sep)
  }

  /** Every joined item appears in the joined text. */
  lemma {:induction false} JoinShowsItem(xs: seq<string>, sep: string, k: nat)
    requires k < |xs|
    ensures IsInfix(xs[k], Join(xs, sep))
  {
    if |xs| == 1 {
      assert InfixAt(Join(xs, sep), 0, xs[0]);
    } else if k == 0 {
      assert InfixAt(Join(xs, sep), 0, xs[0]);
    } else {
      JoinShowsItem(xs[1..], sep, k - 1);
      InfixOfConcat(xs[k], xs[0] + sep, Join(xs[1..], sep), "");
      assert xs[0] + sep + Join(xs[1..], sep) + "" == Join(xs, sep);
    }
  }

  /** `s` holds no character `c`. */
  predicate Avoids(s: string, c: char)
  {
    forall i :: 0 <= i < |s| ==> s[i] != c
  }

  lemma AvoidsConcat(a: string, b: string, c: char)
    requires Avoids(a, c) && Avoids(b, c)
    ensures Avoids(a + b, c)
  {
  }

  /** Joining strings that avoid `c` with a separator that avoids `c` gives a string that
      avoids `c`. */
  lemma {:induction false} JoinAvoids(xs: seq<string>, sep: string, c: char)
    requires Avoids(sep, c) && forall k :: 0 <= k < |xs| ==> Avoids(xs[k], c)
    ensures Avoids(Join(xs, sep), c)
  {
    if |xs| > 1 {
      JoinAvoids(xs[1..], sep, c);
    }
  }

  /** `s.replace(pat, rep)`: every non-overlapping occurrence of `pat`, scanning from the left,
      is replaced by `rep`. */
  function Replace(s: string, pat: string, rep: string): string
    requires |pat| > 0
    decreases |s|
  {
    if |s| < |pat| then s
    else if s[..|pat|] == pat then rep + Replace(s[|pat|..], pat, rep)
    else [s[0]] + Replace(s[1..], pat, rep)
  }

  /** A string in which `pat` does not occur is returned unchanged. */
  lemma {:induction false} ReplaceAbsent(s: string, pat: string, rep: string)
    requires |pat| > 0 && !IsInfix(pat, s)
    ensures Replace(s, pat, rep) == s
    decreases |s|
  {
    if |s| >= |pat| {
      assert !InfixAt(s, 0, pat);
      forall i | InfixAt(s[1..], i, pat)
        ensures InfixAt(s, i + 1, pat)
      {
        assert s[i + 1..i + 1 + |pat|] == s[1..][i..i + |pat|];
      }
      ReplaceAbsent(s[1..], pat, rep);
      assert [s[0]] + s[1..] == s;
    }
  }

  /** A leading part that never holds the first character of `pat` is copied unchanged. */
  lemma {:induction false} ReplaceSkipsPrefix(a: string, s: string, pat: string, rep: string)
    requires |pat| > 0 && Avoids(a, pat[0])
    ensures Replace(a + s, pat, rep) == a + Replace(s, pat, rep)
    decreases |a|
  {
    if |a| > 0 {
      var t := a + s;
      if |t| < |pat| {
        ReplaceShort(s, pat, rep);
        ReplaceShort(t, pat, rep);
        assert a + Replace(s, pat, rep) == t;
      } else {
        assert t[..|pat|] != pat by {
          assert t[..|pat|][0] == a[0];
        }
        assert Replace(t, pat, rep) == [t[0]] + Replace(t[1..], pat, rep);
        assert t[1..] == a[1..] + s;
        ReplaceSkipsPrefix(a[1..], s, pat, rep);
        assert t[0] == a[0];
        calc {
          Replace(t, pat, rep);
          [a[0]] + (a[1..] + Replace(s, pat, rep));
          { assert [a[0]] + a[1..] == a; }
          a + Replace(s, pat, rep);
        }
      }
    } else {
      assert a + s == s;
    }
  }

  /** A string that never holds the first character of `pat` is returned unchanged. */
  lemma ReplaceAvoiding(s: string, pat: string, rep: string)
    requires |pat| > 0 && Avoids(s, pat[0])
    ensures Replace(s, pat, rep) == s
  {
    ReplaceSkipsPrefix(s, "", pat, rep);
    ReplaceShort("", pat, rep);
    assert s + "" == s;
  }

  /** A single occurrence of `pat`, between a part that never holds its first character
      and a part the replacement leaves alone, is replaced by `rep`. */
  lemma ReplaceBetween(a: string, pat: string, b: string, rep: string)
    requires |pat| > 0 && Avoids(a, pat[0]) && Replace(b, pat, rep) == b
    ensures Replace(a + pat + b, pat, rep) == a + rep + b
  {
    assert a + pat + b == a + (pat + b);
    ReplaceSkipsPrefix(a, pat + b, pat, rep);
    ReplaceToken(pat, b, rep);
  }

  /** Strings shorter than `pat` are returned unchanged. */
  lemma ReplaceShort(s: string, pat: string, rep: string)
    requires |pat| > 0 && |s| < |pat|
    ensures Replace(s, pat, rep) == s
  {
  }

  /** An occurrence of `pat` at the front is replaced by `rep`. */
  lemma ReplaceToken(pat: string, s: string, rep: string)
    requires |pat| > 0
    ensures Replace(pat + s, pat, rep) == rep + Replace(s, pat, rep)
  {
    assert (pat + s)[..|pat|] == pat;
    assert (pat + s)[|pat|..] == s;
  }
}
