/** The word matcher of the snitch cog (`_check_words`): the words of a group become the
    pattern `\bw1\b|\bw2\b|...` (each word escaped, matched ignoring case) and the matches
    are the distinct substrings `findall` returns.

    `\w` is taken to be an ASCII letter, an ASCII digit or `_`; case is ASCII case. */
module Matcher {
  import opened Wrappers
  import opened Seqs
  import opened Text

  predicate IsWordChar(c: char)
  {
    IsAsciiLetter(c) || IsDigit(c) || c == '_'
  }

  /** `\b` holds at position `p` of `t`: a word character on exactly one side. */
  predicate Boundary(t: string, p: int)
    requires 0 <= p <= |t|
  {
    (p > 0 && IsWordChar(t[p - 1])) != (p < |t| && IsWordChar(t[p]))
  }

  /** The alternative `\b<escaped w>\b` matches `t` at position `p`: the text there equals
      `w` ignoring case, with a word boundary on both sides. Every character of `w` stands
      for itself, as `re.escape` makes it. */
  predicate OccursAt(t: string, p: int, w: string)
  {
    0 <= p && p + |w| <= |t| && Boundary(t, p) && Boundary(t, p + |w|)
    && EqualsIgnoreCase(t[p..p + |w|], w)
  }

  /** `m` is a piece of `t` matched by the alternative for some configured word. */
  ghost predicate IsMatch(t: string, ws: seq<string>, m: string)
  {
    exists q, i :: 0 <= i < |ws| && OccursAt(t, q, ws[i]) && m == t[q..q + |ws[i]|]
  }

  /** The alternative the pattern takes at position `p`: the first word, in configured
      order, whose alternative matches there. When `allowEmpty` is false (the scan just
      produced an empty match at `p`), only a non-empty match counts. */
  function Alternative(t: string, p: int, ws: seq<string>, allowEmpty: bool): (r: Option<nat>)
    ensures r.Some? ==> r.value < |ws| && (allowEmpty || |ws[r.value]| > 0) && OccursAt(t, p, ws[r.value])
    ensures r.Some? ==> forall j :: 0 <= j < r.value && (allowEmpty || |ws[j]| > 0) ==> !OccursAt(t, p, ws[j])
    ensures r.None? ==> forall i :: 0 <= i < |ws| && (allowEmpty || |ws[i]| > 0) ==> !OccursAt(t, p, ws[i])
  {
    FirstIndex(ws, (w: string) => (allowEmpty || |w| > 0) && OccursAt(t, p, w))
  }

  /** `pattern.findall(t[p:])` continuing a scan: matches are taken left to right without
      overlapping; after a non-empty match the scan resumes at its end; after an empty match
      it retries the same position for a non-empty match only, then moves on. */
  function FindAll(t: string, ws: seq<string>, p: nat, allowEmpty: bool): seq<string>
    requires p <= |t|
    decreases |t| - p, if allowEmpty then 1 else 0
  {
    match Alternative(t, p, ws, allowEmpty)
    case Some(i) =>
      if |ws[i]| > 0 then [t[p..p + |ws[i]|]] + FindAll(t, ws, p + |ws[i]|, true)
      else [""] + FindAll(t, ws, p, false)
    case None =>
      if p == |t| then [] else FindAll(t, ws, p + 1, true)
  }

  /** The matches of a group's words in a message's content, each distinct match once, in
      order of first occurrence. A group without words has no pattern and no matches. */
  function MatchedWords(t: string, ws: seq<string>): (r: seq<string>)
    ensures |ws| == 0 ==> r == []
    ensures Distinct(r)
  {
    if |ws| == 0 then [] else Dedup(FindAll(t, ws, 0, true))
  }

  /** Everything the scan returns is a piece of the text matched by some word's alternative. */
  lemma {:induction false} FindAllSound(t: string, ws: seq<string>, p: nat, allowEmpty: bool)
    requires p <= |t|
    ensures forall m :: m in FindAll(t, ws, p, allowEmpty) ==> IsMatch(t, ws, m)
    decreases |t| - p, if allowEmpty then 1 else 0
  {
    match Alternative(t, p, ws, allowEmpty)
    case Some(i) =>
      var m0 := t[p..p + |ws[i]|];
      MatchAtIsMatch(t, ws, p, i);
      var q: nat := if |ws[i]| > 0 then p + |ws[i]| else p;
      FindAllSound(t, ws, q, |ws[i]| > 0);
      if |ws[i]| > 0 {
        FindAllAfterMatch(t, ws, p, allowEmpty, i);
      } else {
        FindAllAfterEmptyMatch(t, ws, p, allowEmpty, i);
        assert m0 == "";
      }
      forall m | m in FindAll(t, ws, p, allowEmpty)
        ensures IsMatch(t, ws, m)
      {
        if m != m0 {
          assert m in FindAll(t, ws, q, |ws[i]| > 0);
        }
      }
    case None =>
      if p < |t| {
        FindAllSound(t, ws, p + 1, true);
      }
  }

  /** Where a non-empty alternative matches, the scan returns the matched piece first and
      goes on after it. */
  lemma FindAllAfterMatch(t: string, ws: seq<string>, p: nat, allowEmpty: bool, i: nat)
    requires p <= |t| && Alternative(t, p, ws, allowEmpty) == Some(i) && |ws[i]| > 0
    ensures FindAll(t, ws, p, allowEmpty) == [t[p..p + |ws[i]|]] + FindAll(t, ws, p + |ws[i]|, true)
  {
  }

  /** Where an empty alternative matches, the scan returns the empty string and retries the
      same place refusing another empty match. */
  lemma FindAllAfterEmptyMatch(t: string, ws: seq<string>, p: nat, allowEmpty: bool, i: nat)
    requires p <= |t| && Alternative(t, p, ws, allowEmpty) == Some(i) && |ws[i]| == 0
    ensures FindAll(t, ws, p, allowEmpty) == [""] + FindAll(t, ws, p, false)
  {
  }

  lemma MatchAtIsMatch(t: string, ws: seq<string>, p: int, i: nat)
    requires i < |ws| && OccursAt(t, p, ws[i])
    ensures IsMatch(t, ws, t[p..p + |ws[i]|])
  {
  }

  /** The scan finds something as soon as some word's alternative matches at or after the
      position where it starts (strictly after, when it starts by refusing empty matches). */
  lemma {:induction false} FindAllFinds(t: string, ws: seq<string>, p: nat, allowEmpty: bool, q: int, i: nat)
    requires p <= q && (allowEmpty || p < q)
    requires i < |ws| && OccursAt(t, q, ws[i])
    ensures FindAll(t, ws, p, allowEmpty) != []
    decreases |t| - p, if allowEmpty then 1 else 0
  {
    if Alternative(t, p, ws, allowEmpty).None? {
      FindAllFinds(t, ws, p + 1, true, q, i);
    }
  }

  /** Every match returned is a piece of the text that equals a configured word ignoring
      case and sits between word boundaries. */
  lemma MatchesAreConfiguredWords(t: string, ws: seq<string>)
    ensures forall m :: m in MatchedWords(t, ws) ==> IsMatch(t, ws, m)
  {
    if |ws| > 0 {
      FindAllSound(t, ws, 0, true);
    }
  }

  /** A group notifies exactly when one of its words occurs in the text, ignoring case,
      between word boundaries; a group without words never notifies. */
  lemma NotifiesIffSomeWordOccurs(t: string, ws: seq<string>)
    ensures |MatchedWords(t, ws)| > 0 <==> exists q, i :: 0 <= i < |ws| && OccursAt(t, q, ws[i])
  {
    if |MatchedWords(t, ws)| > 0 {
      MatchesAreConfiguredWords(t, ws);
      assert IsMatch(t, ws, MatchedWords(t, ws)[0]);
    }
    if exists q, i :: 0 <= i < |ws| && OccursAt(t, q, ws[i]) {
      var q, i :| 0 <= i < |ws| && OccursAt(t, q, ws[i]);
      FindAllFinds(t, ws, 0, true, q, i);
      assert FindAll(t, ws, 0, true)[0] in FindAll(t, ws, 0, true);
    }
  }

  /** Regular-expression metacharacters in a word are literal: a match agrees with its word
      at every position where the word holds something other than a letter. */
  lemma MetacharactersAreLiteral(t: string, ws: seq<string>, m: string)
    requires m in MatchedWords(t, ws)
    ensures exists i :: 0 <= i < |ws| && |m| == |ws[i]|
              && forall k :: 0 <= k < |m| && !IsAsciiLetter(ws[i][k]) ==> m[k] == ws[i][k]
  {
    MatchesAreConfiguredWords(t, ws);
    var q, i :| 0 <= i < |ws| && OccursAt(t, q, ws[i]) && m == t[q..q + |ws[i]|];
    forall k | 0 <= k < |m| && !IsAsciiLetter(ws[i][k])
      ensures m[k] == ws[i][k]
    {
      EqualsIgnoreCaseKeepsNonLetters(m, ws[i], k);
    }
  }

  /** For instance the word `a.b` does not match `axb`: the dot is not a wildcard. */
  lemma DotIsNotAWildcard()
    ensures MatchedWords("axb", ["a.b"]) == []
  {
    var t, ws := "axb", ["a.b"];
    forall q, i | 0 <= i < |ws|
      ensures !OccursAt(t, q, ws[i])
    {
      if 0 <= q && q + |ws[i]| <= |t| {
        assert q == 0 && ws[i] == "a.b";
        assert t[q..q + |ws[i]|] == t;
        assert LowerStr(t)[1] != LowerStr(ws[i])[1];
      }
    }
    NotifiesIffSomeWordOccurs(t, ws);
  }
}
