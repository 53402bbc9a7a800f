/** A notification group of the snitch cog and the edits its commands make to it.

    A group is the dictionary `{"words": [...], "targets": {token: {"id", "type"}}, "message"?}`.
    The targets dictionary keeps its insertion order (the order `list` prints and the order
    targets are notified in): `targetKeys` holds the keys in that order and `targets` the
    entries; `WellFormed` ties the two together. */
module Groups {
  import opened Wrappers
  import opened Seqs
  import opened Discord
  import opened Resolver

  /** A stored target: `{"id": ..., "type": ...}`; the type is the class name of what the
      token resolved to. */
  datatype TargetRef = TargetRef(id: nat, kind: ClassName)

  datatype Group = Group(words: seq<string>, targetKeys: seq<string>, targets: map<string, TargetRef>, message: Option<string>)

  /** `{"words": [], "targets": {}}`: the group a command creates when it is missing. */
  const NewGroup: Group := Group([], [], map[], None)

  ghost predicate WellFormed(g: Group)
  {
    Distinct(g.targetKeys) && forall k :: k in g.targets <==> k in g.targetKeys
  }

  /** The stored form of what the token resolves to: its id and its class. */
  function Resolve(guild: Guild, token: string): Option<TargetRef>
  {
    match IdentifyTarget(guild, token)
    case None => None
    case Some(e) => Some(TargetRef(EntityId(e), ClassOf(e)))
  }

  /** `targets[key] = ref`: a new key goes to the end, an existing key keeps its place. */
  function PutTarget(g: Group, key: string, ref: TargetRef): Group
  {
    g.(targetKeys := if key in g.targets then g.targetKeys else g.targetKeys + [key],
       targets := g.targets[key := ref])
  }

  /** `_identify_target` in the guild followed by the stored form, as a function of the
      token. The edits below take the resolution as a parameter, so that their properties
      hold whatever the guild holds. */
  function Resolution(guild: Guild): string -> Option<TargetRef>
  {
    (token: string) => Resolve(guild, token)
  }

  /** One token of `snitch to`: stored under its literal text when it resolves, ignored
      otherwise. */
  function AddTarget(g: Group, resolve: string -> Option<TargetRef>, token: string): Group
  {
    Attach(g, token, resolve(token))
  }

  /** What `snitch to` does with a token once it is resolved: stores it, or nothing. */
  function Attach(g: Group, token: string, coerced: Option<TargetRef>): Group
  {
    match coerced
    case None => g
    case Some(ref) => PutTarget(g, token, ref)
  }

  /** The tokens of `snitch to`, one after the other. */
  function AddTargets(g: Group, resolve: string -> Option<TargetRef>, tokens: seq<string>): Group
    decreases |tokens|
  {
    if |tokens| == 0 then g
    else AddTarget(AddTargets(g, resolve, tokens[..|tokens| - 1]), resolve, tokens[|tokens| - 1])
  }

  /** Handling one more token of `snitch to` attaches what it resolves to. */
  lemma AddTargetsStep(g: Group, resolve: string -> Option<TargetRef>, tokens: seq<string>, i: nat)
    requires i < |tokens|
    ensures AddTargets(g, resolve, tokens[..i + 1]) == Attach(AddTargets(g, resolve, tokens[..i]), tokens[i], resolve(tokens[i]))
  {
    assert tokens[..i + 1][..i] == tokens[..i];
  }

  /** `targets.pop(key)` when the key is present; nothing otherwise. */
  function DropTarget(g: Group, key: string): Group
  {
    if key in g.targets
    then g.(targetKeys := Filter(g.targetKeys, (k: string) => k != key), targets := g.targets - {key})
    else g
  }

  /** The tokens of `snitch notto`, one after the other. */
  function DropTargets(g: Group, keys: seq<string>): Group
    decreases |keys|
  {
    if |keys| == 0 then g
    else DropTarget(DropTargets(g, keys[..|keys| - 1]), keys[|keys| - 1])
  }

  /** One word of `snitch on`: appended unless an exactly equal word is stored. */
  function AddWord(ws: seq<string>, w: string): seq<string>
  {
    if w in ws then ws else ws + [w]
  }

  /** The words of `snitch on`, one after the other. */
  function AddWords(ws: seq<string>, xs: seq<string>): seq<string>
    decreases |xs|
  {
    if |xs| == 0 then ws
    else AddWord(AddWords(ws, xs[..|xs| - 1]), xs[|xs| - 1])
  }

  /** `list.remove(w)`: drops the first occurrence of `w`. */
  function RemoveFirst(ws: seq<string>, w: string): (r: seq<string>)
    requires w in ws
    ensures multiset(r) == multiset(ws) - multiset{w}
  {
    assert ws == [ws[0]] + ws[1..];
    if ws[0] == w then ws[1..] else [ws[0]] + RemoveFirst(ws[1..], w)
  }

  /** The state of a word list part-way through `snitch noton`: the words left, and the
      first word that was not there (which made `list.remove` raise), if any. */
  datatype Removal = Removal(words: seq<string>, missing: Option<string>)

  /** The words of `snitch noton`, one after the other, stopping at the first word that is
      not in the list; the words removed before it stay removed. */
  function RemoveWords(ws: seq<string>, xs: seq<string>): Removal
    decreases |xs|
  {
    if |xs| == 0 then Removal(ws, None)
    else
      var r := RemoveWords(ws, xs[..|xs| - 1]);
      var x := xs[|xs| - 1];
      if r.missing.Some? then r
      else if x in r.words then Removal(RemoveFirst(r.words, x), None)
      else Removal(r.words, Some(x))
  }

  // ---------------------------------------------------------------------------------------
  // Properties of `snitch to`

  lemma PutTargetWellFormed(g: Group, key: string, ref: TargetRef)
    requires WellFormed(g)
    ensures WellFormed(PutTarget(g, key, ref))
  {
  }

  lemma AttachWellFormed(g: Group, token: string, coerced: Option<TargetRef>)
    requires WellFormed(g)
    ensures WellFormed(Attach(g, token, coerced))
  {
    if coerced.Some? {
      PutTargetWellFormed(g, token, coerced.value);
    }
  }

  /** `snitch to` keeps a group well formed. */
  lemma {:induction false} AddTargetsWellFormed(g: Group, resolve: string -> Option<TargetRef>, tokens: seq<string>)
    requires WellFormed(g)
    ensures WellFormed(AddTargets(g, resolve, tokens))
    decreases |tokens|
  {
    if |tokens| > 0 {
      var prev := AddTargets(g, resolve, tokens[..|tokens| - 1]);
      AddTargetsWellFormed(g, resolve, tokens[..|tokens| - 1]);
      match resolve(tokens[|tokens| - 1])
      case None =>
      case Some(ref) => PutTargetWellFormed(prev, tokens[|tokens| - 1], ref);
    }
  }

  /** `snitch to` stores every token that resolves, under its literal text, with the id
      and class name it resolves to (overwriting an earlier entry); it keeps every entry
      whose key is not among the tokens; it adds no other key; and it leaves the words
      and the message alone. */
  lemma {:induction false} AddTargetsStoresResolved(g: Group, resolve: string -> Option<TargetRef>, tokens: seq<string>)
    ensures var r := AddTargets(g, resolve, tokens);
      && r.words == g.words && r.message == g.message
      && (forall k :: k in r.targets <==> k in g.targets || (k in tokens && resolve(k).Some?))
      && (forall k :: k in tokens && resolve(k).Some? ==>
            k in r.targets && r.targets[k] == resolve(k).value)
      && (forall k :: k in g.targets && k !in tokens ==> k in r.targets && r.targets[k] == g.targets[k])
    decreases |tokens|
  {
    if |tokens| > 0 {
      var init := tokens[..|tokens| - 1];
      var last := tokens[|tokens| - 1];
      AddTargetsStoresResolved(g, resolve, init);
      assert forall k :: k in tokens <==> k in init || k == last;
    }
  }

  /** Tokens that resolve to nothing leave the group exactly as it was. */
  lemma {:induction false} AddTargetsUnresolved(g: Group, resolve: string -> Option<TargetRef>, tokens: seq<string>)
    requires forall t :: t in tokens ==> resolve(t).None?
    ensures AddTargets(g, resolve, tokens) == g
    decreases |tokens|
  {
    if |tokens| > 0 {
      assert tokens[|tokens| - 1] in tokens;
      AddTargetsUnresolved(g, resolve, tokens[..|tokens| - 1]);
    }
  }

  // ---------------------------------------------------------------------------------------
  // Properties of `snitch notto`

  lemma DropTargetWellFormed(g: Group, key: string)
    requires WellFormed(g)
    ensures WellFormed(DropTarget(g, key))
  {
    if key in g.targets {
      var ks := Filter(g.targetKeys, (k: string) => k != key);
      FilterDistinct(g.targetKeys, (k: string) => k != key);
    }
  }

  lemma {:induction false} FilterDistinct(xs: seq<string>, p: string -> bool)
    requires Distinct(xs)
    ensures Distinct(Filter(xs, p))
  {
    if |xs| > 0 {
      FilterDistinct(xs[1..], p);
      assert xs[0] !in xs[1..];
    }
  }

  /** `snitch notto` on an existing group removes exactly the named keys that are present,
      keeps the group well formed, and leaves the words and the message alone. */
  lemma {:induction false} DropTargetsRemovesNamed(g: Group, keys: seq<string>)
    requires WellFormed(g)
    ensures var r := DropTargets(g, keys);
      && WellFormed(r)
      && r.words == g.words && r.message == g.message
      && r.targets == g.targets - (set k | k in keys)
    decreases |keys|
  {
    if |keys| > 0 {
      var init := keys[..|keys| - 1];
      var last := keys[|keys| - 1];
      DropTargetsRemovesNamed(g, init);
      DropTargetWellFormed(DropTargets(g, init), last);
      assert (set k | k in keys) == (set k | k in init) + {last};
    }
  }

  // ---------------------------------------------------------------------------------------
  // Properties of `snitch on`

  /** `snitch on` keeps the existing words in their order at the front, stores every word
      given (exactly as typed: "Foo" and "foo" are different words), adds nothing else, and
      keeps a duplicate-free list duplicate-free. */
  lemma {:induction false} AddWordsExtends(ws: seq<string>, xs: seq<string>)
    ensures var r := AddWords(ws, xs);
      && |ws| <= |r| && r[..|ws|] == ws
      && (forall w :: w in r <==> w in ws || w in xs)
      && (Distinct(ws) ==> Distinct(r))
    decreases |xs|
  {
    if |xs| > 0 {
      var init := xs[..|xs| - 1];
      AddWordsExtends(ws, init);
      assert forall w :: w in xs <==> w in init || w == xs[|xs| - 1];
      var prev := AddWords(ws, init);
      assert (prev + [xs[|xs| - 1]])[..|ws|] == prev[..|ws|];
    }
  }

  /** Adding words that are all stored already changes nothing. */
  lemma {:induction false} AddWordsPresent(ws: seq<string>, xs: seq<string>)
    requires forall x :: x in xs ==> x in ws
    ensures AddWords(ws, xs) == ws
    decreases |xs|
  {
    if |xs| > 0 {
      assert xs[|xs| - 1] in xs;
      AddWordsPresent(ws, xs[..|xs| - 1]);
    }
  }

  /** `snitch on` is idempotent: adding the same words a second time gives the same list. */
  lemma AddWordsIdempotent(ws: seq<string>, xs: seq<string>)
    ensures AddWords(AddWords(ws, xs), xs) == AddWords(ws, xs)
  {
    AddWordsExtends(ws, xs);
    AddWordsPresent(AddWords(ws, xs), xs);
  }

  /** Words are compared exactly, not ignoring case. */
  lemma AddWordsKeepsCase()
    ensures AddWords([], ["Wifi", "wifi"]) == ["Wifi", "wifi"]
  {
    assert ["Wifi", "wifi"][..1] == ["Wifi"];
    assert "wifi" !in ["Wifi"];
  }

  // ---------------------------------------------------------------------------------------
  // Properties of `snitch noton`

  /** `snitch noton` succeeds exactly when every word given is in the list (as often as it is
      given); it then takes away exactly those words. When it fails, the reported word is one
      of the words given that was no longer in the list. */
  lemma {:induction false} RemoveWordsSpec(ws: seq<string>, xs: seq<string>)
    ensures var r := RemoveWords(ws, xs);
      && (r.missing.None? <==> multiset(xs) <= multiset(ws))
      && (r.missing.None? ==> multiset(r.words) == multiset(ws) - multiset(xs))
      && (r.missing.Some? ==> r.missing.value in xs)
    decreases |xs|
  {
    if |xs| > 0 {
      var init, x := xs[..|xs| - 1], xs[|xs| - 1];
      assert xs == init + [x];
      RemoveWordsSpec(ws, init);
      var r := RemoveWords(ws, init);
      if r.missing.None? {
        RemoveCountStep(multiset(ws), multiset(init), multiset(r.words), x);
      } else {
        MissingCountStays(multiset(ws), multiset(init), x);
      }
    }
  }

  /** Counting for one more word once the earlier ones were all removed: it is still present
      exactly when the words removed so far, plus it, fit in the original list; removing
      it leaves the original list less all of them. */
  lemma RemoveCountStep(m: multiset<string>, p: multiset<string>, rest: multiset<string>, x: string)
    requires p <= m && rest == m - p
    ensures x in rest <==> p + multiset{x} <= m
    ensures x in rest ==> rest - multiset{x} == m - (p + multiset{x})
  {
    if x !in rest {
      assert (p + multiset{x})[x] > m[x];
    }
  }

  /** Counting for one more word once an earlier one was missing: the words still do not fit. */
  lemma MissingCountStays(m: multiset<string>, p: multiset<string>, x: string)
    requires !(p <= m)
    ensures !(p + multiset{x} <= m)
  {
    assert p <= p + multiset{x};
  }

  /** Once a word is missing, the later words are not looked at: the outcome is the one at
      the first missing word. */
  lemma {:induction false} RemoveWordsStops(ws: seq<string>, xs: seq<string>, i: nat)
    requires i <= |xs| && RemoveWords(ws, xs[..i]).missing.Some?
    ensures RemoveWords(ws, xs) == RemoveWords(ws, xs[..i])
    decreases |xs|
  {
    if i < |xs| {
      assert xs[..|xs| - 1][..i] == xs[..i];
      RemoveWordsStops(ws, xs[..|xs| - 1], i);
    } else {
      assert xs[..i] == xs;
    }
  }

  // ---------------------------------------------------------------------------------------
  // Commands undoing each other

  /** `snitch notto` with the tokens just given to `snitch to` leaves exactly the entries
      the group had under other keys. */
  lemma ToThenNotTo(g: Group, resolve: string -> Option<TargetRef>, tokens: seq<string>)
    requires WellFormed(g)
    ensures DropTargets(AddTargets(g, resolve, tokens), tokens).targets == g.targets - (set k | k in tokens)
  {
    AddTargetsWellFormed(g, resolve, tokens);
    AddTargetsStoresResolved(g, resolve, tokens);
    DropTargetsRemovesNamed(AddTargets(g, resolve, tokens), tokens);
  }

  /** Words not yet stored are appended in the order given. */
  lemma {:induction false} AddWordsFresh(ws: seq<string>, xs: seq<string>)
    requires Distinct(xs) && forall x :: x in xs ==> x !in ws
    ensures AddWords(ws, xs) == ws + xs
    decreases |xs|
  {
    if |xs| > 0 {
      var init, last := xs[..|xs| - 1], xs[|xs| - 1];
      assert Distinct(init);
      AddWordsFresh(ws, init);
      assert last !in init;
      assert xs == init + [last];
    }
  }

  /** `snitch noton` with the new words just given to `snitch on` succeeds and gives back
      the words the group had. */
  lemma OnThenNotOn(ws: seq<string>, xs: seq<string>)
    requires Distinct(xs) && forall x :: x in xs ==> x !in ws
    ensures RemoveWords(AddWords(ws, xs), xs) == Removal(ws, None)
  {
    AddWordsFresh(ws, xs);
    RemoveWordsOfSuffix(ws, xs, |xs|);
    assert xs[..|xs|] == xs;
  }

  /** One more word of `snitch noton`, present in what is left, removes its first occurrence. */
  lemma RemoveWordsStep(ws: seq<string>, xs: seq<string>, i: nat, left: seq<string>)
    requires i < |xs| && RemoveWords(ws, xs[..i]) == Removal(left, None) && xs[i] in left
    ensures RemoveWords(ws, xs[..i + 1]) == Removal(RemoveFirst(left, xs[i]), None)
  {
    assert xs[..i + 1][..i] == xs[..i];
  }

  /** Removing the first `i` of the appended words one by one takes them off the end. */
  lemma {:induction false} RemoveWordsOfSuffix(ws: seq<string>, xs: seq<string>, i: nat)
    requires Distinct(xs) && forall x :: x in xs ==> x !in ws
    requires i <= |xs|
    ensures RemoveWords(ws + xs, xs[..i]) == Removal(ws + xs[i..], None)
  {
    if i == 0 {
      assert xs[0..] == xs;
    } else {
      RemoveWordsOfSuffix(ws, xs, i - 1);
      assert xs[..i][..i - 1] == xs[..i - 1];
      var x := xs[i - 1];
      var rest := ws + xs[i - 1..];
      assert rest == ws + [x] + xs[i..];
      assert x in rest by { assert rest[|ws|] == x; }
      RemoveFirstSkips(ws, x, xs[i..]);
    }
  }

  /** `list.remove` of a word absent from the front part takes the first occurrence after it. */
  lemma {:induction false} RemoveFirstSkips(ws: seq<string>, x: string, rest: seq<string>)
    requires x !in ws
    ensures x in ws + [x] + rest && RemoveFirst(ws + [x] + rest, x) == ws + rest
    decreases |ws|
  {
    var s := ws + [x] + rest;
    assert s[|ws|] == x;
    if |ws| == 0 {
      assert s[0] == x && s[1..] == rest;
    } else {
      assert s[0] == ws[0] && ws[0] != x;
      assert s[1..] == ws[1..] + [x] + rest;
      RemoveFirstSkips(ws[1..], x, rest);
      assert RemoveFirst(s, x) == [ws[0]] + (ws[1..] + rest);
      assert ws == [ws[0]] + ws[1..];
    }
  }
}
