/** The snitch cog: one guild's notification groups (`notifygroups`), the commands that
    edit them, the `list` report, and the message pipeline (`on_message`, `_check_words`)
    that decides which groups notify and what their notifications attempt. */
module Snitch {
  import opened Wrappers
  import opened Seqs
  import opened Text
  import opened Discord
  import opened Resolver
  import opened Groups
  import opened Matcher
  import opened Dispatch

  // ---------------------------------------------------------------------------------------
  // Command replies and outcomes

  /** What a command says in the channel. */
  datatype Reply =
    | WillBeNotified(kind: ClassName, token: string)
    | CouldNotIdentify(token: string)
    | GroupDoesNotExist
    | Removed(token: string)
    | CouldNotFind(token: string)
    | WillTrigger(word: string)
    | NoLongerTriggers(word: string)
    | MessageUpdated(group: string)
    | Cleared

  function ReplyText(r: Reply): string
  {
    match r
    case WillBeNotified(kind, token) => ClassNameText(kind) + " " + token + " will be notified."
    case CouldNotIdentify(token) => "Could not identify " + token + "."
    case GroupDoesNotExist => "Group doesn't exist."
    case Removed(token) => "Removed " + token + "."
    case CouldNotFind(token) => "Couldn't find " + token + "."
    case WillTrigger(word) => word + " will trigger a notification."
    case NoLongerTriggers(word) => word + " will no longer trigger a notification."
    case MessageUpdated(group) => "Message for " + group + " updated."
    case Cleared => "Cleared all snitch settings."
  }

  /** The exception a command body raises, if any. */
  datatype PyError = TypeError | ValueError

  datatype Status = Completed | Raised(error: PyError)

  // ---------------------------------------------------------------------------------------
  // Specification of the commands

  /** `notifygroups.get(group)`, or the fresh group the command starts from when it is
      missing. */
  function Base(groups: map<string, Group>, name: string): Group
  {
    if name in groups then groups[name] else NewGroup
  }

  /** The key order after `notifygroups[group] = ...`: a new group goes to the end. */
  function StoredOrder(order: seq<string>, groups: map<string, Group>, name: string): seq<string>
  {
    if name in groups then order else order + [name]
  }

  /** The reply for one token of `snitch to`: the class it resolved to, or that it resolved
      to nothing. */
  function TargetReplies(resolve: string -> Option<TargetRef>, tokens: seq<string>): seq<Reply>
  {
    Map(tokens, (t: string) => TargetReply(resolve(t), t))
  }

  lemma TargetRepliesStep(resolve: string -> Option<TargetRef>, tokens: seq<string>, i: nat)
    requires i < |tokens|
    ensures TargetReplies(resolve, tokens[..i + 1]) == TargetReplies(resolve, tokens[..i]) + [TargetReply(resolve(tokens[i]), tokens[i])]
  {
    assert tokens[..i + 1] == tokens[..i] + [tokens[i]];
    MapSnoc(tokens[..i], tokens[i], (t: string) => TargetReply(resolve(t), t));
  }

  /** One token of `snitch to`: attaching what it resolves to and appending its reply
      extends both the group and the replies by that token. */
  lemma TargetStep(base: Group, resolve: string -> Option<TargetRef>, tokens: seq<string>, i: nat, g: Group, replies: seq<Reply>)
    requires i < |tokens|
    requires g == AddTargets(base, resolve, tokens[..i])
    requires replies == TargetReplies(resolve, tokens[..i])
    ensures Attach(g, tokens[i], resolve(tokens[i])) == AddTargets(base, resolve, tokens[..i + 1])
    ensures replies + [TargetReply(resolve(tokens[i]), tokens[i])] == TargetReplies(resolve, tokens[..i + 1])
  {
    AddTargetsStep(base, resolve, tokens, i);
    TargetRepliesStep(resolve, tokens, i);
  }

  /** The loop of `snitch to` over its tokens: every token that resolves is stored in the
      group, and every token gets its reply. */
  method ApplyTargets(base: Group, resolve: string -> Option<TargetRef>, tokens: seq<string>) returns (g: Group, replies: seq<Reply>)
    requires WellFormed(base)
    ensures g == AddTargets(base, resolve, tokens) && WellFormed(g)
    ensures replies == TargetReplies(resolve, tokens)
  {
    g := base;
    replies := [];
    var i := 0;
    while i < |tokens|
      invariant 0 <= i <= |tokens|
      invariant g == AddTargets(base, resolve, tokens[..i])
      invariant replies == TargetReplies(resolve, tokens[..i])
    {
      var coerced := resolve(tokens[i]);
      TargetStep(base, resolve, tokens, i, g, replies);
      g := Attach(g, tokens[i], coerced);
      replies := replies + [TargetReply(coerced, tokens[i])];
      i := i + 1;
    }
    assert tokens[..i] == tokens;
    AddTargetsWellFormed(base, resolve, tokens);
  }

  /** The reply for one token of `snitch to`. */
  function TargetReply(coerced: Option<TargetRef>, token: string): Reply
  {
    match coerced
    case Some(ref) => WillBeNotified(ref.kind, token)
    case None => CouldNotIdentify(token)
  }

  /** The replies of `snitch notto` on an existing group: a token is reported removed exactly
      when the group had it and it was not named earlier in the same command. */
  function DropReplies(g: Group, tokens: seq<string>): (r: seq<Reply>)
    requires WellFormed(g)
    ensures |r| == |tokens|
    ensures forall k :: 0 <= k < |r| ==>
      r[k] == if tokens[k] in g.targets && tokens[k] !in tokens[..k] then Removed(tokens[k]) else CouldNotFind(tokens[k])
    decreases |tokens|
  {
    if |tokens| == 0 then []
    else
      var init, t := tokens[..|tokens| - 1], tokens[|tokens| - 1];
      var r0 := DropReplies(g, init);
      DropTargetsRemovesNamed(g, init);
      assert forall k :: 0 <= k < |init| ==> init[..k] == tokens[..k];
      r0 + [if t in DropTargets(g, init).targets then Removed(t) else CouldNotFind(t)]
  }

  /** One reply per word. */
  function WordReplies(words: seq<string>, adding: bool): (r: seq<Reply>)
    ensures |r| == |words|
    ensures forall k :: 0 <= k < |r| ==> r[k] == if adding then WillTrigger(words[k]) else NoLongerTriggers(words[k])
  {
    seq(|words|, k requires 0 <= k < |words| => if adding then WillTrigger(words[k]) else NoLongerTriggers(words[k]))
  }

  // ---------------------------------------------------------------------------------------
  // The `list` report

  /** One line of the report: the group, its target keys and its words. */
  function GroupLine(name: string, g: Group): string
  {
    "\t" + name + " tells " + Join(g.targetKeys, ", ") + " about " + Join(g.words, ", ") + "\n"
  }

  /** The lines for the groups in `order`, one after the other. */
  function Lines(groups: map<string, Group>, order: seq<string>): string
    requires forall k :: k in order ==> k in groups
    decreases |order|
  {
    if |order| == 0 then ""
    else
      var n := order[|order| - 1];
      assert n in order;
      Lines(groups, order[..|order| - 1]) + GroupLine(n, groups[n])
  }

  const ReportHeader: string := "Filtered in this server:\n"
  const NoGroupsText: string := "There are no current notification groups set up in this server."

  /** What `snitch list` sends: a notice when there are no groups, the report otherwise. */
  datatype Listing = NoGroups | Report(text: string)

  function ListingOf(groups: map<string, Group>, order: seq<string>): Listing
    requires forall k :: k in order ==> k in groups
  {
    if |order| == 0 then NoGroups else Report(ReportHeader + Lines(groups, order))
  }

  /** The report names every group, and for each group every target key and every word. */
  lemma {:induction false} LinesShowGroup(groups: map<string, Group>, order: seq<string>, i: nat)
    requires forall k :: k in order ==> k in groups
    requires i < |order|
    ensures IsInfix(GroupLine(order[i], groups[order[i]]), Lines(groups, order))
    decreases |order|
  {
    var init := order[..|order| - 1];
    var prefix := Lines(groups, init);
    if i == |order| - 1 {
      InfixSelf(GroupLine(order[i], groups[order[i]]));
      InfixOfConcat(GroupLine(order[i], groups[order[i]]), prefix, GroupLine(order[i], groups[order[i]]), "");
      assert prefix + GroupLine(order[i], groups[order[i]]) + "" == Lines(groups, order);
    } else {
      assert init[i] == order[i];
      LinesShowGroup(groups, init, i);
      var last := order[|order| - 1];
      InfixOfConcat(GroupLine(order[i], groups[order[i]]), "", prefix, GroupLine(last, groups[last]));
      assert "" + prefix + GroupLine(last, groups[last]) == Lines(groups, order);
    }
  }

  lemma InfixSelf(s: string)
    ensures IsInfix(s, s)
  {
    assert InfixAt(s, 0, s);
  }

  /** An infix of an infix is an infix. */
  lemma InfixTrans(a: string, b: string, c: string)
    requires IsInfix(a, b) && IsInfix(b, c)
    ensures IsInfix(a, c)
  {
    var i :| InfixAt(b, i, a);
    var j :| InfixAt(c, j, b);
    forall t | 0 <= t < |a|
      ensures c[j + i + t] == a[t]
    {
      assert b[i + t] == a[t];
      assert c[j + (i + t)] == b[i + t];
    }
    assert c[j + i..j + i + |a|] == a;
    assert InfixAt(c, j + i, a);
  }

  /** A report line shows the group's name, each of its target keys and each of its words. */
  lemma LineShowsParts(name: string, g: Group)
    ensures var line := GroupLine(name, g);
      && IsInfix("\t" + name + " tells ", line)
      && (forall k :: 0 <= k < |g.targetKeys| ==> IsInfix(g.targetKeys[k], line))
      && (forall k :: 0 <= k < |g.words| ==> IsInfix(g.words[k], line))
  {
    var line := GroupLine(name, g);
    var keys, words := Join(g.targetKeys, ", "), Join(g.words, ", ");
    var head := "\t" + name + " tells ";
    assert line == head + keys + (" about " + words + "\n");
    InfixSelf(head);
    InfixOfConcat(head, "", head, keys + (" about " + words + "\n"));
    assert "" + head + (keys + (" about " + words + "\n")) == line;
    InfixSelf(keys);
    InfixOfConcat(keys, head, keys, " about " + words + "\n");
    forall k | 0 <= k < |g.targetKeys|
      ensures IsInfix(g.targetKeys[k], line)
    {
      JoinShowsItem(g.targetKeys, ", ", k);
      InfixTrans(g.targetKeys[k], keys, line);
    }
    assert line == head + keys + " about " + words + "\n";
    InfixSelf(words);
    InfixOfConcat(words, head + keys + " about ", words, "\n");
    forall k | 0 <= k < |g.words|
      ensures IsInfix(g.words[k], line)
    {
      JoinShowsItem(g.words, ", ", k);
      InfixTrans(g.words[k], words, line);
    }
  }

  /** `snitch list` reports whenever there is a group, and the report shows every group
      by name together with every one of its target keys and every one of its words. */
  lemma ListingShowsEverything(groups: map<string, Group>, order: seq<string>, i: nat)
    requires forall k :: k in order ==> k in groups
    requires i < |order|
    ensures ListingOf(groups, order).Report?
    ensures var text := ListingOf(groups, order).text;
      var g := groups[order[i]];
      && IsInfix("\t" + order[i] + " tells ", text)
      && (forall k :: 0 <= k < |g.targetKeys| ==> IsInfix(g.targetKeys[k], text))
      && (forall k :: 0 <= k < |g.words| ==> IsInfix(g.words[k], text))
  {
    var name, g := order[i], groups[order[i]];
    var line := GroupLine(name, g);
    var lines := Lines(groups, order);
    var text := ListingOf(groups, order).text;
    LinesShowGroup(groups, order, i);
    InfixSelf(lines);
    InfixOfConcat(lines, ReportHeader, lines, "");
    assert ReportHeader + lines + "" == text;
    InfixTrans(line, lines, text);
    LineShowsParts(name, g);
    InfixTrans("\t" + name + " tells ", line, text);
    forall k | 0 <= k < |g.targetKeys|
      ensures IsInfix(g.targetKeys[k], text)
    {
      InfixTrans(g.targetKeys[k], line, text);
    }
    forall k | 0 <= k < |g.words|
      ensures IsInfix(g.words[k], text)
    {
      InfixTrans(g.words[k], line, text);
    }
  }

  // ---------------------------------------------------------------------------------------
  // The message pipeline

  /** The clean content starts with the prefix, or with one of the prefixes of the list. */
  predicate IsCommand(clean: string, prefixes: Prefixes)
  {
    match prefixes
    case OnePrefix(p) => StartsWith(clean, p)
    case PrefixList(ps) => exists k :: 0 <= k < |ps| && StartsWith(clean, ps[k])
    case OtherPrefixes => false
  }

  datatype FilterReason = NoGuild | CogDisabled | CommandPrefix | NotHumanMember | AutomodImmune

  /** Whether `on_message` goes on to check the words, or the first check that stops it. */
  datatype Verdict = Admitted | Filtered(reason: FilterReason)

  predicate IsHumanMember(a: Author)
  {
    a.MemberAuthor? && !a.member.bot
  }

  /** The chain of early returns of `on_message`, in its order. */
  function Admit(msg: Message, host: Host): (v: Verdict)
    ensures v == Admitted <==> (msg.guild.Some? && !host.cogDisabled && !IsCommand(msg.cleanContent, host.prefixes)
                                && IsHumanMember(msg.author) && !host.automodImmune)
    ensures msg.guild.Some? && !host.cogDisabled && IsCommand(msg.cleanContent, host.prefixes) ==> v == Filtered(CommandPrefix)
  {
    if msg.guild.None? then Filtered(NoGuild)
    else if host.cogDisabled then Filtered(CogDisabled)
    else if IsCommand(msg.cleanContent, host.prefixes) then Filtered(CommandPrefix)
    else if !IsHumanMember(msg.author) then Filtered(NotHumanMember)
    else if host.automodImmune then Filtered(AutomodImmune)
    else Admitted
  }

  /** The stored targets of a group, in insertion order (`notifygroup["targets"].values()`). */
  function Refs(g: Group): (r: seq<TargetRef>)
    requires WellFormed(g)
    ensures |r| == |g.targetKeys|
    ensures forall k :: 0 <= k < |r| ==> r[k] == g.targets[g.targetKeys[k]]
  {
    seq(|g.targetKeys|, k requires 0 <= k < |g.targetKeys| => g.targets[g.targetKeys[k]])
  }

  /** One group that notifies: its name, the words matched, and the attempts made. */
  datatype Notification = Notification(group: string, words: seq<string>, attempts: seq<Attempt>)

  /** What `_check_words` does for one group: nothing when none of its words match, and
      otherwise a notification of its targets with its template. */
  function GroupNotification(name: string, g: Group, guild: Guild, msg: Message): seq<Notification>
    requires WellFormed(g)
  {
    var matches := MatchedWords(msg.content, g.words);
    if |matches| == 0 then []
    else [Notification(name, matches, Plan(guild, Refs(g), Render(g.message, AuthorName(msg.author), matches, guild.name, msg.channelName)))]
  }

  /** `_check_words`: the groups in insertion order, each on its own. */
  function Notifications(groups: map<string, Group>, order: seq<string>, guild: Guild, msg: Message): seq<Notification>
    requires forall k :: k in order ==> k in groups && WellFormed(groups[k])
    decreases |order|
  {
    if |order| == 0 then []
    else
      var n := order[|order| - 1];
      assert n in order;
      Notifications(groups, order[..|order| - 1], guild, msg) + GroupNotification(n, groups[n], guild, msg)
  }

  /** Judging one more group of the order appends its notification, if any. */
  lemma NotificationsStep(groups: map<string, Group>, order: seq<string>, i: nat, guild: Guild, msg: Message)
    requires forall k :: k in order ==> k in groups && WellFormed(groups[k])
    requires i < |order|
    ensures order[i] in groups && WellFormed(groups[order[i]])
    ensures Notifications(groups, order[..i + 1], guild, msg)
            == Notifications(groups, order[..i], guild, msg) + GroupNotification(order[i], groups[order[i]], guild, msg)
  {
    assert order[i] in order;
    assert order[..i + 1][..i] == order[..i];
  }

  /** Every group is judged on its own: a group notifies (once) exactly when the message's
      content holds one of its words, ignoring case, between word boundaries; the
      notification carries the matched words and the attempts for the group's targets. */
  lemma NotifiesExactlyMatchingGroups(groups: map<string, Group>, order: seq<string>, guild: Guild, msg: Message, name: string)
    requires forall k :: k in order ==> k in groups && WellFormed(groups[k])
    requires Distinct(order)
    ensures var ns := Notifications(groups, order, guild, msg);
      && (forall x :: x in ns ==>
            && x.group in order && |x.words| > 0 && x.words == MatchedWords(msg.content, groups[x.group].words)
            && x.attempts == Plan(guild, Refs(groups[x.group]),
                                  Render(groups[x.group].message, AuthorName(msg.author), x.words, guild.name, msg.channelName)))
      && DistinctGroups(ns)
      && ((exists x :: x in ns && x.group == name)
          <==> name in order && exists q, i :: 0 <= i < |groups[name].words| && OccursAt(msg.content, q, groups[name].words[i]))
  {
    NotificationsCarryPlan(groups, order, guild, msg);
    NotificationsOncePerGroup(groups, order, guild, msg);
    NotifiesIffWordOccurs(groups, order, guild, msg, name);
  }

  /** Each notification names a group of the order and carries its matched words and the
      attempts for its targets with the rendered text. */
  lemma {:induction false} NotificationsCarryPlan(groups: map<string, Group>, order: seq<string>, guild: Guild, msg: Message)
    requires forall k :: k in order ==> k in groups && WellFormed(groups[k])
    ensures forall x :: x in Notifications(groups, order, guild, msg) ==>
            && x.group in order && |x.words| > 0 && x.words == MatchedWords(msg.content, groups[x.group].words)
            && x.attempts == Plan(guild, Refs(groups[x.group]),
                                  Render(groups[x.group].message, AuthorName(msg.author), x.words, guild.name, msg.channelName))
    decreases |order|
  {
    if |order| > 0 {
      var init := order[..|order| - 1];
      assert forall x :: x in init ==> x in order;
      NotificationsCarryPlan(groups, init, guild, msg);
    }
  }

  /** Each notification names a group of the order. */
  lemma {:induction false} NotificationsInOrder(groups: map<string, Group>, order: seq<string>, guild: Guild, msg: Message)
    requires forall k :: k in order ==> k in groups && WellFormed(groups[k])
    ensures forall x :: x in Notifications(groups, order, guild, msg) ==> x.group in order
    decreases |order|
  {
    if |order| > 0 {
      var init, n := order[..|order| - 1], order[|order| - 1];
      assert forall x :: x in init ==> x in order;
      NotificationsInOrder(groups, init, guild, msg);
      GroupNotificationShape(n, groups[n], guild, msg);
    }
  }

  /** One group gives at most one notification, under its own name, exactly when some of
      its words match. */
  lemma GroupNotificationShape(name: string, g: Group, guild: Guild, msg: Message)
    requires WellFormed(g)
    ensures var gn := GroupNotification(name, g, guild, msg);
      && |gn| <= 1
      && (|gn| == 1 <==> |MatchedWords(msg.content, g.words)| > 0)
      && forall x :: x in gn ==> x.group == name
  {
  }

  /** No two notifications are for the same group. */
  predicate DistinctGroups(ns: seq<Notification>)
  {
    forall i, j :: 0 <= i < j < |ns| ==> ns[i].group != ns[j].group
  }

  /** No group notifies twice. */
  lemma {:induction false} NotificationsOncePerGroup(groups: map<string, Group>, order: seq<string>, guild: Guild, msg: Message)
    requires forall k :: k in order ==> k in groups && WellFormed(groups[k])
    requires Distinct(order)
    ensures DistinctGroups(Notifications(groups, order, guild, msg))
    decreases |order|
  {
    if |order| > 0 {
      var init, n := order[..|order| - 1], order[|order| - 1];
      assert forall x :: x in init ==> x in order;
      assert Distinct(init);
      assert n !in init;
      NotificationsOncePerGroup(groups, init, guild, msg);
      NotificationsInOrder(groups, init, guild, msg);
      GroupNotificationShape(n, groups[n], guild, msg);
      var prior := Notifications(groups, init, guild, msg);
      var gn := GroupNotification(n, groups[n], guild, msg);
      assert Notifications(groups, order, guild, msg) == prior + gn;
      GroupsStayDistinct(prior, gn, init, n);
    }
  }

  /** Appending at most one notification, for a group not named before, keeps the groups
      of the notifications distinct. */
  lemma GroupsStayDistinct(prior: seq<Notification>, gn: seq<Notification>, init: seq<string>, n: string)
    requires DistinctGroups(prior)
    requires forall x :: x in prior ==> x.group in init
    requires n !in init
    requires |gn| <= 1 && forall x :: x in gn ==> x.group == n
    ensures DistinctGroups(prior + gn)
  {
    var ns := prior + gn;
    forall i, j | 0 <= i < j < |ns|
      ensures ns[i].group != ns[j].group
    {
      if j >= |prior| {
        assert ns[j] == gn[j - |prior|] && ns[j] in gn;
        assert ns[i] == prior[i] && prior[i] in prior;
      } else {
        assert ns[i] == prior[i] && ns[j] == prior[j];
      }
    }
  }

  /** A group notifies exactly when one of its words occurs in the content. */
  lemma {:induction false} NotifiesIffWordOccurs(groups: map<string, Group>, order: seq<string>, guild: Guild, msg: Message, name: string)
    requires forall k :: k in order ==> k in groups && WellFormed(groups[k])
    requires Distinct(order)
    ensures (exists x :: x in Notifications(groups, order, guild, msg) && x.group == name)
        <==> name in order && exists q, i :: 0 <= i < |groups[name].words| && OccursAt(msg.content, q, groups[name].words[i])
    decreases |order|
  {
    if |order| > 0 {
      var init, n := order[..|order| - 1], order[|order| - 1];
      assert forall x :: x in init ==> x in order;
      assert Distinct(init);
      NotifiesIffWordOccurs(groups, init, guild, msg, name);
      NotificationsInOrder(groups, init, guild, msg);
      GroupNotificationShape(n, groups[n], guild, msg);
      if name in order {
        NotifiesIffSomeWordOccurs(msg.content, groups[name].words);
      }
      assert forall x :: x in order <==> x in init || x == n;
      assert n !in init;
      var prior := Notifications(groups, init, guild, msg);
      var gn := GroupNotification(n, groups[n], guild, msg);
      assert Notifications(groups, order, guild, msg) == prior + gn;
      if |gn| == 1 {
        assert gn[0] in gn;
      }
    }
  }

  // ---------------------------------------------------------------------------------------
  /** Replying to one more word appends its reply. */
  lemma WordRepliesStep(words: seq<string>, i: nat, adding: bool)
    requires i < |words|
    ensures WordReplies(words[..i + 1], adding)
            == WordReplies(words[..i], adding) + [if adding then WillTrigger(words[i]) else NoLongerTriggers(words[i])]
  {
  }

  /** The loop of `snitch on` over its words: each word not stored yet is appended, and
      every word is replied to. */
  method AddEach(ws: seq<string>, words: seq<string>) returns (stored: seq<string>, replies: seq<Reply>)
    ensures stored == AddWords(ws, words)
    ensures replies == WordReplies(words, true)
  {
    stored := ws;
    replies := [];
    var i := 0;
    while i < |words|
      invariant 0 <= i <= |words|
      invariant stored == AddWords(ws, words[..i])
      invariant replies == WordReplies(words[..i], true)
    {
      assert words[..i + 1][..i] == words[..i];
      if words[i] !in stored {
        stored := stored + [words[i]];
      }
      replies := replies + [WillTrigger(words[i])];
      i := i + 1;
    }
    assert words[..i] == words;
  }

  /** The loop of `snitch noton` over its words: each word present is removed (its first
      occurrence) and replied to; the first word that is not present makes `list.remove`
      raise `ValueError`, ending the loop with the removals made so far. */
  method RemoveEach(ws: seq<string>, words: seq<string>) returns (left: seq<string>, replies: seq<Reply>, status: Status)
    ensures var r := RemoveWords(ws, words);
      && left == r.words
      && (status == Completed <==> r.missing.None?)
      && (status != Completed ==> status == Raised(ValueError))
      && |replies| <= |words|
      && replies == WordReplies(words[..|replies|], false)
      && RemoveWords(ws, words[..|replies|]) == Removal(left, None)
      && (r.missing.Some? ==> |replies| < |words| && r.missing.value == words[|replies|])
  {
    left := ws;
    replies := [];
    status := Completed;
    var i := 0;
    while i < |words|
      invariant 0 <= i <= |words| && |replies| == i
      invariant RemoveWords(ws, words[..i]) == Removal(left, None)
      invariant replies == WordReplies(words[..i], false)
    {
      assert words[..i + 1][..i] == words[..i];
      if words[i] !in left {
        status := Raised(ValueError);
        RemoveWordsStops(ws, words, i + 1);
        return;
      }
      RemoveWordsStep(ws, words, i, left);
      WordRepliesStep(words, i, false);
      left := RemoveFirst(left, words[i]);
      replies := replies + [NoLongerTriggers(words[i])];
      i := i + 1;
    }
    assert words[..i] == words;
  }

  // The guild's configuration

  /** `config.guild(server).notifygroups`: the groups by name, with `order` keeping the
      dictionary's insertion order. */
  class SnitchConfig {
    var groups: map<string, Group>
    var order: seq<string>

    ghost predicate Valid()
      reads this
    {
      Distinct(order)
      && (forall k :: k in groups <==> k in order)
      && (forall k :: k in groups ==> WellFormed(groups[k]))
    }

    /** The registered default: no groups. */
    constructor ()
      ensures Valid() && groups == map[] && order == []
    {
      groups := map[];
      order := [];
    }

    /** Stores `g` under `name`, appending a new name to the order. */
    method Store(name: string, g: Group)
      requires Valid() && WellFormed(g)
      modifies this
      ensures Valid()
      ensures groups == old(groups)[name := g]
      ensures order == StoredOrder(old(order), old(groups), name)
    {
      if name !in groups {
        order := order + [name];
      }
      groups := groups[name := g];
    }

    /** `snitch to <group> <tokens>`: creates the group if missing, stores every token that
        resolves under its literal text, and replies for every token. */
    method SnitchTo(guild: Guild, name: string, tokens: seq<string>) returns (replies: seq<Reply>)
      requires Valid()
      modifies this
      ensures Valid()
      ensures groups == old(groups)[name := AddTargets(Base(old(groups), name), Resolution(guild), tokens)]
      ensures order == StoredOrder(old(order), old(groups), name)
      ensures replies == TargetReplies(Resolution(guild), tokens)
    {
      var g;
      g, replies := ApplyTargets(Base(groups, name), Resolution(guild), tokens);
      Store(name, g);
    }

    /** `snitch notto <group> <tokens>`: on an existing group, pops every named key present
        and replies for every token. On a missing group it says so and then fails on the
        first token (the lookup gave None), changing nothing. */
    method SnitchNotTo(name: string, tokens: seq<string>) returns (replies: seq<Reply>, status: Status)
      requires Valid()
      modifies this
      ensures Valid()
      ensures name !in old(groups) ==>
        && groups == old(groups) && order == old(order)
        && replies == [GroupDoesNotExist]
        && status == (if |tokens| == 0 then Completed else Raised(TypeError))
      ensures name in old(groups) ==>
        && groups == old(groups)[name := DropTargets(old(groups)[name], tokens)]
        && order == old(order)
        && replies == DropReplies(old(groups)[name], tokens)
        && status == Completed
    {
      if name !in groups {
        replies := [GroupDoesNotExist];
        status := if |tokens| == 0 then Completed else Raised(TypeError);
        return;
      }
      var g0 := groups[name];
      var g := g0;
      replies := [];
      var i := 0;
      while i < |tokens|
        invariant 0 <= i <= |tokens|
        invariant Valid() && groups == old(groups) && order == old(order)
        invariant g == DropTargets(g0, tokens[..i])
        invariant WellFormed(g)
        invariant replies == DropReplies(g0, tokens[..i])
      {
        var token := tokens[i];
        assert tokens[..i + 1][..i] == tokens[..i];
        DropTargetWellFormed(g, token);
        if token in g.targets {
          g := DropTarget(g, token);
          replies := replies + [Removed(token)];
        } else {
          replies := replies + [CouldNotFind(token)];
        }
        i := i + 1;
      }
      assert tokens[..i] == tokens;
      Store(name, g);
      status := Completed;
    }

    /** `snitch on <group> <words>`: creates the group if missing, appends every word not
        already stored, and replies for every word. */
    method SnitchOn(name: string, words: seq<string>) returns (replies: seq<Reply>)
      requires Valid()
      modifies this
      ensures Valid()
      ensures var b := Base(old(groups), name);
        groups == old(groups)[name := b.(words := AddWords(b.words, words))]
      ensures order == StoredOrder(old(order), old(groups), name)
      ensures replies == WordReplies(words, true)
    {
      var g := Base(groups, name);
      var ws;
      ws, replies := AddEach(g.words, words);
      Store(name, g.(words := ws));
    }

    /** `snitch noton <group> <words>`: removes the words one by one and replies for each,
        until a word is not in the list, where `list.remove` raises. The removals made
        before stay in an existing group; a missing group is never stored. */
    method SnitchNotOn(name: string, words: seq<string>) returns (replies: seq<Reply>, status: Status)
      requires Valid()
      modifies this
      ensures Valid()
      ensures var b := Base(old(groups), name);
        var r := RemoveWords(b.words, words);
        && (status == Completed <==> r.missing.None?)
        && (status != Completed ==> status == Raised(ValueError))
        && |replies| <= |words|
        && replies == WordReplies(words[..|replies|], false)
        && RemoveWords(b.words, words[..|replies|]) == Removal(r.words, None)
        && (r.missing.Some? ==> |replies| < |words| && r.missing.value == words[|replies|])
        && (if r.missing.None? || name in old(groups)
            then groups == old(groups)[name := b.(words := r.words)] && order == StoredOrder(old(order), old(groups), name)
            else groups == old(groups) && order == old(order))
    {
      var g := Base(groups, name);
      var ws;
      ws, replies, status := RemoveEach(g.words, words);
      if status == Completed || name in groups {
        Store(name, g.(words := ws));
      }
    }

    /** `snitch with <group> <message>`: creates the group if missing and sets its template. */
    method SnitchWith(name: string, message: string) returns (reply: Reply)
      requires Valid()
      modifies this
      ensures Valid()
      ensures groups == old(groups)[name := Base(old(groups), name).(message := Some(message))]
      ensures order == StoredOrder(old(order), old(groups), name)
      ensures reply == MessageUpdated(name)
    {
      var g := Base(groups, name);
      Store(name, g.(message := Some(message)));
      reply := MessageUpdated(name);
    }

    /** `snitch clear`: forgets every group. */
    method SnitchClear() returns (reply: Reply)
      modifies this
      ensures Valid() && groups == map[] && order == []
      ensures reply == Cleared
    {
      groups := map[];
      order := [];
      reply := Cleared;
    }

    /** `snitch list`: the report text, grown line by line over the groups in insertion
        order. */
    method SnitchList() returns (listing: Listing)
      requires Valid()
      ensures listing == ListingOf(groups, order)
    {
      if |order| == 0 {
        return NoGroups;
      }
      var text := ReportHeader;
      var i := 0;
      while i < |order|
        invariant 0 <= i <= |order|
        invariant text == ReportHeader + Lines(groups, order[..i])
      {
        assert order[..i + 1][..i] == order[..i];
        assert order[i] in order;
        text := text + GroupLine(order[i], groups[order[i]]);
        i := i + 1;
      }
      assert order[..i] == order;
      listing := Report(text);
    }

    /** `_check_words`: for every group in insertion order, the words it matches in the
        message's content and, when there are any, the notification of its targets. */
    method CheckWords(msg: Message) returns (notes: seq<Notification>)
      requires Valid() && msg.guild.Some?
      ensures notes == Notifications(groups, order, msg.guild.value, msg)
    {
      var guild := msg.guild.value;
      notes := [];
      var i := 0;
      while i < |order|
        invariant 0 <= i <= |order|
        invariant notes == Notifications(groups, order[..i], guild, msg)
      {
        var name := order[i];
        NotificationsStep(groups, order, i, guild, msg);
        var g := groups[name];
        var matches := MatchedWords(msg.content, g.words);
        if |matches| > 0 {
          var attempts := NotifyWords(guild, AuthorName(msg.author), msg.channelName, Refs(g), matches, g.message);
          notes := notes + [Notification(name, matches, attempts)];
        }
        i := i + 1;
      }
      assert order[..i] == order;
    }

    /** `on_message`: the filter chain, then the word check in the message's guild. */
    method OnMessage(msg: Message, host: Host) returns (verdict: Verdict, notes: seq<Notification>)
      requires Valid()
      ensures verdict == Admit(msg, host)
      ensures verdict.Filtered? ==> notes == []
      ensures verdict == Admitted ==> msg.guild.Some? && notes == Notifications(groups, order, msg.guild.value, msg)
    {
      verdict := Admit(msg, host);
      if verdict == Admitted {
        notes := CheckWords(msg);
      } else {
        notes := [];
      }
    }

    /** `on_message_edit`: the edited message goes through the same pipeline; the message
        before the edit plays no part. */
    method OnMessageEdit(prior: Message, msg: Message, host: Host) returns (verdict: Verdict, notes: seq<Notification>)
      requires Valid()
      ensures verdict == Admit(msg, host)
      ensures verdict.Filtered? ==> notes == []
      ensures verdict == Admitted ==> msg.guild.Some? && notes == Notifications(groups, order, msg.guild.value, msg)
    {
      verdict, notes := OnMessage(msg, host);
    }
  }
}
