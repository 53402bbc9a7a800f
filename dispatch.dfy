/** The notification side of the snitch cog (`_notify_words`, `_send_to_member`): the
    message template is rendered, then every stored target of the group yields delivery
    attempts. Sending is not performed here: an attempt is what the cog schedules, and a
    delivery is what an attempt actually sends. */
module Dispatch {
  import opened Wrappers
  import opened Seqs
  import opened Text
  import opened Discord
  import opened Resolver
  import opened Groups

  const AuthorToken: string := "{{author}}"
  const WordsToken: string := "{{words}}"
  const ServerToken: string := "{{server}}"
  const ChannelToken: string := "{{channel}}"

  /** "Snitching on {{author}} for saying {{words}}" */
  const DefaultTemplate: string := "Snitching on " + AuthorToken + " for saying " + WordsToken

  /** The text of a notification: the group's template, or the default one when the group
      has none or an empty one, with `{{author}}`, `{{words}}`, `{{server}}` and
      `{{channel}}` replaced in that order, the matched words joined with " and ". */
  function Render(template: Option<string>, author: string, words: seq<string>, server: string, channel: string): string
  {
    var base := if template.None? || template.value == "" then DefaultTemplate else template.value;
    Replace(Replace(Replace(Replace(base, AuthorToken, author), WordsToken, Join(words, " and ")),
      ServerToken, server), ChannelToken, channel)
  }

  /** A template that holds none of the four tokens is sent unchanged. */
  lemma RenderWithoutTokens(template: string, author: string, words: seq<string>, server: string, channel: string)
    requires template != ""
    requires !IsInfix(AuthorToken, template) && !IsInfix(WordsToken, template)
    requires !IsInfix(ServerToken, template) && !IsInfix(ChannelToken, template)
    ensures Render(Some(template), author, words, server, channel) == template
  {
    ReplaceAbsent(template, AuthorToken, author);
    ReplaceAbsent(template, WordsToken, Join(words, " and "));
    ReplaceAbsent(template, ServerToken, server);
    ReplaceAbsent(template, ChannelToken, channel);
  }

  /** Without a template (or with an empty one) the text is "Snitching on <author> for
      saying <w1> and <w2> ...", provided the author's name and the words hold no `{`
      (otherwise they could form tokens that later replacements rewrite). */
  lemma RenderDefault(template: Option<string>, author: string, words: seq<string>, server: string, channel: string)
    requires template.None? || template == Some("")
    requires Avoids(author, '{') && forall k :: 0 <= k < |words| ==> Avoids(words[k], '{')
    ensures Render(template, author, words, server, channel)
         == "Snitching on " + author + " for saying " + Join(words, " and ")
  {
    var joined := Join(words, " and ");
    SeparatorAvoidsBrace();
    JoinAvoids(words, " and ", '{');
    var s1 := "Snitching on " + author + " for saying ";
    DefaultPrefixAvoids(author);
    AvoidsConcat(s1, joined, '{');
    calc {
      Render(template, author, words, server, channel);
      { DefaultRender(template, author, words, server, channel); }
      Replace(Replace(Replace(Replace(DefaultTemplate, AuthorToken, author), WordsToken, joined),
        ServerToken, server), ChannelToken, channel);
      { DefaultAuthorStep(author); }
      Replace(Replace(Replace(s1 + WordsToken, WordsToken, joined), ServerToken, server), ChannelToken, channel);
      { DefaultWordsStep(s1, joined); }
      Replace(Replace(s1 + joined, ServerToken, server), ChannelToken, channel);
      { LastTokensAbsent(s1 + joined, server, channel); }
      s1 + joined;
    }
  }

  /** With no template (or an empty one) the default template is filled in. */
  lemma DefaultRender(template: Option<string>, author: string, words: seq<string>, server: string, channel: string)
    requires template.None? || template == Some("")
    ensures Render(template, author, words, server, channel)
         == Replace(Replace(Replace(Replace(DefaultTemplate, AuthorToken, author), WordsToken, Join(words, " and ")),
              ServerToken, server), ChannelToken, channel)
  {
  }

  lemma SeparatorAvoidsBrace()
    ensures Avoids(" and ", '{')
  {
  }

  lemma DefaultPrefixAvoids(author: string)
    requires Avoids(author, '{')
    ensures Avoids("Snitching on " + author + " for saying ", '{')
  {
    var p1, p2 := "Snitching on ", " for saying ";
    assert Avoids(p1, '{') && Avoids(p2, '{');
    AvoidsConcat(p1, author, '{');
    AvoidsConcat(p1 + author, p2, '{');
  }

  /** Text without `{` holds neither the server token nor the channel token. */
  lemma LastTokensAbsent(s: string, server: string, channel: string)
    requires Avoids(s, '{')
    ensures Replace(Replace(s, ServerToken, server), ChannelToken, channel) == s
  {
    ReplaceAvoiding(s, ServerToken, server);
    ReplaceAvoiding(s, ChannelToken, channel);
  }

  /** The part of the default template after the author token holds no author token. */
  lemma DefaultTailKeepsAuthorToken(author: string)
    ensures Replace(" for saying " + WordsToken, AuthorToken, author) == " for saying " + WordsToken
  {
    ReplaceSkipsPrefix(" for saying ", WordsToken, AuthorToken, author);
    ReplaceShort(WordsToken, AuthorToken, author);
  }

  /** The first replacement on the default template puts the author's name in place; the
      words token after it is too short to hold the author token. */
  lemma DefaultAuthorStep(author: string)
    requires Avoids(author, '{')
    ensures Replace(DefaultTemplate, AuthorToken, author) == "Snitching on " + author + " for saying " + WordsToken
  {
    var p1, p2 := "Snitching on ", " for saying ";
    DefaultTailKeepsAuthorToken(author);
    DefaultHeadAvoidsAuthorToken();
    ReplaceBetween(p1, AuthorToken, p2 + WordsToken, author);
    DefaultTemplateShape();
    assert p1 + author + (p2 + WordsToken) == p1 + author + p2 + WordsToken;
  }

  lemma DefaultHeadAvoidsAuthorToken()
    ensures |AuthorToken| > 0 && Avoids("Snitching on ", AuthorToken[0])
  {
  }

  lemma DefaultTemplateShape()
    ensures DefaultTemplate == "Snitching on " + AuthorToken + (" for saying " + WordsToken)
  {
  }

  /** The second replacement puts the matched words in place. */
  lemma DefaultWordsStep(s1: string, joined: string)
    requires Avoids(s1, '{')
    ensures Replace(s1 + WordsToken, WordsToken, joined) == s1 + joined
  {
    ReplaceShort("", WordsToken, joined);
    ReplaceBetween(s1, WordsToken, "", joined);
    assert s1 + WordsToken + "" == s1 + WordsToken;
    assert s1 + joined + "" == s1 + joined;
  }

  /** What the cog schedules for one recipient: a post to a channel, or a call of
      `_send_to_member` with the member the guild returned (None when it has no such member). */
  datatype Attempt = ChannelPost(channel: Channel, text: string) | MemberMessage(member: Option<Member>, text: string)

  /** What an attempt actually sends. */
  datatype Delivery = Post(channel: Channel, text: string) | DirectMessage(member: Member, text: string)

  /** `_send_to_member`: bots get nothing; a missing member makes the call fail before sending. */
  function Delivered(a: Attempt): Option<Delivery>
  {
    match a
    case ChannelPost(c, text) => Some(Post(c, text))
    case MemberMessage(None, _) => None
    case MemberMessage(Some(m), text) => if m.bot then None else Some(DirectMessage(m, text))
  }

  /** Everything a list of attempts sends, in order. No direct message ever goes to a bot. */
  function Deliveries(attempts: seq<Attempt>): (ds: seq<Delivery>)
    ensures |ds| <= |attempts|
    ensures forall d :: d in ds && d.DirectMessage? ==> !d.member.bot
    decreases |attempts|
  {
    if |attempts| == 0 then []
    else
      var init := Deliveries(attempts[..|attempts| - 1]);
      match Delivered(attempts[|attempts| - 1])
      case None => init
      case Some(d) => init + [d]
  }

  lemma {:induction false} DeliveriesAppend(a: seq<Attempt>, b: seq<Attempt>)
    ensures Deliveries(a + b) == Deliveries(a) + Deliveries(b)
    decreases |b|
  {
    if |b| == 0 {
      assert a + b == a;
    } else {
      assert (a + b)[..|a + b| - 1] == a + b[..|b| - 1];
      DeliveriesAppend(a, b[..|b| - 1]);
    }
  }

  /** One `_send_to_member` call per member, in order (the loop over `role.members`). */
  function MessageAll(ms: seq<Member>, text: string): seq<Attempt>
    decreases |ms|
  {
    if |ms| == 0 then [] else MessageAll(ms[..|ms| - 1], text) + [MemberMessage(Some(ms[|ms| - 1]), text)]
  }

  /** A direct message with the text to each member, in order. */
  function DirectMessages(ms: seq<Member>, text: string): seq<Delivery>
    decreases |ms|
  {
    if |ms| == 0 then [] else DirectMessages(ms[..|ms| - 1], text) + [DirectMessage(ms[|ms| - 1], text)]
  }

  function IsHuman(m: Member): bool
  {
    !m.bot
  }

  /** Messaging a list of members sends one direct message to each member that is not a
      bot, in order, and nothing to the bots. */
  lemma {:induction false} MessageAllReachesHumans(ms: seq<Member>, text: string)
    ensures |MessageAll(ms, text)| == |ms|
    ensures Deliveries(MessageAll(ms, text)) == DirectMessages(Filter(ms, IsHuman), text)
    decreases |ms|
  {
    if |ms| > 0 {
      var init, last := ms[..|ms| - 1], ms[|ms| - 1];
      MessageAllReachesHumans(init, text);
      DeliveriesAppend(MessageAll(init, text), [MemberMessage(Some(last), text)]);
      assert ms == init + [last];
      FilterAppend(init, [last], IsHuman);
      DirectMessagesAppend(Filter(init, IsHuman), Filter([last], IsHuman), text);
      OneMemberReached(last, text);
    }
  }

  /** Messaging one member reaches it exactly when it is not a bot. */
  lemma OneMemberReached(m: Member, text: string)
    ensures Deliveries([MemberMessage(Some(m), text)]) == DirectMessages(Filter([m], IsHuman), text)
  {
    assert [MemberMessage(Some(m), text)][..0] == [];
    assert [m][1..] == [];
    if !m.bot {
      assert Filter([m], IsHuman) == [m];
      assert DirectMessages([m], text) == [DirectMessage(m, text)];
    } else {
      assert Filter([m], IsHuman) == [];
    }
  }

  lemma {:induction false} DirectMessagesAppend(a: seq<Member>, b: seq<Member>, text: string)
    ensures DirectMessages(a + b, text) == DirectMessages(a, text) + DirectMessages(b, text)
    decreases |b|
  {
    if |b| == 0 {
      assert a + b == a;
    } else {
      assert (a + b)[..|a + b| - 1] == a + b[..|b| - 1];
      DirectMessagesAppend(a, b[..|b| - 1], text);
    }
  }

  /** The attempts the cog schedules for one stored target. A `TextChannel` target is one
      post prefixed with "@everyone "; a `Member` target is one `_send_to_member` call; a
      `Role` target is one call per member of the role. A channel or role the guild no
      longer has raises inside the loop's `try` and yields nothing; so does any other
      stored type. */
  function TargetAttempts(g: Guild, ref: TargetRef, text: string): (r: seq<Attempt>)
    ensures ref.kind.ChannelClass? && ref.kind.kind != TextChannel ==> r == []
    ensures ref.kind == ChannelClass(TextChannel) ==> |r| <= 1 && forall a :: a in r ==> a.ChannelPost? && a.text == "@everyone " + text
    ensures ref.kind == ChannelClass(TextChannel) ==> (r == [] <==> GetChannel(g, ref.id).None?)
    ensures ref.kind == MemberClass ==> r == [MemberMessage(GetMember(g, ref.id), text)]
  {
    match ref.kind
    case ChannelClass(TextChannel) => ChannelAttempts(g, ref.id, text)
    case MemberClass => [MemberMessage(GetMember(g, ref.id), text)]
    case RoleClass => RoleAttempts(g, ref.id, text)
    case _ => []
  }

  /** A `TextChannel` target: one post, to the guild's channel with that id, unless the
      guild no longer has the channel. */
  function ChannelAttempts(g: Guild, id: nat, text: string): (r: seq<Attempt>)
    ensures |r| <= 1
    ensures r == [] <==> GetChannel(g, id).None?
    ensures forall a :: a in r ==> a.ChannelPost? && a.channel in g.channels && a.channel.id == id
  {
    match GetChannel(g, id)
    case None => []
    case Some(c) => [ChannelPost(c, "@everyone " + text)]
  }

  /** A `Role` target: one `_send_to_member` call per member of the role, unless the guild
      no longer has the role. */
  function RoleAttempts(g: Guild, id: nat, text: string): seq<Attempt>
  {
    match GetRole(g, id)
    case None => []
    case Some(role) => MessageAll(RoleMembers(g, role), text)
  }

  /** The attempts for all the targets, target after target. */
  function Plan(g: Guild, refs: seq<TargetRef>, text: string): seq<Attempt>
  {
    FlatMap(refs, (ref: TargetRef) => TargetAttempts(g, ref, text))
  }

  /** Targets are handled independently: the attempts for two runs of targets are the
      attempts for the first followed by those for the second. */
  lemma PlanAppend(g: Guild, a: seq<TargetRef>, b: seq<TargetRef>, text: string)
    ensures Plan(g, a + b, text) == Plan(g, a, text) + Plan(g, b, text)
  {
    FlatMapAppend(a, b, (ref: TargetRef) => TargetAttempts(g, ref, text));
  }

  /** Handling one more target appends its attempts. */
  lemma PlanStep(g: Guild, refs: seq<TargetRef>, i: nat, text: string)
    requires i < |refs|
    ensures Plan(g, refs[..i + 1], text) == Plan(g, refs[..i], text) + TargetAttempts(g, refs[i], text)
  {
    assert refs[..i + 1][..i] == refs[..i];
  }

  /** A failing target does not stop the others: a channel or role target the guild no
      longer has adds nothing, and the targets after it are still handled. */
  lemma StaleTargetSkipped(g: Guild, a: seq<TargetRef>, stale: TargetRef, b: seq<TargetRef>, text: string)
    requires (stale.kind == ChannelClass(TextChannel) && GetChannel(g, stale.id).None?)
          || (stale.kind == RoleClass && GetRole(g, stale.id).None?)
    ensures Plan(g, a + [stale] + b, text) == Plan(g, a, text) + Plan(g, b, text)
  {
    PlanAppend(g, a + [stale], b, text);
    PlanAppend(g, a, [stale], text);
    PlanSingle(g, stale, text);
    assert TargetAttempts(g, stale, text) == [];
    assert Plan(g, a, text) + [] == Plan(g, a, text);
  }

  /** The attempts for a single target. */
  lemma PlanSingle(g: Guild, ref: TargetRef, text: string)
    ensures Plan(g, [ref], text) == TargetAttempts(g, ref, text)
  {
    var f := (r: TargetRef) => TargetAttempts(g, r, text);
    assert [ref][..0] == [];
    assert FlatMap([ref], f) == FlatMap([], f) + f(ref);
  }

  /** A role target sends one direct message to each member of the role that is not a bot,
      in guild order; bots in the role get nothing. */
  lemma RoleTargetReachesHumanMembers(g: Guild, ref: TargetRef, role: Role, text: string)
    requires ref.kind == RoleClass && GetRole(g, ref.id) == Some(role)
    ensures Deliveries(TargetAttempts(g, ref, text)) == DirectMessages(Filter(RoleMembers(g, role), IsHuman), text)
  {
    MessageAllReachesHumans(RoleMembers(g, role), text);
  }

  /** A member target sends one direct message when the guild still has the member and it
      is not a bot, and nothing otherwise. */
  lemma MemberTargetReachesHuman(g: Guild, ref: TargetRef, text: string)
    requires ref.kind == MemberClass
    ensures Deliveries(TargetAttempts(g, ref, text))
         == match GetMember(g, ref.id)
            case Some(m) => if m.bot then [] else [DirectMessage(m, text)]
            case None => []
  {
    var r := TargetAttempts(g, ref, text);
    assert r[..0] == [];
  }

  /** A text-channel target the guild still has gets exactly one post, "@everyone "
      followed by the text, to that channel. */
  lemma TextChannelTargetPosts(g: Guild, ref: TargetRef, c: Channel, text: string)
    requires ref.kind == ChannelClass(TextChannel) && GetChannel(g, ref.id) == Some(c)
    ensures TargetAttempts(g, ref, text) == [ChannelPost(c, "@everyone " + text)]
    ensures Deliveries(TargetAttempts(g, ref, text)) == [Post(c, "@everyone " + text)]
  {
    assert [ChannelPost(c, "@everyone " + text)][..0] == [];
  }

  /** A text-channel target the guild no longer has posts nothing. */
  lemma MissingChannelTargetSkipped(g: Guild, ref: TargetRef, text: string)
    requires ref.kind == ChannelClass(TextChannel) && GetChannel(g, ref.id).None?
    ensures TargetAttempts(g, ref, text) == []
  {
  }

  /** `_notify_words`: renders the text, then walks the targets building the list of
      attempts (`waitlist`), which it awaits together at the end. */
  method NotifyWords(g: Guild, author: string, channel: string, refs: seq<TargetRef>, words: seq<string>, template: Option<string>)
    returns (attempts: seq<Attempt>)
    ensures attempts == Plan(g, refs, Render(template, author, words, g.name, channel))
  {
    var text := Render(template, author, words, g.name, channel);
    attempts := ScheduleAttempts(g, refs, text);
  }

  /** The loop over a role's members: one `_send_to_member` call per member, in order. */
  method MessageMembers(members: seq<Member>, text: string) returns (sent: seq<Attempt>)
    ensures sent == MessageAll(members, text)
  {
    sent := [];
    var j := 0;
    while j < |members|
      invariant 0 <= j <= |members|
      invariant sent == MessageAll(members[..j], text)
    {
      assert members[..j + 1][..j] == members[..j];
      sent := sent + [MemberMessage(Some(members[j]), text)];
      j := j + 1;
    }
    assert members[..j] == members;
  }

  /** The loop of `_notify_words` over the group's targets. */
  method ScheduleAttempts(g: Guild, refs: seq<TargetRef>, text: string) returns (attempts: seq<Attempt>)
    ensures attempts == Plan(g, refs, text)
  {
    attempts := [];
    var i := 0;
    while i < |refs|
      invariant 0 <= i <= |refs|
      invariant attempts == Plan(g, refs[..i], text)
    {
      var ref := refs[i];
      PlanStep(g, refs, i, text);
      match ref.kind {
        case ChannelClass(TextChannel) =>
          match GetChannel(g, ref.id) {
            case Some(c) => attempts := attempts + [ChannelPost(c, "@everyone " + text)];
            case None =>
          }
        case MemberClass =>
          attempts := attempts + [MemberMessage(GetMember(g, ref.id), text)];
        case RoleClass =>
          match GetRole(g, ref.id) {
            case Some(role) =>
              var sent := MessageMembers(RoleMembers(g, role), text);
              attempts := attempts + sent;
            case None =>
          }
        case _ =>
      }
      i := i + 1;
    }
    assert refs[..i] == refs;
  }
}
