/** The target resolver of the snitch cog (`_identify_target`): turns a free-text token
    into a member, a role or a channel of the guild. */
module Resolver {
  import opened Wrappers
  import opened Seqs
  import opened Text
  import opened Discord

  /** What a token can resolve to. */
  datatype Entity = MemberEntity(member: Member) | RoleEntity(role: Role) | ChannelEntity(channel: Channel)

  function EntityId(e: Entity): nat
  {
    match e
    case MemberEntity(m) => m.id
    case RoleEntity(r) => r.id
    case ChannelEntity(c) => c.id
  }

  /** The class of a resolved object, which the group stores as its `type`. */
  datatype ClassName = MemberClass | RoleClass | ChannelClass(kind: ChannelKind)

  /** `type(coerced).__name__`, as text. */
  function ClassNameText(c: ClassName): string
  {
    match c
    case MemberClass => "Member"
    case RoleClass => "Role"
    case ChannelClass(k) => ChannelClassName(k)
  }

  /** The class of a resolved object. A channel found by id keeps its own class, which need
      not be `TextChannel`. */
  function ClassOf(e: Entity): ClassName
  {
    match e
    case MemberEntity(_) => MemberClass
    case RoleEntity(_) => RoleClass
    case ChannelEntity(c) => ChannelClass(c.kind)
  }

  /** The mention decoration stripped from both ends of a token. */
  const MentionChars: set<char> := {'!', '<', '#', '>', '@', '&'}

  /** The token with its mention decoration removed. */
  function MaybeId(token: string): string
  {
    Strip(token, MentionChars)
  }

  predicate RoleNamed(r: Role, token: string)
  {
    EqualsIgnoreCase(r.name, token)
  }

  predicate MemberNamed(m: Member, token: string)
  {
    EqualsIgnoreCase(m.name, token) || EqualsIgnoreCase(m.displayName, token)
  }

  predicate TextChannelNamed(c: Channel, token: string)
  {
    EqualsIgnoreCase(c.name, token) && c.kind == TextChannel
  }

  /** Lookup by id: member, then role, then channel. */
  function ById(g: Guild, id: nat): Option<Entity>
  {
    match GetMember(g, id)
    case Some(m) => Some(MemberEntity(m))
    case None =>
      match GetRole(g, id)
      case Some(r) => Some(RoleEntity(r))
      case None =>
        match GetChannel(g, id)
        case Some(c) => Some(ChannelEntity(c))
        case None => None
  }

  /** Index of the first role whose name is the token, ignoring case. */
  function FirstRoleNamed(g: Guild, token: string): (r: Option<nat>)
    ensures r.Some? ==> r.value < |g.roles| && RoleNamed(g.roles[r.value], token)
    ensures r.Some? ==> forall j :: 0 <= j < r.value ==> !RoleNamed(g.roles[j], token)
    ensures r.None? ==> forall x :: x in g.roles ==> !RoleNamed(x, token)
  {
    FirstIndex(g.roles, (x: Role) => RoleNamed(x, token))
  }

  /** Index of the first member whose user name or display name is the token, ignoring case. */
  function FirstMemberNamed(g: Guild, token: string): (r: Option<nat>)
    ensures r.Some? ==> r.value < |g.members| && MemberNamed(g.members[r.value], token)
    ensures r.Some? ==> forall j :: 0 <= j < r.value ==> !MemberNamed(g.members[j], token)
    ensures r.None? ==> forall m :: m in g.members ==> !MemberNamed(m, token)
  {
    FirstIndex(g.members, (m: Member) => MemberNamed(m, token))
  }

  /** Index of the first text channel whose name is the token, ignoring case. */
  function FirstTextChannelNamed(g: Guild, token: string): (r: Option<nat>)
    ensures r.Some? ==> r.value < |g.channels| && TextChannelNamed(g.channels[r.value], token)
    ensures r.Some? ==> forall j :: 0 <= j < r.value ==> !TextChannelNamed(g.channels[j], token)
    ensures r.None? ==> forall c :: c in g.channels ==> !TextChannelNamed(c, token)
  {
    FirstIndex(g.channels, (c: Channel) => TextChannelNamed(c, token))
  }

  /** Lookup by name, ignoring case: the first role, else the first member by user name or
      display name, else the first text channel. */
  function ByName(g: Guild, token: string): Option<Entity>
  {
    match FirstRoleNamed(g, token)
    case Some(i) => Some(RoleEntity(g.roles[i]))
    case None =>
      match FirstMemberNamed(g, token)
      case Some(i) => Some(MemberEntity(g.members[i]))
      case None =>
        match FirstTextChannelNamed(g, token)
        case Some(i) => Some(ChannelEntity(g.channels[i]))
        case None => None
  }

  /** `_identify_target`: an all-digit token (once stripped of mention decoration) is
      looked up by id only; any other token is looked up by name only. Whatever is found
      belongs to the guild. */
  function IdentifyTarget(g: Guild, token: string): (r: Option<Entity>)
    ensures r.Some? ==> match r.value
      case MemberEntity(m) => m in g.members
      case RoleEntity(x) => x in g.roles
      case ChannelEntity(c) => c in g.channels
  {
    var maybeId := MaybeId(token);
    if IsNumeric(maybeId) then ById(g, DecimalValue(maybeId)) else ByName(g, token)
  }

  /** An all-digit token resolves to the first member with that id, else the first role
      with that id, else the first channel with that id, and to nothing when no id
      matches, whatever names the guild holds. */
  lemma NumericTokenResolvesById(g: Guild, token: string)
    requires IsNumeric(MaybeId(token))
    ensures var id := DecimalValue(MaybeId(token));
      var r := IdentifyTarget(g, token);
      && (r.Some? <==> ((exists m :: m in g.members && m.id == id)
                        || (exists x :: x in g.roles && x.id == id)
                        || (exists c :: c in g.channels && c.id == id)))
      && (r.Some? ==> EntityId(r.value) == id)
      && ((exists m :: m in g.members && m.id == id) ==> r.Some? && r.value.MemberEntity?)
      && ((forall m :: m in g.members ==> m.id != id) && (exists x :: x in g.roles && x.id == id)
          ==> r.Some? && r.value.RoleEntity?)
  {
  }

  /** A token that is not all digits resolves by name only: to something exactly when some
      role, some member (by user name or display name) or some text channel carries the
      name, ignoring case; and a resolved channel is always a text channel. */
  lemma NameTokenResolvesByName(g: Guild, token: string)
    requires !IsNumeric(MaybeId(token))
    ensures var r := IdentifyTarget(g, token);
      && (r.Some? <==> ((exists x :: x in g.roles && RoleNamed(x, token))
                        || (exists m :: m in g.members && MemberNamed(m, token))
                        || (exists c :: c in g.channels && TextChannelNamed(c, token))))
      && (r.Some? && r.value.ChannelEntity? ==> TextChannelNamed(r.value.channel, token))
  {
    if FirstRoleNamed(g, token).None? && FirstMemberNamed(g, token).None? {
      var k := FirstTextChannelNamed(g, token);
      if k.Some? {
        assert g.channels[k.value] in g.channels;
      }
    }
  }

  /** Roles come first: when some role carries the name, the token resolves to the first
      such role in guild order, even if members or channels carry the name too. */
  lemma NameTokenPrefersRoles(g: Guild, token: string, i: nat)
    requires !IsNumeric(MaybeId(token))
    requires i < |g.roles| && RoleNamed(g.roles[i], token)
    requires forall j :: 0 <= j < i ==> !RoleNamed(g.roles[j], token)
    ensures IdentifyTarget(g, token) == Some(RoleEntity(g.roles[i]))
  {
    assert g.roles[i] in g.roles;
    var k := FirstRoleNamed(g, token).value;
    assert !(k < i) && !(i < k);
  }

  /** Members come second: when no role carries the name, the token resolves to the first
      member in guild order whose user name or display name is the name, even if channels
      carry the name too. */
  lemma NameTokenThenMembers(g: Guild, token: string, i: nat)
    requires !IsNumeric(MaybeId(token))
    requires forall x :: x in g.roles ==> !RoleNamed(x, token)
    requires i < |g.members| && MemberNamed(g.members[i], token)
    requires forall j :: 0 <= j < i ==> !MemberNamed(g.members[j], token)
    ensures IdentifyTarget(g, token) == Some(MemberEntity(g.members[i]))
  {
    assert g.members[i] in g.members;
    var k := FirstMemberNamed(g, token).value;
    assert !(k < i) && !(i < k);
  }

  /** Text channels come last: when no role and no member carries the name, the token
      resolves to the first text channel in guild order with that name, and is stored with
      the class `TextChannel`. */
  lemma NameTokenThenChannels(g: Guild, token: string, i: nat)
    requires !IsNumeric(MaybeId(token))
    requires forall x :: x in g.roles ==> !RoleNamed(x, token)
    requires forall m :: m in g.members ==> !MemberNamed(m, token)
    requires i < |g.channels| && TextChannelNamed(g.channels[i], token)
    requires forall j :: 0 <= j < i ==> !TextChannelNamed(g.channels[j], token)
    ensures IdentifyTarget(g, token) == Some(ChannelEntity(g.channels[i]))
    ensures ClassOf(IdentifyTarget(g, token).value) == ChannelClass(TextChannel)
  {
    assert g.channels[i] in g.channels;
    var k := FirstTextChannelNamed(g, token).value;
    assert !(k < i) && !(i < k);
  }
}
