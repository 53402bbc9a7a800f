/** The part of a chat guild that the cogs read: a snapshot of its members, roles and
    channels, plus the message and host facts consulted by the event filter. */
module Discord {
  import opened Wrappers
  import opened Seqs

  /** A guild member; `roleIds` are the ids of the roles the member carries. */
  datatype Member = Member(id: nat, name: string, displayName: string, bot: bool, roleIds: set<nat>)

  datatype Role = Role(id: nat, name: string)

  /** The class of a guild channel. */
  datatype ChannelKind = TextChannel | VoiceChannel | StageChannel | CategoryChannel | ForumChannel

  /** The name of a channel class, as `type(channel).__name__` gives it. */
  function ChannelClassName(k: ChannelKind): string
  {
    match k
    case TextChannel => "TextChannel"
    case VoiceChannel => "VoiceChannel"
    case StageChannel => "StageChannel"
    case CategoryChannel => "CategoryChannel"
    case ForumChannel => "ForumChannel"
  }

  datatype Channel = Channel(id: nat, name: string, kind: ChannelKind)

  datatype Guild = Guild(id: nat, name: string, members: seq<Member>, roles: seq<Role>, channels: seq<Channel>)

  /** `guild.get_member(id)` */
  function GetMember(g: Guild, id: nat): Option<Member>
  {
    First(g.members, (m: Member) => m.id == id)
  }

  /** `guild.get_role(id)` */
  function GetRole(g: Guild, id: nat): Option<Role>
  {
    First(g.roles, (r: Role) => r.id == id)
  }

  /** `guild.get_channel(id)` */
  function GetChannel(g: Guild, id: nat): Option<Channel>
  {
    First(g.channels, (c: Channel) => c.id == id)
  }

  /** `role.members`: every guild member carrying the role, in guild order; the default
      role (whose id is the guild's own id) holds every member. */
  function RoleMembers(g: Guild, r: Role): seq<Member>
  {
    if r.id == g.id then g.members else Filter(g.members, (m: Member) => r.id in m.roleIds)
  }

  /** A member is among the role's members exactly when it is in the guild and carries the
      role, or the role is the default role. */
  lemma RoleMembersCarryRole(g: Guild, r: Role)
    ensures forall m :: m in RoleMembers(g, r) <==> m in g.members && (r.id == g.id || r.id in m.roleIds)
  {
  }

  /** The author of a message: a guild member, or a plain user (a webhook, a user seen
      outside a guild). */
  datatype Author = MemberAuthor(member: Member) | UserAuthor(displayName: string, bot: bool)

  function AuthorName(a: Author): string
  {
    match a
    case MemberAuthor(m) => m.displayName
    case UserAuthor(n, _) => n
  }

  /** A message as the cog sees it: the guild it was sent in (None for a direct message),
      its author, the name of its channel, its raw content and its clean content (mentions
      rendered as text). */
  datatype Message = Message(guild: Option<Guild>, author: Author, channelName: string, content: string, cleanContent: string)

  /** What `bot.get_prefix` returned: one prefix, a list of prefixes, or something else. */
  datatype Prefixes = OnePrefix(prefix: string) | PrefixList(prefixes: seq<string>) | OtherPrefixes

  /** The host's answers about one message: whether the cog is disabled in the guild, the
      command prefixes, and whether automod would ignore the message. */
  datatype Host = Host(cogDisabled: bool, prefixes: Prefixes, automodImmune: bool)
}
