/** The nuke cog: `nuke_not` kicks every guild member except those carrying one of the
    named roles, and refuses to kick anyone when a name matches no role. */
module Nuke {
  import opened Wrappers
  import opened Seqs
  import opened Text
  import opened Discord

  /** One `user.kick()` task. */
  datatype Kick = Kick(member: Member)

  /** What `nuke_not` does: nothing outside a guild; a refusal naming the unknown roles;
      the kicks it starts; or, when nobody is left to kick, the `ValueError` that
      `asyncio.wait` raises on an empty waitlist. */
  datatype Outcome = NoGuild | Refused(misses: seq<string>, text: string) | Kicked(kicks: seq<Kick>) | EmptyWait

  /** `[x for x in all_roles if x.name == name][0]`: the first role whose name is exactly
      `name` (case matters), if any. */
  function NamedRole(roles: seq<Role>, name: string): Option<Role>
  {
    First(roles, (x: Role) => x.name == name)
  }

  /** The names that match no role, in the order given (repeats kept). */
  function Misses(roles: seq<Role>, names: seq<string>): seq<string>
    decreases |names|
  {
    if |names| == 0 then []
    else
      var n := names[|names| - 1];
      Misses(roles, names[..|names| - 1]) + (if NamedRole(roles, n).None? then [n] else [])
  }

  /** `exclude_people`: the members of each named role that exists, one role after the other. */
  function Excluded(g: Guild, roles: seq<Role>, names: seq<string>): seq<Member>
    decreases |names|
  {
    if |names| == 0 then []
    else
      var prior := Excluded(g, roles, names[..|names| - 1]);
      match NamedRole(roles, names[|names| - 1])
      case None => prior
      case Some(r) => prior + RoleMembers(g, r)
  }

  /** Members compare by id, so `x in exclude_people` asks whether a member with `x`'s id
      was excluded. */
  function IdsOf(ms: seq<Member>): set<nat>
  {
    set m | m in ms :: m.id
  }

  /** `[x for x in all_members if x not in exclude_people]` */
  function Kickable(g: Guild, excluded: seq<Member>): seq<Member>
  {
    Filter(g.members, (x: Member) => x.id !in IdsOf(excluded))
  }

  /** The refusal sent when some names match no role. */
  function MissText(misses: seq<string>): string
  {
    "The following roles could not be found: " + Join(misses, ", ") + ".\nNot running until all roles are recognized."
  }

  /** `_remove_users(users)`: one kick per user, in order. */
  function KickAll(users: seq<Member>): seq<Kick>
  {
    Map(users, (u: Member) => Kick(u))
  }

  /** `nuke_not` in a guild whose roles are `roles`. */
  function Decide(g: Guild, roles: seq<Role>, names: seq<string>): Outcome
  {
    var misses := Misses(roles, names);
    if |misses| > 0 then Refused(misses, MissText(misses))
    else
      var kickable := Kickable(g, Excluded(g, roles, names));
      if |kickable| == 0 then EmptyWait else Kicked(KickAll(kickable))
  }

  /** The guild has a member with this id carrying the role (every member carries the
      default role, whose id is the guild's). */
  ghost predicate CarriesRole(g: Guild, r: Role, id: nat)
  {
    exists e :: e in g.members && e.id == id && (r.id == g.id || r.id in e.roleIds)
  }

  /** No member with this id carries any of the roles the names pick. */
  ghost predicate Unprotected(g: Guild, roles: seq<Role>, names: seq<string>, id: nat)
  {
    forall i :: 0 <= i < |names| && NamedRole(roles, names[i]).Some?
      ==> !CarriesRole(g, NamedRole(roles, names[i]).value, id)
  }

  // ---------------------------------------------------------------------------------------
  // Properties

  /** The misses are exactly the names, in the order given, for which no role carries
      exactly that name. */
  lemma {:induction false} MissesAreUnknownNames(roles: seq<Role>, names: seq<string>)
    ensures Misses(roles, names) == Filter(names, (n: string) => NamedRole(roles, n).None?)
    decreases |names|
  {
    if |names| > 0 {
      var init, n := names[..|names| - 1], names[|names| - 1];
      MissesAreUnknownNames(roles, init);
      assert names == init + [n];
      FilterAppend(init, [n], (n: string) => NamedRole(roles, n).None?);
    }
  }

  /** A name misses exactly when no role carries exactly that name. */
  lemma MissIffNoRole(roles: seq<Role>, names: seq<string>, n: string)
    requires n in names
    ensures n in Misses(roles, names) <==> forall r :: r in roles ==> r.name != n
  {
    MissesAreUnknownNames(roles, names);
    if NamedRole(roles, n).Some? {
      var k := FirstIndex(roles, (x: Role) => x.name == n).value;
      assert roles[k] in roles;
    } else {
      forall r | r in roles
        ensures r.name != n
      {
        var j :| 0 <= j < |roles| && roles[j] == r;
      }
    }
  }

  /** One unknown name is enough: nobody is kicked, and the refusal lists the name. */
  lemma AnyMissKicksNobody(g: Guild, roles: seq<Role>, names: seq<string>, n: string)
    requires n in names && forall r :: r in roles ==> r.name != n
    ensures Decide(g, roles, names).Refused?
    ensures n in Decide(g, roles, names).misses
    ensures IsInfix(n, Decide(g, roles, names).text)
  {
    MissIffNoRole(roles, names, n);
    var misses := Misses(roles, names);
    var k :| 0 <= k < |misses| && misses[k] == n;
    JoinShowsItem(misses, ", ", k);
    InfixOfConcat(n, "The following roles could not be found: ", Join(misses, ", "),
      ".\nNot running until all roles are recognized.");
  }

  /** When every name is a role, nothing is refused: the kicks go ahead when some member
      is unprotected, and otherwise the empty wait raises. */
  lemma AllKnownRuns(g: Guild, roles: seq<Role>, names: seq<string>)
    requires forall n :: n in names ==> exists r :: r in roles && r.name == n
    ensures Decide(g, roles, names).Kicked? || Decide(g, roles, names).EmptyWait?
    ensures Decide(g, roles, names).EmptyWait?
        <==> forall m :: m in g.members ==> !Unprotected(g, roles, names, m.id)
  {
    if |Misses(roles, names)| > 0 {
      MissesAreUnknownNames(roles, names);
      var n := Misses(roles, names)[0];
      assert n in Misses(roles, names);
      MissIffNoRole(roles, names, n);
    }
    KickableIsUnprotected(g, roles, names);
    var kickable := Kickable(g, Excluded(g, roles, names));
    if |kickable| > 0 {
      assert kickable[0] in kickable;
    }
  }

  /** The members left to kick are the guild's members, in guild order, that carry none of
      the named roles. */
  lemma KickableIsUnprotected(g: Guild, roles: seq<Role>, names: seq<string>)
    ensures Kickable(g, Excluded(g, roles, names))
         == Filter(g.members, (x: Member) => Unprotected(g, roles, names, x.id))
  {
    forall x | x in g.members
      ensures (x.id !in IdsOf(Excluded(g, roles, names))) == Unprotected(g, roles, names, x.id)
    {
      ExcludedIffCarriesNamedRole(g, roles, names, x.id);
    }
    FilterCongruent(g.members, (x: Member) => x.id !in IdsOf(Excluded(g, roles, names)),
      (x: Member) => Unprotected(g, roles, names, x.id));
  }

  /** A member id is excluded exactly when, for some given name that is a role, the first
      role with that name is carried by a member with that id. */
  lemma {:induction false} ExcludedIffCarriesNamedRole(g: Guild, roles: seq<Role>, names: seq<string>, id: nat)
    ensures id in IdsOf(Excluded(g, roles, names))
        <==> exists i :: 0 <= i < |names| && NamedRole(roles, names[i]).Some?
                         && CarriesRole(g, NamedRole(roles, names[i]).value, id)
    decreases |names|
  {
    if |names| > 0 {
      var init, n := names[..|names| - 1], names[|names| - 1];
      ExcludedIffCarriesNamedRole(g, roles, init, id);
      var prior := Excluded(g, roles, init);
      assert forall i :: 0 <= i < |init| ==> init[i] == names[i];
      match NamedRole(roles, n)
      case None =>
      case Some(r) =>
        RoleMembersCarryRole(g, r);
        assert IdsOf(prior + RoleMembers(g, r)) == IdsOf(prior) + IdsOf(RoleMembers(g, r));
        assert id in IdsOf(RoleMembers(g, r)) <==> CarriesRole(g, r, id);
    }
  }

  /** When every name is a role, the members kicked are exactly the guild's members, in
      guild order, that carry none of the named roles; a member counts as carrying a role
      when a member with the same id does. */
  lemma KickedExactlyTheUnprotected(g: Guild, roles: seq<Role>, names: seq<string>, m: Member)
    requires Decide(g, roles, names).Kicked?
    ensures Decide(g, roles, names).kicks
         == KickAll(Filter(g.members, (x: Member) => Unprotected(g, roles, names, x.id)))
    ensures Kick(m) in Decide(g, roles, names).kicks
        <==> m in g.members && Unprotected(g, roles, names, m.id)
  {
    var kickable := Kickable(g, Excluded(g, roles, names));
    var kicks := KickAll(kickable);
    KickableIsUnprotected(g, roles, names);
    if Kick(m) in kicks {
      var k :| 0 <= k < |kicks| && kicks[k] == Kick(m);
      assert kickable[k] == m;
    }
    if m in kickable {
      var k :| 0 <= k < |kickable| && kickable[k] == m;
      assert kicks[k] == Kick(m);
    }
  }

  /** With no names, every member of the guild is kicked, in guild order (and a guild
      without members makes the empty wait raise). */
  lemma NoNamesKicksEveryone(g: Guild, roles: seq<Role>)
    ensures |g.members| > 0 ==> Decide(g, roles, []) == Kicked(KickAll(g.members))
    ensures |g.members| == 0 ==> Decide(g, roles, []) == EmptyWait
  {
    assert IdsOf([]) == {};
    FilterKeepsAll(g.members, (x: Member) => x.id !in IdsOf([]));
  }

  /** Naming the default role (`@everyone`, whose id is the guild's) protects every member,
      so once every name is a role, the empty wait raises and nobody is kicked. */
  lemma EveryoneRoleRaises(g: Guild, roles: seq<Role>, names: seq<string>, i: nat)
    requires forall n :: n in names ==> exists r :: r in roles && r.name == n
    requires i < |names| && NamedRole(roles, names[i]).Some? && NamedRole(roles, names[i]).value.id == g.id
    ensures Decide(g, roles, names) == EmptyWait
  {
    AllKnownRuns(g, roles, names);
    forall m | m in g.members
      ensures !Unprotected(g, roles, names, m.id)
    {
      assert CarriesRole(g, NamedRole(roles, names[i]).value, m.id);
    }
  }

  // ---------------------------------------------------------------------------------------
  // The commands

  /** `_remove_users`: starts one kick per user, in the order given, then waits for them;
      `asyncio.wait` raises `ValueError` (`raised`) when the waitlist is empty. */
  method RemoveUsers(users: seq<Member>) returns (waitlist: seq<Kick>, raised: bool)
    ensures |waitlist| == |users|
    ensures forall k :: 0 <= k < |users| ==> waitlist[k] == Kick(users[k])
    ensures raised <==> |users| == 0
  {
    waitlist := [];
    for i := 0 to |users|
      invariant |waitlist| == i
      invariant forall k :: 0 <= k < i ==> waitlist[k] == Kick(users[k])
    {
      waitlist := waitlist + [Kick(users[i])];
    }
    raised := |waitlist| == 0;
  }

  /** `nuke`: does nothing, whatever names it is given. */
  method NukeCommand(names: seq<string>) returns (waitlist: seq<Kick>)
    ensures waitlist == []
  {
    waitlist := [];
  }

  /** `nuke_not`: outside a guild it returns at once; otherwise it looks up each name among
      the guild's roles (`fetched`, what `fetch_roles` returned), collecting the members of
      the first role with that name or the name as a miss, refuses when anything missed,
      and otherwise kicks every member not collected; the wait raises when there is none. */
  method NukeNot(guild: Option<Guild>, fetched: seq<Role>, names: seq<string>) returns (outcome: Outcome)
    ensures guild.None? ==> outcome == NoGuild
    ensures guild.Some? ==> outcome == Decide(guild.value, fetched, names)
  {
    if guild.None? {
      return NoGuild;
    }
    var g := guild.value;
    var excludePeople: seq<Member> := [];
    var misses: seq<string> := [];
    for i := 0 to |names|
      invariant excludePeople == Excluded(g, fetched, names[..i])
      invariant misses == Misses(fetched, names[..i])
    {
      assert names[..i + 1][..i] == names[..i];
      var roleFilter := Filter(fetched, (x: Role) => x.name == names[i]);
      FilterHeadIsFirst(fetched, (x: Role) => x.name == names[i]);
      if |roleFilter| > 0 {
        var role := roleFilter[0];
        excludePeople := excludePeople + RoleMembers(g, role);
      } else {
        misses := misses + [names[i]];
      }
    }
    assert names[..|names|] == names;
    if |misses| > 0 {
      return Refused(misses, MissText(misses));
    }
    var kickable := Kickable(g, excludePeople);
    var waitlist, raised := RemoveUsers(kickable);
    if raised {
      return EmptyWait;
    }
    return Kicked(waitlist);
  }
}
