/** Guild permissions: the base set of a member and the channel overwrites on top of it. */
module Permissions {
  import opened Bytes

  /** A 64-bit mask, as the set of the numbers of its bits: `|` is union, `& ~` is difference. */
  type Mask = s: set<nat> | forall b :: b in s ==> b < 64

  /** The number of the bit `p_administrator`, 0x8. */
  const ADMINISTRATOR: nat := 3

  /** `~0`. */
  const ALL: Mask := set b: nat | b < 64

  datatype OverwriteType = RoleOverwrite | MemberOverwrite

  datatype Overwrite = Overwrite(id: nat, kind: OverwriteType, allow: Mask, deny: Mask)

  datatype Member = Member(userId: nat, roles: seq<nat>)

  /** A guild; `roleCache` is what `find_role` finds. The role with the guild's own id is everyone's. */
  datatype Guild = Guild(id: nat, ownerId: nat, members: map<nat, Member>, roleCache: map<nat, Mask>)

  type Channel = seq<Overwrite>

  // ---------------------------------------------------------------- specification

  /** The permissions of all listed roles together. */
  function RoleUnion(cache: map<nat, Mask>, roles: seq<nat>): (p: Mask) {
    if roles == [] then {}
    else RoleUnion(cache, roles[..|roles| - 1]) + RoleBits(cache, roles[|roles| - 1])
  }

  function RoleBits(cache: map<nat, Mask>, rid: nat): (p: Mask) {
    if rid in cache then cache[rid] else {}
  }

  /** `base_permissions(member)`. */
  function Base(g: Guild, m: Member): (p: Mask) {
    if g.ownerId == m.userId then ALL
    else if g.id !in g.roleCache then {}
    else
      var p := g.roleCache[g.id] + RoleUnion(g.roleCache, m.roles);
      if ADMINISTRATOR in p then ALL else p
  }

  /** The first overwrite of a kind for an id, if any. */
  function FirstOverwrite(ch: Channel, id: nat, kind: OverwriteType): (r: Option<Overwrite>) {
    if ch == [] then None
    else if ch[0].id == id && ch[0].kind == kind then Some(ch[0])
    else FirstOverwrite(ch[1..], id, kind)
  }

  function AllowOf(o: Option<Overwrite>): (p: Mask) {
    if o.Some? then o.value.allow else {}
  }

  function DenyOf(o: Option<Overwrite>): (p: Mask) {
    if o.Some? then o.value.deny else {}
  }

  /** Deny, then allow. */
  function Change(p: Mask, allow: Mask, deny: Mask): (r: Mask) {
    (p - deny) + allow
  }

  /** The allowed and denied bits of all the member's roles but everyone's. */
  function RoleAllow(ch: Channel, everyone: nat, roles: seq<nat>): (p: Mask) {
    if roles == [] then {}
    else
      var rid := roles[|roles| - 1];
      RoleAllow(ch, everyone, roles[..|roles| - 1])
      + (if rid == everyone then {} else AllowOf(FirstOverwrite(ch, rid, RoleOverwrite)))
  }

  function RoleDeny(ch: Channel, everyone: nat, roles: seq<nat>): (p: Mask) {
    if roles == [] then {}
    else
      var rid := roles[|roles| - 1];
      RoleDeny(ch, everyone, roles[..|roles| - 1])
      + (if rid == everyone then {} else DenyOf(FirstOverwrite(ch, rid, RoleOverwrite)))
  }

  /** The overwrites of a channel applied to a base set. */
  function Overwritten(g: Guild, base: Mask, m: Member, ch: Channel): (p: Mask) {
    if ADMINISTRATOR in base then ALL
    else
      var everyone := FirstOverwrite(ch, g.id, RoleOverwrite);
      var own := FirstOverwrite(ch, m.userId, MemberOverwrite);
      var p1 := Change(base, AllowOf(everyone), DenyOf(everyone));
      var p2 := Change(p1, RoleAllow(ch, g.id, m.roles), RoleDeny(ch, g.id, m.roles));
      Change(p2, AllowOf(own), DenyOf(own))
  }

  // ----------------------------------------------------------- the methods of guild

  method BasePermissions(g: Guild, m: Member) returns (r: Mask)
    ensures r == Base(g, m)
  {
    if g.ownerId == m.userId {
      return ALL;
    }
    if g.id !in g.roleCache {
      return {};
    }
    var permissions := g.roleCache[g.id];
    for i := 0 to |m.roles|
      invariant permissions == g.roleCache[g.id] + RoleUnion(g.roleCache, m.roles[..i])
    {
      assert m.roles[..i + 1][..i] == m.roles[..i];
      if m.roles[i] in g.roleCache {
        permissions := permissions + g.roleCache[m.roles[i]];
      }
    }
    assert m.roles[..|m.roles|] == m.roles;
    if ADMINISTRATOR in permissions {
      return ALL;
    }
    return permissions;
  }

  /** `base_permissions(user)`; no user, or one who is no member, has none. */
  method BasePermissionsOfUser(g: Guild, user: Option<nat>) returns (r: Mask)
    ensures r == if user.Some? && user.value in g.members then Base(g, g.members[user.value]) else {}
  {
    if user.None? || user.value !in g.members {
      return {};
    }
    r := BasePermissions(g, g.members[user.value]);
  }

  /** The search loop with its early `break`. */
  method FindOverwrite(ch: Channel, id: nat, kind: OverwriteType) returns (r: Option<Overwrite>)
    ensures r == FirstOverwrite(ch, id, kind)
  {
    r := None;
    for i := 0 to |ch|
      invariant r.None?
      invariant FirstOverwrite(ch[i..], id, kind) == FirstOverwrite(ch, id, kind)
    {
      assert ch[i..][0] == ch[i] && ch[i..][1..] == ch[i + 1..];
      if ch[i].id == id && ch[i].kind == kind {
        return Some(ch[i]);
      }
    }
  }

  /** The loop over the member's roles. */
  method RoleOverwrites(g: Guild, m: Member, ch: Channel) returns (allow: Mask, deny: Mask)
    ensures allow == RoleAllow(ch, g.id, m.roles) && deny == RoleDeny(ch, g.id, m.roles)
  {
    allow, deny := {}, {};
    for i := 0 to |m.roles|
      invariant allow == RoleAllow(ch, g.id, m.roles[..i]) && deny == RoleDeny(ch, g.id, m.roles[..i])
    {
      assert m.roles[..i + 1][..i] == m.roles[..i];
      if m.roles[i] == g.id {
        continue;
      }
      var it := FindOverwrite(ch, m.roles[i], RoleOverwrite);
      if it.Some? {
        deny := deny + it.value.deny;
        allow := allow + it.value.allow;
      }
    }
    assert m.roles[..|m.roles|] == m.roles;
  }

  /** `permission_overwrites(base, user, channel)`: the member is looked up again on the way. */
  method PermissionOverwritesOfUser(g: Guild, base: Mask, user: Option<nat>, channel: Option<Channel>) returns (r: Mask)
    ensures user.None? || channel.None? ==> r == {}
    ensures user.Some? && channel.Some? && ADMINISTRATOR in base ==> r == ALL
    ensures user.Some? && channel.Some? && user.value !in g.members && ADMINISTRATOR !in base ==> r == {}
    ensures user.Some? && channel.Some? && user.value in g.members ==>
              r == Overwritten(g, base, g.members[user.value], channel.value)
  {
    if user.None? || channel.None? {
      return {};
    }
    if ADMINISTRATOR in base {
      return ALL;
    }
    var permissions := base;
    var everyone := FindOverwrite(channel.value, g.id, RoleOverwrite);
    if everyone.Some? {
      permissions := permissions - everyone.value.deny;
      permissions := permissions + everyone.value.allow;
    }
    if user.value !in g.members {
      return {};
    }
    var gm := g.members[user.value];
    var allow, deny := RoleOverwrites(g, gm, channel.value);
    permissions := permissions - deny;
    permissions := permissions + allow;
    var own := FindOverwrite(channel.value, gm.userId, MemberOverwrite);
    if own.Some? {
      permissions := permissions - own.value.deny;
      permissions := permissions + own.value.allow;
    }
    r := permissions;
  }

  /** `permission_overwrites(member, channel)`. */
  method PermissionOverwrites(g: Guild, m: Member, ch: Channel) returns (r: Mask)
    ensures r == Overwritten(g, Base(g, m), m, ch)
  {
    var base := BasePermissions(g, m);
    if ADMINISTRATOR in base {
      return ALL;
    }
    var permissions := base;
    var everyone := FindOverwrite(ch, g.id, RoleOverwrite);
    if everyone.Some? {
      permissions := permissions - everyone.value.deny;
      permissions := permissions + everyone.value.allow;
    }
    var allow, deny := RoleOverwrites(g, m, ch);
    permissions := permissions - deny;
    permissions := permissions + allow;
    var own := FindOverwrite(ch, m.userId, MemberOverwrite);
    if own.Some? {
      permissions := permissions - own.value.deny;
      permissions := permissions + own.value.allow;
    }
    r := permissions;
  }

  /** The two ways of asking agree for every member. */
  method BothFormsAgree(g: Guild, user: nat, ch: Channel) returns (byUser: Mask, byMember: Mask)
    requires user in g.members
    ensures byUser == byMember
  {
    var base := BasePermissionsOfUser(g, Some(user));
    byUser := PermissionOverwritesOfUser(g, base, Some(user), Some(ch));
    byMember := PermissionOverwrites(g, g.members[user], ch);
  }

  // -------------------------------------------------------- what the result means

  /** Entry `i` of the channel is for this id, of this kind, and the first such. */
  ghost predicate IsFirst(ch: Channel, i: int, id: nat, kind: OverwriteType) {
    && 0 <= i < |ch| && ch[i].id == id && ch[i].kind == kind
    && forall j :: 0 <= j < i ==> !(ch[j].id == id && ch[j].kind == kind)
  }

  /** The search finds the first entry of that id and kind, and nothing exactly when there is none. */
  lemma {:induction false} FirstOverwriteMeans(ch: Channel, id: nat, kind: OverwriteType, o: Overwrite)
    ensures FirstOverwrite(ch, id, kind) == Some(o) <==> exists i :: IsFirst(ch, i, id, kind) && ch[i] == o
    ensures FirstOverwrite(ch, id, kind) == None <==> forall i :: 0 <= i < |ch| ==> !(ch[i].id == id && ch[i].kind == kind)
  {
    if ch != [] && !(ch[0].id == id && ch[0].kind == kind) {
      var tail := ch[1..];
      FirstOverwriteMeans(tail, id, kind, o);
      forall i: nat | i < |tail|
        ensures IsFirst(ch, i + 1, id, kind) <==> IsFirst(tail, i, id, kind)
      {
        FirstLater(ch, i, id, kind);
      }
      if i :| IsFirst(tail, i, id, kind) && tail[i] == o {
        assert IsFirst(ch, i + 1, id, kind) && ch[i + 1] == o;
      }
      if i :| IsFirst(ch, i, id, kind) && ch[i] == o {
        assert IsFirst(tail, i - 1, id, kind) && tail[i - 1] == o;
      }
      assert forall i :: 0 < i < |ch| ==> ch[i] == tail[i - 1];
      assert forall i :: 0 <= i < |tail| ==> tail[i] == ch[i + 1];
    } else if ch != [] {
      assert IsFirst(ch, 0, id, kind);
      assert forall i :: IsFirst(ch, i, id, kind) ==> i == 0;
    }
  }

  lemma FirstLater(ch: Channel, i: nat, id: nat, kind: OverwriteType)
    requires i + 1 < |ch| && !(ch[0].id == id && ch[0].kind == kind)
    ensures IsFirst(ch, i + 1, id, kind) <==> IsFirst(ch[1..], i, id, kind)
  {
    var tail := ch[1..];
    assert forall j :: 0 < j < |ch| ==> ch[j] == tail[j - 1];
    assert forall j :: 0 <= j < |tail| ==> tail[j] == ch[j + 1];
  }

  /** The first overwrite for this id, of this kind, allows, or denies, bit `b`. */
  ghost predicate Allows(ch: Channel, id: nat, kind: OverwriteType, b: nat) {
    exists i :: IsFirst(ch, i, id, kind) && b in ch[i].allow
  }

  ghost predicate Denies(ch: Channel, id: nat, kind: OverwriteType, b: nat) {
    exists i :: IsFirst(ch, i, id, kind) && b in ch[i].deny
  }

  lemma OverwriteBit(ch: Channel, id: nat, kind: OverwriteType, b: nat)
    ensures b in AllowOf(FirstOverwrite(ch, id, kind)) <==> Allows(ch, id, kind, b)
    ensures b in DenyOf(FirstOverwrite(ch, id, kind)) <==> Denies(ch, id, kind, b)
  {
    hide FirstOverwrite;
    var f := FirstOverwrite(ch, id, kind);
    if f.Some? {
      FirstOverwriteMeans(ch, id, kind, f.value);
      var i :| IsFirst(ch, i, id, kind) && ch[i] == f.value;
      forall j | IsFirst(ch, j, id, kind)
        ensures ch[j] == f.value
      {
        assert !(i < j) && !(j < i);
      }
    } else {
      FirstOverwriteMeans(ch, id, kind, Overwrite(0, kind, {}, {}));
    }
  }

  lemma {:induction false} RoleUnionBit(cache: map<nat, Mask>, roles: seq<nat>, b: nat)
    ensures b in RoleUnion(cache, roles) <==> exists r :: r in roles && r in cache && b in cache[r]
  {
    if roles != [] {
      var front, last := roles[..|roles| - 1], roles[|roles| - 1];
      RoleUnionBit(cache, front, b);
      assert roles == front + [last];
    }
  }

  /** Some role other than everyone's has an overwrite that allows, or denies, `b`. */
  ghost predicate SomeRoleAllows(ch: Channel, everyone: nat, roles: seq<nat>, b: nat) {
    exists r :: r in roles && r != everyone && Allows(ch, r, RoleOverwrite, b)
  }

  ghost predicate SomeRoleDenies(ch: Channel, everyone: nat, roles: seq<nat>, b: nat) {
    exists r :: r in roles && r != everyone && Denies(ch, r, RoleOverwrite, b)
  }

  lemma {:induction false} RoleOverwriteBit(ch: Channel, everyone: nat, roles: seq<nat>, b: nat)
    ensures b in RoleAllow(ch, everyone, roles) <==> SomeRoleAllows(ch, everyone, roles, b)
    ensures b in RoleDeny(ch, everyone, roles) <==> SomeRoleDenies(ch, everyone, roles, b)
  {
    hide FirstOverwrite, AllowOf, DenyOf, Allows, Denies;
    if roles != [] {
      var front, last := roles[..|roles| - 1], roles[|roles| - 1];
      RoleOverwriteBit(ch, everyone, front, b);
      OverwriteBit(ch, last, RoleOverwrite, b);
      assert roles == front + [last];
    }
  }

  /** The base set: owners have all, others what everyone or one of their roles has, and
      administrators, who have bit 3, all. */
  ghost predicate HasBase(g: Guild, m: Member, b: nat) {
    b < 64
    && (g.ownerId == m.userId
        || (g.id in g.roleCache && (RolesGive(g, m, 3) || RolesGive(g, m, b))))
  }

  ghost predicate RolesGive(g: Guild, m: Member, b: nat)
    requires g.id in g.roleCache
  {
    b in g.roleCache[g.id] || exists r :: r in m.roles && r in g.roleCache && b in g.roleCache[r]
  }

  lemma BaseBit(g: Guild, m: Member, b: nat)
    ensures b in Base(g, m) <==> HasBase(g, m, b)
  {
    hide RoleUnion;
    RoleUnionBit(g.roleCache, m.roles, b);
    RoleUnionBit(g.roleCache, m.roles, 3);
  }

  /** The permission rule, bit by bit: owner and administrators have everything; otherwise the
      member's own overwrite decides, then the roles', then everyone's, then the base set, and at
      each level allow beats deny. */
  lemma OverwriteRule(g: Guild, m: Member, ch: Channel, b: nat)
    requires b < 64
    ensures b in Overwritten(g, Base(g, m), m, ch) <==>
              if HasBase(g, m, 3) then true
              else if Allows(ch, m.userId, MemberOverwrite, b) then true
              else if Denies(ch, m.userId, MemberOverwrite, b) then false
              else if SomeRoleAllows(ch, g.id, m.roles, b) then true
              else if SomeRoleDenies(ch, g.id, m.roles, b) then false
              else if Allows(ch, g.id, RoleOverwrite, b) then true
              else if Denies(ch, g.id, RoleOverwrite, b) then false
              else HasBase(g, m, b)
  {
    hide Base, HasBase, RoleAllow, RoleDeny, FirstOverwrite, AllowOf, DenyOf, SomeRoleAllows, SomeRoleDenies;
    hide Allows, Denies;
    BaseBit(g, m, b);
    BaseBit(g, m, 3);
    OverwriteBit(ch, m.userId, MemberOverwrite, b);
    OverwriteBit(ch, g.id, RoleOverwrite, b);
    RoleOverwriteBit(ch, g.id, m.roles, b);
  }

  /** The order of a member's roles, and repetitions among them, make no difference. */
  lemma RolesAreASet(g: Guild, m: Member, m': Member, ch: Channel)
    requires m.userId == m'.userId && forall r :: r in m.roles <==> r in m'.roles
    ensures Overwritten(g, Base(g, m), m, ch) == Overwritten(g, Base(g, m'), m', ch)
  {
    hide Overwritten, FirstOverwrite, Base;
    var p, p' := Overwritten(g, Base(g, m), m, ch), Overwritten(g, Base(g, m'), m', ch);
    forall b: nat | b < 64
      ensures b in p <==> b in p'
    {
      OverwriteRule(g, m, ch, b);
      OverwriteRule(g, m', ch, b);
    }
  }
}
