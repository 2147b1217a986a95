/**
 * The role bookkeeping of the jail: which of a member's roles are recorded before jailing,
 * which roles the member keeps while jailed, and which roles are handed back on release.
 */
module Roles {
  import opened Common

  /** A guild role as the jail code sees it: its id, whether it is the guild's default
      (@everyone) role, and whether an integration manages it (the bot can neither give nor
      take a managed role). */
  datatype Role = Role(id: RoleId, isDefault: bool, managed: bool)

  /** The roles the jail strips and records. */
  predicate Assignable(r: Role) {
    !r.isDefault && !r.managed
  }

  function IdSet(rs: seq<Role>): set<RoleId> {
    set r | r in rs :: r.id
  }

  /** The role snapshot stored in jailed_members.roles: the ids of the member's roles that are
      neither the default role nor managed, in the member's order. */
  function Snapshot(roles: seq<Role>): (ids: seq<RoleId>)
    ensures |ids| <= |roles|
    ensures forall r :: r in roles && Assignable(r) ==> r.id in ids
    ensures forall id :: id in ids ==> exists r :: r in roles && Assignable(r) && r.id == id
  {
    if roles == [] then []
    else
      var rest := Snapshot(roles[1..]);
      assert forall r :: r in roles[1..] ==> r in roles;
      if Assignable(roles[0]) then [roles[0].id] + rest else rest
  }

  /** The member's managed roles, in order. */
  function ManagedRoles(roles: seq<Role>): (ms: seq<Role>)
    ensures forall r :: r in ms <==> r in roles && r.managed
  {
    if roles == [] then []
    else
      var rest := ManagedRoles(roles[1..]);
      assert roles == [roles[0]] + roles[1..];
      if roles[0].managed then [roles[0]] + rest else rest
  }

  /** The role list the jail command hands to `member.edit`: the jail role followed by the
      member's managed roles, and nothing else. */
  function IsolatedRoles(jailRole: Role, roles: seq<Role>): (rs: seq<Role>)
    ensures rs != [] && rs[0] == jailRole
    ensures forall r :: r in rs <==> r == jailRole || (r in roles && r.managed)
  {
    [jailRole] + ManagedRoles(roles)
  }

  /** The roles handed back on release: every snapshot id that is non-zero and still names a
      role of the guild; ids of deleted roles are skipped. */
  function RolesToRestore(guildRoles: map<RoleId, Role>, snapshot: seq<RoleId>): (rs: seq<Role>)
    ensures |rs| <= |snapshot|
    ensures forall id :: id in snapshot && id != 0 && id in guildRoles ==> guildRoles[id] in rs
    ensures forall r :: r in rs ==> exists id :: id in snapshot && id != 0 && id in guildRoles && guildRoles[id] == r
  {
    if snapshot == [] then []
    else
      var rest := RolesToRestore(guildRoles, snapshot[1..]);
      assert forall id :: id in snapshot[1..] ==> id in snapshot;
      assert snapshot == [snapshot[0]] + snapshot[1..];
      var id := snapshot[0];
      if id != 0 && id in guildRoles then [guildRoles[id]] + rest else rest
  }

  /** How the role calls of a release went: `remove_roles(jail_role)` is made first, then
      `add_roles(*restore)`, which sends one request per role in order. An exception stops the
      sequence; `AddRejected(added)` says how many roles were added before a request was
      rejected. */
  datatype RoleCalls = BothSucceeded | RemoveRejected | AddRejected(added: nat)

  /** The ids of the first `n` roles (all of them once `n` runs past the end). */
  function FirstIds(restore: seq<Role>, n: nat): (ids: set<RoleId>)
    ensures ids <= IdSet(restore)
  {
    if n < |restore| then
      assert forall r :: r in restore[..n] ==> r in restore;
      IdSet(restore[..n])
    else IdSet(restore)
  }

  /** The member's role ids after a release attempt: the jail role goes unless its removal
      was rejected, and the restored roles come back as far as their requests went through. */
  function AfterRestore(current: set<RoleId>, jailRole: RoleId, restore: seq<Role>, calls: RoleCalls): (r: set<RoleId>)
    ensures calls.RemoveRejected? ==> r == current
    ensures !calls.RemoveRejected? ==> current - {jailRole} <= r
    ensures r <= current + IdSet(restore)
    ensures calls.BothSucceeded? ==> IdSet(restore) <= r
    ensures !calls.RemoveRejected? && jailRole !in IdSet(restore) ==> jailRole !in r
  {
    match calls
    case RemoveRejected => current
    case AddRejected(added) => (current - {jailRole}) + FirstIds(restore, added)
    case BothSucceeded => (current - {jailRole}) + IdSet(restore)
  }

  /** Whatever the first attempt managed (nothing, the removal only, or some of the roles), a
      retry whose calls all succeed leaves the member exactly as one successful release would:
      keeping the row after a failed release and retrying on a later tick is safe. */
  lemma {:induction false} RetryAfterFailedRestore(current: set<RoleId>, jailRole: RoleId, restore: seq<Role>, first: RoleCalls)
    ensures AfterRestore(AfterRestore(current, jailRole, restore, first), jailRole, restore, BothSucceeded)
            == AfterRestore(current, jailRole, restore, BothSucceeded)
  {
    var once := AfterRestore(current, jailRole, restore, BothSucceeded);
    var twice := AfterRestore(AfterRestore(current, jailRole, restore, first), jailRole, restore, BothSucceeded);
    assert first.AddRejected? ==> FirstIds(restore, first.added) <= IdSet(restore);
    assert twice == once;
  }

  /** When every snapshot id still names a role with that id, the restored ids are exactly the
      snapshot's ids. */
  lemma {:induction false} RestoreAllIds(guildRoles: map<RoleId, Role>, snapshot: seq<RoleId>)
    requires forall id :: id in snapshot ==> id != 0 && id in guildRoles && guildRoles[id].id == id
    ensures IdSet(RolesToRestore(guildRoles, snapshot)) == set id | id in snapshot
  {
    var rs := RolesToRestore(guildRoles, snapshot);
    forall id | id in snapshot ensures id in IdSet(rs) {
      assert guildRoles[id] in rs;
    }
    forall id | id in IdSet(rs) ensures id in snapshot {
      var r :| r in rs && r.id == id;
      var id' :| id' in snapshot && id' != 0 && id' in guildRoles && guildRoles[id'] == r;
    }
  }

  /** Jailing and then releasing with both calls succeeding gives the member back every role
      except the default one: the managed roles were never taken and the snapshot covers the
      rest. This needs the jail role not to be managed, no managed role to share its id, the
      default role not to be managed, and every recorded role to still exist. */
  lemma {:induction false} JailRoundTrip(roles: seq<Role>, jailRole: Role, guildRoles: map<RoleId, Role>)
    requires Assignable(jailRole)
    requires forall r :: r in roles && r.managed ==> r.id != jailRole.id && !r.isDefault
    requires forall r :: r in roles && Assignable(r) ==> r.id != 0 && r.id in guildRoles && guildRoles[r.id].id == r.id
    ensures AfterRestore(IdSet(IsolatedRoles(jailRole, roles)), jailRole.id,
                         RolesToRestore(guildRoles, Snapshot(roles)), BothSucceeded)
            == set r | r in roles && !r.isDefault :: r.id
  {
    var snap := Snapshot(roles);
    RestoreAllIds(guildRoles, snap);
    var isolated := IdSet(IsolatedRoles(jailRole, roles));
    var restored := IdSet(RolesToRestore(guildRoles, snap));
    var kept := set r | r in roles && !r.isDefault :: r.id;
    forall id | id in (isolated - {jailRole.id}) + restored ensures id in kept {
      if id in restored {
        var r :| r in roles && Assignable(r) && r.id == id;
      } else {
        var r :| r in IsolatedRoles(jailRole, roles) && r.id == id;
      }
    }
    forall id | id in kept ensures id in (isolated - {jailRole.id}) + restored {
      var r :| r in roles && !r.isDefault && r.id == id;
      if r.managed {
        assert r in IsolatedRoles(jailRole, roles);
      } else {
        assert id in snap;
      }
    }
  }
}
