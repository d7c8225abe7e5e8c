/**
  The relayer's replica of group permissions (relayer/src/auth/membership.rs), kept by replaying the
  chain's membership events (relayer/src/services/membership_sync.rs) across reconnecting sessions.
 */
module Membership {
  import opened Messages
  import opened Sequences
  import opened Wrappers

  datatype Permission = MessagingSender | MessagingReader | MessagingEditor | MessagingDeleter

  datatype GroupsEvent =
    | MemberAdded(groupId: GroupId, member: Address)
    | MemberRemoved(groupId: GroupId, member: Address)
    | PermissionsGranted(groupId: GroupId, member: Address, permissions: seq<Permission>)
    | PermissionsRevoked(groupId: GroupId, member: Address, permissions: seq<Permission>)

  datatype MembershipError = MemberNotFound(groupId: GroupId, address: Address)

  type Members = map<GroupId, map<Address, set<Permission>>>

  // ---------------------------------------------------------------- one event

  predicate Knows(ms: Members, g: GroupId, a: Address) {
    g in ms && a in ms[g]
  }

  function Permissions(ms: Members, g: GroupId, a: Address): set<Permission> {
    if Knows(ms, g, a) then ms[g][a] else {}
  }

  predicate HasPermission(ms: Members, g: GroupId, a: Address, p: Permission) {
    p in Permissions(ms, g, a)
  }

  function SetOf(ps: seq<Permission>): set<Permission> {
    set p | p in ps
  }

  function SetPermissions(ms: Members, g: GroupId, a: Address, ps: set<Permission>): Members {
    ms[g := (if g in ms then ms[g] else map[])[a := ps]]
  }

  /** A grant or revocation for an unknown member fails and changes nothing; the sync service only logs it. */
  function ApplyEvent(ms: Members, e: GroupsEvent): Members {
    match e
    case MemberAdded(g, a) => SetPermissions(ms, g, a, {})
    case MemberRemoved(g, a) => if g in ms then ms[g := ms[g] - {a}] else ms
    case PermissionsGranted(g, a, ps) => if Knows(ms, g, a) then SetPermissions(ms, g, a, ms[g][a] + SetOf(ps)) else ms
    case PermissionsRevoked(g, a, ps) => if Knows(ms, g, a) then SetPermissions(ms, g, a, ms[g][a] - SetOf(ps)) else ms
  }

  function ReplayFrom(ms: Members, history: seq<GroupsEvent>): Members {
    if history == [] then ms
    else ApplyEvent(ReplayFrom(ms, history[..|history| - 1]), history[|history| - 1])
  }

  function Replay(history: seq<GroupsEvent>): Members {
    ReplayFrom(map[], history)
  }

  // ---------------------------------------------------------------- the object

  class InMemoryMembershipStore {
    var members: Members

    constructor ()
      ensures members == map[]
    {
      members := map[];
    }

    method AddMember(groupId: GroupId, address: Address, initialPermissions: seq<Permission>)
      modifies this
      ensures members == SetPermissions(old(members), groupId, address, SetOf(initialPermissions))
    {
      var groupMembers := if groupId in members then members[groupId] else map[];
      groupMembers := groupMembers[address := SetOf(initialPermissions)];
      members := members[groupId := groupMembers];
    }

    method RemoveMember(groupId: GroupId, address: Address)
      modifies this
      ensures members == ApplyEvent(old(members), MemberRemoved(groupId, address))
    {
      if groupId in members {
        members := members[groupId := members[groupId] - {address}];
      }
    }

    method GrantPermissions(groupId: GroupId, address: Address, permissions: seq<Permission>) returns (r: Result<(), MembershipError>)
      modifies this
      ensures members == ApplyEvent(old(members), PermissionsGranted(groupId, address, permissions))
      ensures r == if Knows(old(members), groupId, address) then Success(()) else Failure(MemberNotFound(groupId, address))
    {
      if groupId !in members { return Failure(MemberNotFound(groupId, address)); }
      if address !in members[groupId] { return Failure(MemberNotFound(groupId, address)); }
      var memberPerms := members[groupId][address];
      for i := 0 to |permissions|
        invariant memberPerms == members[groupId][address] + SetOf(permissions[..i])
      {
        assert permissions[..i + 1] == permissions[..i] + [permissions[i]];
        memberPerms := memberPerms + {permissions[i]};
      }
      assert permissions[..|permissions|] == permissions;
      members := members[groupId := members[groupId][address := memberPerms]];
      r := Success(());
    }

    method RevokePermissions(groupId: GroupId, address: Address, permissions: seq<Permission>) returns (r: Result<(), MembershipError>)
      modifies this
      ensures members == ApplyEvent(old(members), PermissionsRevoked(groupId, address, permissions))
      ensures r == if Knows(old(members), groupId, address) then Success(()) else Failure(MemberNotFound(groupId, address))
    {
      if groupId !in members { return Failure(MemberNotFound(groupId, address)); }
      if address !in members[groupId] { return Failure(MemberNotFound(groupId, address)); }
      var memberPerms := members[groupId][address];
      for i := 0 to |permissions|
        invariant memberPerms == members[groupId][address] - SetOf(permissions[..i])
      {
        assert permissions[..i + 1] == permissions[..i] + [permissions[i]];
        memberPerms := memberPerms - {permissions[i]};
      }
      assert permissions[..|permissions|] == permissions;
      members := members[groupId := members[groupId][address := memberPerms]];
      r := Success(());
    }

    /** Membership as the relayer reports it: holding at least one permission. */
    method IsMember(groupId: GroupId, address: Address) returns (r: bool)
      ensures r <==> exists p :: HasPermission(members, groupId, address, p)
    {
      r := groupId in members && address in members[groupId] && members[groupId][address] != {};
      if r {
        var p :| p in members[groupId][address];
        assert HasPermission(members, groupId, address, p);
      }
    }
  }

  // ---------------------------------------------------------------- what a history means

  predicate About(e: GroupsEvent, g: GroupId, a: Address) {
    e.groupId == g && e.member == a
  }

  predicate Adds(e: GroupsEvent, g: GroupId, a: Address) {
    e.MemberAdded? && About(e, g, a)
  }

  predicate Removes(e: GroupsEvent, g: GroupId, a: Address) {
    e.MemberRemoved? && About(e, g, a)
  }

  predicate Grants(e: GroupsEvent, g: GroupId, a: Address, p: Permission) {
    e.PermissionsGranted? && About(e, g, a) && p in e.permissions
  }

  predicate Revokes(e: GroupsEvent, g: GroupId, a: Address, p: Permission) {
    e.PermissionsRevoked? && About(e, g, a) && p in e.permissions
  }

  /** Added at `i`, and not removed between `i` and `n`. */
  ghost predicate AddedBy(h: seq<GroupsEvent>, n: nat, g: GroupId, a: Address, i: int) {
    0 <= i < n <= |h| && Adds(h[i], g, a) && forall j | i < j < n :: !Removes(h[j], g, a)
  }

  /** Granted at `k`, and nothing after it re-adds, removes, or revokes the permission. */
  ghost predicate GrantStands(h: seq<GroupsEvent>, g: GroupId, a: Address, p: Permission, k: int) {
    0 <= k < |h| && Grants(h[k], g, a, p)
    && forall j | k < j < |h| :: !Adds(h[j], g, a) && !Removes(h[j], g, a) && !Revokes(h[j], g, a, p)
  }

  /** A member is known exactly when some add has no later removal. */
  lemma {:induction false} KnownIff(h: seq<GroupsEvent>, g: GroupId, a: Address)
    ensures Knows(Replay(h), g, a) <==> exists i :: AddedBy(h, |h|, g, a, i)
  {
    if h == [] {
    } else {
      var front, e := h[..|h| - 1], h[|h| - 1];
      KnownIff(front, g, a);
      if i :| AddedBy(front, |front|, g, a, i) {
        if !Removes(e, g, a) { assert AddedBy(h, |h|, g, a, i); }
      }
      if i :| AddedBy(h, |h|, g, a, i) {
        if i < |front| { assert AddedBy(front, |front|, g, a, i); }
      }
      if Adds(e, g, a) { assert AddedBy(h, |h|, g, a, |h| - 1); }
    }
  }

  lemma KnownBefore(h: seq<GroupsEvent>, n: nat, g: GroupId, a: Address)
    requires n <= |h|
    ensures Knows(Replay(h[..n]), g, a) <==> exists i :: AddedBy(h, n, g, a, i)
  {
    KnownIff(h[..n], g, a);
    if i :| AddedBy(h[..n], n, g, a, i) { assert AddedBy(h, n, g, a, i); }
    if i :| AddedBy(h, n, g, a, i) { assert AddedBy(h[..n], n, g, a, i); }
  }

  /** A grant at `k` to a member added before it and not removed since, which still stands. */
  ghost predicate Holds(h: seq<GroupsEvent>, g: GroupId, a: Address, p: Permission, k: int) {
    GrantStands(h, g, a, p, k) && Knows(Replay(h[..k]), g, a)
  }

  predicate Disturbs(e: GroupsEvent, g: GroupId, a: Address, p: Permission) {
    Adds(e, g, a) || Removes(e, g, a) || Revokes(e, g, a, p)
  }

  lemma LastEventDecides(ms: Members, e: GroupsEvent, g: GroupId, a: Address, p: Permission)
    ensures HasPermission(ApplyEvent(ms, e), g, a, p)
       <==> (Grants(e, g, a, p) && Knows(ms, g, a)) || (HasPermission(ms, g, a, p) && !Disturbs(e, g, a, p))
  {
  }

  lemma HoldsExtends(h: seq<GroupsEvent>, g: GroupId, a: Address, p: Permission, k: int)
    requires h != [] && k < |h| - 1
    ensures Holds(h, g, a, p, k) <==> Holds(h[..|h| - 1], g, a, p, k) && !Disturbs(h[|h| - 1], g, a, p)
  {
    if 0 <= k { assert h[..|h| - 1][..k] == h[..k]; }
  }

  lemma {:induction false} HeldIff(h: seq<GroupsEvent>, g: GroupId, a: Address, p: Permission)
    ensures HasPermission(Replay(h), g, a, p) <==> exists k :: Holds(h, g, a, p, k)
  {
    if h == [] {
    } else {
      var front, e := h[..|h| - 1], h[|h| - 1];
      HeldIff(front, g, a, p);
      LastEventDecides(Replay(front), e, g, a, p);
      if k :| Holds(front, g, a, p, k) { HoldsExtends(h, g, a, p, k); }
      if k :| Holds(h, g, a, p, k) {
        if k < |front| { HoldsExtends(h, g, a, p, k); }
      }
      if Grants(e, g, a, p) && Knows(Replay(front), g, a) { assert Holds(h, g, a, p, |front|); }
    }
  }

  /**
    The meaning of the replayed permissions: a permission is held exactly when some grant of it went
    to a member added before and not removed since, and nothing later re-added or removed the member
    or revoked the permission.
   */
  lemma PermissionIff(h: seq<GroupsEvent>, g: GroupId, a: Address, p: Permission)
    ensures HasPermission(Replay(h), g, a, p)
       <==> exists k, i :: GrantStands(h, g, a, p, k) && AddedBy(h, k, g, a, i)
  {
    HeldIff(h, g, a, p);
    if k :| Holds(h, g, a, p, k) {
      KnownBefore(h, k, g, a);
      var i :| AddedBy(h, k, g, a, i);
      assert GrantStands(h, g, a, p, k) && AddedBy(h, k, g, a, i);
    }
    if k, i :| GrantStands(h, g, a, p, k) && AddedBy(h, k, g, a, i) {
      KnownBefore(h, k, g, a);
      assert Holds(h, g, a, p, k);
    }
  }

  /** The two replicas hold the same about one address in one group. */
  predicate SameFor(x: Members, y: Members, g: GroupId, a: Address) {
    Knows(x, g, a) == Knows(y, g, a) && Permissions(x, g, a) == Permissions(y, g, a)
  }

  lemma OneEvent(x: Members, y: Members, e: GroupsEvent, g: GroupId, a: Address)
    requires SameFor(x, y, g, a)
    ensures SameFor(ApplyEvent(x, e), ApplyEvent(y, e), g, a)
    ensures !About(e, g, a) ==> SameFor(ApplyEvent(x, e), y, g, a)
  {
  }

  /** Events about other groups or addresses never matter. */
  lemma {:induction false} OthersNeverMatter(h: seq<GroupsEvent>, g: GroupId, a: Address)
    ensures SameFor(Replay(h), Replay(Filter((e: GroupsEvent) => About(e, g, a), h)), g, a)
  {
    if h == [] {
    } else {
      var own := (e: GroupsEvent) => About(e, g, a);
      var front, e := h[..|h| - 1], h[|h| - 1];
      var f := Filter(own, front);
      OthersNeverMatter(front, g, a);
      OneEvent(Replay(front), Replay(f), e, g, a);
      FilterAppend(own, front, [e]);
      assert h == front + [e] && (f + [e])[..|f|] == f;
      assert Filter(own, [e]) == if About(e, g, a) then [e] else [];
      assert Filter(own, h) == if About(e, g, a) then f + [e] else f;
    }
  }

  lemma {:induction false} ReplayConcat(ms: Members, a: seq<GroupsEvent>, b: seq<GroupsEvent>)
    ensures ReplayFrom(ms, a + b) == ReplayFrom(ReplayFrom(ms, a), b)
  {
    if b == [] {
      assert a + b == a;
    } else {
      ReplayConcat(ms, a, b[..|b| - 1]);
      assert (a + b)[..|a + b| - 1] == a + b[..|b| - 1];
    }
  }
}
