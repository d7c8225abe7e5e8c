/**
  Following the chain across reconnects (relayer/src/services/membership_sync.rs:60-129): sessions may
  break off anywhere and repeat any checkpoints; the cursor decides which responses are applied.
 */
module MembershipSync {
  import opened Membership
  import opened Messages
  import opened Sorting
  import opened Wrappers

  /** One response of a subscription; `checkpoint` holds the parsed events of its transactions. */
  datatype Response = Response(cursor: Option<nat>, checkpoint: Option<seq<GroupsEvent>>)

  datatype Replica = Replica(lastCursor: Option<nat>, members: Members)

  const START := Replica(None, map[])

  function CursorOf(r: Response): nat {
    r.cursor.GetOr(0)
  }

  predicate Accepts(lastCursor: Option<nat>, r: Response) {
    lastCursor.None? || CursorOf(r) > lastCursor.value
  }

  function Receive(s: Replica, r: Response): Replica {
    if !Accepts(s.lastCursor, r) then s
    else Replica(Some(CursorOf(r)), ReplayFrom(s.members, r.checkpoint.GetOr([])))
  }

  function ReceiveAll(s: Replica, rs: seq<Response>): Replica {
    if rs == [] then s else Receive(ReceiveAll(s, rs[..|rs| - 1]), rs[|rs| - 1])
  }

  class MembershipSyncService {
    const store: InMemoryMembershipStore
    var lastCursor: Option<nat>

    constructor (store: InMemoryMembershipStore)
      ensures this.store == store && lastCursor == None
    {
      this.store := store;
      this.lastCursor := None;
    }

    ghost function State(): Replica
      reads this, store
    {
      Replica(lastCursor, store.members)
    }

    method ApplyGroupsEvent(event: GroupsEvent)
      modifies store
      ensures store.members == ApplyEvent(old(store.members), event)
    {
      match event {
        case MemberAdded(groupId, member) =>
          assert SetOf([]) == {};
          store.AddMember(groupId, member, []);
        case MemberRemoved(groupId, member) =>
          store.RemoveMember(groupId, member);
        case PermissionsGranted(groupId, member, permissions) =>
          var _ := store.GrantPermissions(groupId, member, permissions);
        case PermissionsRevoked(groupId, member, permissions) =>
          var _ := store.RevokePermissions(groupId, member, permissions);
      }
    }

    /** One session: `stream` is what arrived before the subscription ended or failed. */
    method RunSubscription(stream: seq<Response>)
      modifies this`lastCursor, store
      ensures State() == ReceiveAll(old(State()), stream)
    {
      for i := 0 to |stream|
        invariant State() == ReceiveAll(old(State()), stream[..i])
      {
        assert stream[..i + 1][..i] == stream[..i];
        var cursor := CursorOf(stream[i]);
        if lastCursor.Some? && cursor <= lastCursor.value {
          continue;
        }
        if stream[i].checkpoint.Some? {
          var events := stream[i].checkpoint.value;
          ghost var before := store.members;
          for k := 0 to |events|
            invariant lastCursor == ReceiveAll(old(State()), stream[..i]).lastCursor
            invariant store.members == ReplayFrom(before, events[..k])
          {
            assert events[..k + 1][..k] == events[..k];
            ApplyGroupsEvent(events[k]);
          }
          assert events[..|events|] == events;
        }
        lastCursor := Some(cursor);
      }
      assert stream[..|stream|] == stream;
    }
  }

  // ---------------------------------------------------------------- sessions

  function AllResponses(sessions: seq<seq<Response>>): seq<Response> {
    if sessions == [] then [] else AllResponses(sessions[..|sessions| - 1]) + sessions[|sessions| - 1]
  }

  lemma {:induction false} ReceiveConcat(s: Replica, a: seq<Response>, b: seq<Response>)
    ensures ReceiveAll(s, a + b) == ReceiveAll(ReceiveAll(s, a), b)
  {
    if b == [] {
      assert a + b == a;
    } else {
      ReceiveConcat(s, a, b[..|b| - 1]);
      assert (a + b)[..|a + b| - 1] == a + b[..|b| - 1];
    }
  }

  /** The service's reconnect loop over finitely many sessions. */
  method RunSessions(service: MembershipSyncService, sessions: seq<seq<Response>>)
    modifies service`lastCursor, service.store
    ensures service.State() == ReceiveAll(old(service.State()), AllResponses(sessions))
  {
    for i := 0 to |sessions|
      invariant service.State() == ReceiveAll(old(service.State()), AllResponses(sessions[..i]))
    {
      assert sessions[..i + 1][..i] == sessions[..i];
      ReceiveConcat(old(service.State()), AllResponses(sessions[..i]), sessions[i]);
      service.RunSubscription(sessions[i]);
    }
    assert sessions[..|sessions|] == sessions;
  }

  // ---------------------------------------------------------------- replay is safe

  /** The responses that raised the cursor. */
  function Accepted(rs: seq<Response>): seq<Response> {
    if rs == [] then []
    else
      var front := rs[..|rs| - 1];
      if Accepts(ReceiveAll(START, front).lastCursor, rs[|rs| - 1]) then Accepted(front) + [rs[|rs| - 1]] else Accepted(front)
  }

  function EventsOf(rs: seq<Response>): seq<GroupsEvent> {
    if rs == [] then [] else EventsOf(rs[..|rs| - 1]) + rs[|rs| - 1].checkpoint.GetOr([])
  }

  ghost predicate CursorsIncrease(rs: seq<Response>) {
    forall i, j | 0 <= i < j < |rs| :: CursorOf(rs[i]) < CursorOf(rs[j])
  }

  function LastCursor(rs: seq<Response>): Option<nat> {
    if rs == [] then None else Some(CursorOf(rs[|rs| - 1]))
  }

  /**
    Whatever is repeated or cut off, the replica is one replay of the accepted responses, whose cursors
    strictly increase: no checkpoint is applied twice or out of order.
   */
  lemma {:induction false} ReplicaIsOneReplay(rs: seq<Response>)
    ensures ReceiveAll(START, rs).members == Replay(EventsOf(Accepted(rs)))
    ensures CursorsIncrease(Accepted(rs))
    ensures ReceiveAll(START, rs).lastCursor == LastCursor(Accepted(rs))
  {
    if rs == [] {
    } else {
      var front, r := rs[..|rs| - 1], rs[|rs| - 1];
      ReplicaIsOneReplay(front);
      if Accepts(ReceiveAll(START, front).lastCursor, r) { AcceptOne(Accepted(front), r); }
    }
  }

  lemma AcceptOne(acc: seq<Response>, r: Response)
    requires CursorsIncrease(acc) && Accepts(LastCursor(acc), r)
    ensures CursorsIncrease(acc + [r]) && LastCursor(acc + [r]) == Some(CursorOf(r))
    ensures Replay(EventsOf(acc + [r])) == ReplayFrom(Replay(EventsOf(acc)), r.checkpoint.GetOr([]))
  {
    assert (acc + [r])[..|acc|] == acc;
    ReplayConcat(map[], EventsOf(acc), r.checkpoint.GetOr([]));
  }

  /** A response without a cursor counts as cursor 0, so it is taken as the very first or not at all. */
  lemma CursorlessResponses(s: Replica, checkpoint: Option<seq<GroupsEvent>>)
    ensures Receive(s, Response(None, checkpoint))
         == if s.lastCursor.Some? then s else Replica(Some(0), ReplayFrom(s.members, checkpoint.GetOr([])))
  {
  }

  // ---------------------------------------------------------------- exactly when nothing is skipped

  /** The response is at most one checkpoint beyond the cursor; the first may start anywhere. */
  predicate IsNext(lastCursor: Option<nat>, r: Response) {
    lastCursor.None? || CursorOf(r) <= lastCursor.value + 1
  }

  ghost predicate NeverAhead(rs: seq<Response>) {
    forall i | 0 <= i < |rs| :: IsNext(ReceiveAll(START, rs[..i]).lastCursor, rs[i])
  }

  ghost predicate Consecutive(rs: seq<Response>) {
    forall i | 0 <= i < |rs| :: CursorOf(rs[i]) == CursorOf(rs[0]) + i
  }

  /** The accepted cursors run without a gap exactly when no response arrived ahead of its turn. */
  lemma {:induction false} ConsecutiveIff(rs: seq<Response>)
    ensures Consecutive(Accepted(rs)) <==> NeverAhead(rs)
  {
    if rs == [] {
    } else {
      var front, r := rs[..|rs| - 1], rs[|rs| - 1];
      ConsecutiveIff(front);
      ReplicaIsOneReplay(front);
      NeverAheadLast(rs);
      if Accepts(ReceiveAll(START, front).lastCursor, r) { ConsecutiveLast(Accepted(front), r); }
    }
  }

  lemma NeverAheadLast(rs: seq<Response>)
    requires rs != []
    ensures var front := rs[..|rs| - 1];
      NeverAhead(rs) <==> NeverAhead(front) && IsNext(ReceiveAll(START, front).lastCursor, rs[|rs| - 1])
  {
    var front := rs[..|rs| - 1];
    forall i | 0 <= i < |front| ensures front[..i] == rs[..i] && front[i] == rs[i] {}
    if NeverAhead(rs) {
      forall i | 0 <= i < |front| ensures IsNext(ReceiveAll(START, front[..i]).lastCursor, front[i]) {
        assert IsNext(ReceiveAll(START, rs[..i]).lastCursor, rs[i]);
      }
    }
    if NeverAhead(front) && IsNext(ReceiveAll(START, front).lastCursor, rs[|rs| - 1]) {
      forall i | 0 <= i < |rs| ensures IsNext(ReceiveAll(START, rs[..i]).lastCursor, rs[i]) {
        if i < |front| { assert IsNext(ReceiveAll(START, front[..i]).lastCursor, front[i]); }
      }
    }
  }

  lemma ConsecutiveLast(acc: seq<Response>, r: Response)
    requires Accepts(LastCursor(acc), r)
    ensures Consecutive(acc + [r]) <==> Consecutive(acc) && IsNext(LastCursor(acc), r)
  {
    var all := acc + [r];
    if Consecutive(all) {
      forall i | 0 <= i < |acc| ensures CursorOf(acc[i]) == CursorOf(acc[0]) + i {
        assert all[i] == acc[i] && all[0] == acc[0];
      }
      assert CursorOf(all[|acc|]) == CursorOf(all[0]) + |acc|;
    }
  }

  /** The checkpoint came with an accepted response: one without it raises the cursor all the same. */
  ghost predicate AppliedAt(rs: seq<Response>, cursor: nat) {
    exists r :: r in Accepted(rs) && CursorOf(r) == cursor && r.checkpoint.Some?
  }

  ghost predicate AllBrought(rs: seq<Response>) {
    forall r | r in Accepted(rs) :: r.checkpoint.Some?
  }

  /** Every checkpoint from the first received to the last cursor was applied. */
  ghost predicate NothingSkipped(rs: seq<Response>) {
    Accepted(rs) != [] ==>
      forall c | CursorOf(Accepted(rs)[0]) <= c <= CursorOf(Accepted(rs)[|Accepted(rs)| - 1]) :: AppliedAt(rs, c)
  }

  lemma {:induction false} Dense(rs: seq<Response>, i: nat)
    requires NothingSkipped(rs) && CursorsIncrease(Accepted(rs)) && i < |Accepted(rs)|
    ensures CursorOf(Accepted(rs)[i]) == CursorOf(Accepted(rs)[0]) + i
  {
    if i == 0 {
    } else {
      var acc := Accepted(rs);
      Dense(rs, i - 1);
      var next := CursorOf(acc[i - 1]) + 1;
      assert CursorOf(acc[i - 1]) < CursorOf(acc[i]);
      assert forall x | i <= x < |acc| :: CursorOf(acc[i]) <= CursorOf(acc[x]);
      assert forall x | 0 <= x < i :: CursorOf(acc[x]) <= CursorOf(acc[i - 1]);
      assert AppliedAt(rs, next);
      var r :| r in acc && CursorOf(r) == next && r.checkpoint.Some?;
      var j :| 0 <= j < |acc| && acc[j] == r;
    }
  }

  /** With increasing cursors, a checkpoint that was applied came with the only response at its cursor. */
  lemma AppliedIsBrought(rs: seq<Response>, r: Response)
    requires r in Accepted(rs) && AppliedAt(rs, CursorOf(r)) && CursorsIncrease(Accepted(rs))
    ensures r.checkpoint.Some?
  {
    var acc := Accepted(rs);
    var q :| q in acc && CursorOf(q) == CursorOf(r) && q.checkpoint.Some?;
    var i :| 0 <= i < |acc| && acc[i] == r;
    var j :| 0 <= j < |acc| && acc[j] == q;
    assert CursorOf(acc[i]) == CursorOf(acc[j]) ==> i == j;
  }

  /**
    No checkpoint is ever lost if and only if no response lies beyond the cursor plus one when it
    arrives, and every response that raises the cursor brings its checkpoint.
   */
  lemma NothingSkippedIff(rs: seq<Response>)
    ensures NothingSkipped(rs) <==> NeverAhead(rs) && AllBrought(rs)
  {
    var acc := Accepted(rs);
    ReplicaIsOneReplay(rs);
    ConsecutiveIff(rs);
    if NothingSkipped(rs) {
      forall i | 0 <= i < |acc| ensures CursorOf(acc[i]) == CursorOf(acc[0]) + i {
        Dense(rs, i);
      }
      forall r | r in acc ensures r.checkpoint.Some? {
        var i :| 0 <= i < |acc| && acc[i] == r;
        assert CursorOf(acc[|acc| - 1]) == CursorOf(acc[0]) + |acc| - 1;
        AppliedIsBrought(rs, r);
      }
    }
    if Consecutive(acc) && AllBrought(rs) && acc != [] {
      forall c | CursorOf(acc[0]) <= c <= CursorOf(acc[|acc| - 1]) ensures AppliedAt(rs, c) {
        var i := c - CursorOf(acc[0]);
        assert acc[i] in acc && CursorOf(acc[i]) == c;
      }
    }
  }

  /** A checkpoint passed over, or missing from its response, stays lost, whatever later sessions repeat. */
  lemma {:induction false} GapIsForever(rs: seq<Response>, more: seq<Response>, cursor: nat)
    requires Accepted(rs) != [] && cursor <= CursorOf(Accepted(rs)[|Accepted(rs)| - 1]) && !AppliedAt(rs, cursor)
    ensures !AppliedAt(rs + more, cursor) && Accepted(rs + more) != []
    ensures cursor <= CursorOf(Accepted(rs + more)[|Accepted(rs + more)| - 1])
  {
    if more == [] {
      assert rs + more == rs;
    } else {
      var front := rs + more[..|more| - 1];
      assert (rs + more)[..|rs + more| - 1] == front;
      GapIsForever(rs, more[..|more| - 1], cursor);
      ReplicaIsOneReplay(front);
      assert forall r | r in Accepted(front) && CursorOf(r) == cursor && r.checkpoint.Some? :: AppliedAt(front, cursor);
    }
  }

  /** Checkpoints, where responses bring them, are the chain's own. */
  ghost predicate FromChain(rs: seq<Response>, chain: seq<seq<GroupsEvent>>) {
    forall i | 0 <= i < |rs| :: CursorOf(rs[i]) < |chain| && (rs[i].checkpoint.Some? ==> rs[i].checkpoint.value == chain[CursorOf(rs[i])])
  }

  /** The events of the checkpoints from `from` up to, not including, `to`. */
  function ChainEvents(chain: seq<seq<GroupsEvent>>, from: nat, to: nat): seq<GroupsEvent>
    requires to <= |chain|
  {
    if to <= from then [] else ChainEvents(chain, from, to - 1) + chain[to - 1]
  }

  lemma OneCheckpointMore(chain: seq<seq<GroupsEvent>>, from: nat, to: nat)
    requires from <= to < |chain|
    ensures Replay(ChainEvents(chain, from, to + 1)) == ReplayFrom(Replay(ChainEvents(chain, from, to)), chain[to])
  {
    ReplayConcat(map[], ChainEvents(chain, from, to), chain[to]);
  }

  lemma NothingSkippedBefore(rs: seq<Response>)
    requires rs != [] && NothingSkipped(rs)
    ensures var front, r := rs[..|rs| - 1], rs[|rs| - 1];
      && NothingSkipped(front) && IsNext(ReceiveAll(START, front).lastCursor, r)
      && (Accepts(ReceiveAll(START, front).lastCursor, r) ==> r.checkpoint.Some?)
  {
    var front, r := rs[..|rs| - 1], rs[|rs| - 1];
    NothingSkippedIff(rs);
    NothingSkippedIff(front);
    NeverAheadLast(rs);
    assert forall q | q in Accepted(front) :: q in Accepted(rs);
    assert Accepts(ReceiveAll(START, front).lastCursor, r) ==> r in Accepted(rs);
  }

  /** When nothing is skipped the replica is exactly the replay of the chain since the first checkpoint seen. */
  lemma {:induction false} ReplicaIsChainSegment(rs: seq<Response>, chain: seq<seq<GroupsEvent>>)
    requires rs != [] && FromChain(rs, chain) && NothingSkipped(rs)
    ensures var s := ReceiveAll(START, rs);
      && s.lastCursor.Some? && CursorOf(rs[0]) <= s.lastCursor.value < |chain|
      && s.members == Replay(ChainEvents(chain, CursorOf(rs[0]), s.lastCursor.value + 1))
  {
    var front, r := rs[..|rs| - 1], rs[|rs| - 1];
    NothingSkippedBefore(rs);
    if front == [] {
      OneCheckpointMore(chain, CursorOf(r), CursorOf(r));
    } else {
      ReplicaIsChainSegment(front, chain);
      var s := ReceiveAll(START, front);
      if Accepts(s.lastCursor, r) {
        OneCheckpointMore(chain, CursorOf(rs[0]), CursorOf(r));
      }
    }
  }

  /** A session that skips ahead loses the skipped checkpoints for good: here, a removal. */
  lemma SkippingLosesEvents()
    ensures var chain := [[MemberAdded("g", "a")], [MemberRemoved("g", "a")], []];
      var rs := [Response(Some(0), Some(chain[0])), Response(Some(2), Some(chain[2])), Response(Some(1), Some(chain[1]))];
      Knows(ReceiveAll(START, rs).members, "g", "a") && !Knows(Replay(ChainEvents(chain, 0, 3)), "g", "a")
  {
    var chain := [[MemberAdded("g", "a")], [MemberRemoved("g", "a")], []];
    var r0, r2, r1 := Response(Some(0), Some(chain[0])), Response(Some(2), Some(chain[2])), Response(Some(1), Some(chain[1]));
    var rs := [r0, r2, r1];
    var e0 := MemberAdded("g", "a");
    assert rs[..2] == [r0, r2] && [r0, r2][..1] == [r0] && [r0][..0] == [];
    assert [e0][..0] == [];
    assert Replay([e0]) == SetPermissions(map[], "g", "a", {});
    var s0 := Receive(START, r0);
    assert s0 == Replica(Some(0), Replay([e0]));
    assert Receive(s0, r2) == Replica(Some(2), Replay([e0]));
    assert ReceiveAll(START, [r0]) == Receive(ReceiveAll(START, []), r0) == s0;
    assert ReceiveAll(START, [r0, r2]) == Receive(s0, r2);
    assert ReceiveAll(START, rs) == Receive(Receive(s0, r2), r1);
    var all := ChainEvents(chain, 0, 3);
    assert ChainEvents(chain, 0, 1) == [] + [e0] == [e0];
    assert ChainEvents(chain, 0, 2) == [e0] + [MemberRemoved("g", "a")];
    assert all == [e0, MemberRemoved("g", "a")];
    assert all[..1] == [e0];
    assert Replay(all) == ApplyEvent(Replay([e0]), MemberRemoved("g", "a"));
  }

  lemma OneMore(rs: seq<Response>, r: Response)
    ensures ReceiveAll(START, rs + [r]) == Receive(ReceiveAll(START, rs), r)
    ensures Accepted(rs + [r]) == if Accepts(ReceiveAll(START, rs).lastCursor, r) then Accepted(rs) + [r] else Accepted(rs)
    ensures NeverAhead(rs + [r]) <==> NeverAhead(rs) && IsNext(ReceiveAll(START, rs).lastCursor, r)
  {
    assert (rs + [r])[..|rs|] == rs;
    NeverAheadLast(rs + [r]);
  }

  /**
    A response without its checkpoint loses it too, although no response runs ahead: after any stream,
    whatever the checkpoint holds, bringing it later changes nothing.
   */
  lemma EmptyResponsesLoseEvents(rs: seq<Response>, cursor: nat, events: seq<GroupsEvent>)
    requires NeverAhead(rs) && ReceiveAll(START, rs).lastCursor == Some(cursor)
    ensures var stream := rs + [Response(Some(cursor + 1), None)] + [Response(Some(cursor + 1), Some(events))];
      && NeverAhead(stream) && !AppliedAt(stream, cursor + 1) && !NothingSkipped(stream)
      && ReceiveAll(START, stream) == Replica(Some(cursor + 1), ReceiveAll(START, rs).members)
  {
    var empty, late := Response(Some(cursor + 1), None), Response(Some(cursor + 1), Some(events));
    OneMore(rs, empty);
    OneMore(rs + [empty], late);
    ReplicaIsOneReplay(rs);
    EmptyIsNotApplied(rs + [empty] + [late], Accepted(rs), cursor + 1);
  }

  lemma EmptyIsNotApplied(rs: seq<Response>, before: seq<Response>, cursor: nat)
    requires Accepted(rs) == before + [Response(Some(cursor), None)]
    requires before != [] && CursorsIncrease(before) && CursorOf(before[|before| - 1]) < cursor
    ensures !AppliedAt(rs, cursor) && !NothingSkipped(rs)
  {
    var empty, acc := Response(Some(cursor), None), Accepted(rs);
    assert acc[|acc| - 1] == empty && acc[0] == before[0];
    forall r | r in before ensures CursorOf(r) < cursor {
      var i :| 0 <= i < |before| && before[i] == r;
      assert i < |before| - 1 ==> CursorOf(before[i]) < CursorOf(before[|before| - 1]);
    }
  }

  // ---------------------------------------------------------------- counting instead of replaying

  /** The chat app's net count: adds minus removals, order ignored (chat-app/src/hooks/useGroupDiscovery.ts:163-175). */
  function NetCount(h: seq<GroupsEvent>, g: GroupId, a: Address): int {
    if h == [] then 0
    else NetCount(h[..|h| - 1], g, a) + if Adds(h[|h| - 1], g, a) then 1 else if Removes(h[|h| - 1], g, a) then -1 else 0
  }

  /** A member is added only when absent and removed only when present. */
  ghost predicate Alternates(h: seq<GroupsEvent>, g: GroupId, a: Address) {
    forall i | 0 <= i < |h| ::
      (Adds(h[i], g, a) ==> !Knows(Replay(h[..i]), g, a)) && (Removes(h[i], g, a) ==> Knows(Replay(h[..i]), g, a))
  }

  /** On such histories the count is 0 or 1, and "adds exceed removes" is membership in the replayed map. */
  lemma {:induction false} CountingAgreesWithReplaying(h: seq<GroupsEvent>, g: GroupId, a: Address)
    requires Alternates(h, g, a)
    ensures NetCount(h, g, a) == if Knows(Replay(h), g, a) then 1 else 0
  {
    if h == [] {
    } else {
      var front := h[..|h| - 1];
      forall i | 0 <= i < |front| ensures front[..i] == h[..i] {}
      CountingAgreesWithReplaying(front, g, a);
    }
  }

  /** After `n` events the count is membership in the replayed map. */
  ghost predicate CountTells(h: seq<GroupsEvent>, n: nat, g: GroupId, a: Address)
    requires n <= |h|
  {
    NetCount(h[..n], g, a) == if Knows(Replay(h[..n]), g, a) then 1 else 0
  }

  lemma CountTellsStep(h: seq<GroupsEvent>, i: nat, g: GroupId, a: Address)
    requires i < |h| && CountTells(h, i, g, a) && CountTells(h, i + 1, g, a)
    ensures Adds(h[i], g, a) ==> !Knows(Replay(h[..i]), g, a)
    ensures Removes(h[i], g, a) ==> Knows(Replay(h[..i]), g, a)
  {
    assert h[..i + 1][..i] == h[..i];
  }

  /** Counting tells membership all along a history exactly when the history alternates. */
  lemma CountingAgreesIff(h: seq<GroupsEvent>, g: GroupId, a: Address)
    ensures (forall n | 0 <= n <= |h| :: CountTells(h, n, g, a)) <==> Alternates(h, g, a)
  {
    if Alternates(h, g, a) {
      forall n | 0 <= n <= |h| ensures CountTells(h, n, g, a) {
        forall i | 0 <= i < n ensures h[..n][..i] == h[..i] {}
        CountingAgreesWithReplaying(h[..n], g, a);
      }
    }
    if forall n | 0 <= n <= |h| :: CountTells(h, n, g, a) {
      forall i | 0 <= i < |h|
        ensures (Adds(h[i], g, a) ==> !Knows(Replay(h[..i]), g, a)) && (Removes(h[i], g, a) ==> Knows(Replay(h[..i]), g, a))
      {
        assert CountTells(h, i, g, a) && CountTells(h, i + 1, g, a);
        CountTellsStep(h, i, g, a);
      }
    }
  }

  /** Order is irrelevant to the count. */
  lemma {:induction false} CountIgnoresOrder(h: seq<GroupsEvent>, k: seq<GroupsEvent>, g: GroupId, a: Address)
    requires multiset(h) == multiset(k)
    ensures NetCount(h, g, a) == NetCount(k, g, a)
    decreases |h|
  {
    if h == [] {
      assert |multiset(k)| == 0;
    } else {
      var front, e := h[..|h| - 1], h[|h| - 1];
      assert h == front + [e];
      assert e in multiset(h);
      var before, after := SplitAround(k, e);
      CountAround(before, e, after, g, a);
      CountConcat(front, [e], g, a);
      assert multiset(front) == multiset(h) - multiset{e};
      CountIgnoresOrder(front, before + after, g, a);
    }
  }

  lemma CountAround(before: seq<GroupsEvent>, e: GroupsEvent, after: seq<GroupsEvent>, g: GroupId, a: Address)
    ensures NetCount(before + [e] + after, g, a) == NetCount(before + after, g, a) + NetCount([e], g, a)
  {
    CountConcat(before + [e], after, g, a);
    CountConcat(before, [e], g, a);
    CountConcat(before, after, g, a);
  }

  lemma {:induction false} CountConcat(x: seq<GroupsEvent>, y: seq<GroupsEvent>, g: GroupId, a: Address)
    ensures NetCount(x + y, g, a) == NetCount(x, g, a) + NetCount(y, g, a)
  {
    if y == [] {
      assert x + y == x;
    } else {
      CountConcat(x, y[..|y| - 1], g, a);
      assert (x + y)[..|x + y| - 1] == x + y[..|y| - 1];
    }
  }

  /** Without the alternation the two disagree: a second add before a removal leaves a count of 1 and no member. */
  lemma CountingNeedsAlternation()
    ensures var h := [MemberAdded("g", "a"), MemberAdded("g", "a"), MemberRemoved("g", "a")];
      NetCount(h, "g", "a") == 1 && !Knows(Replay(h), "g", "a")
  {
    var add, remove := MemberAdded("g", "a"), MemberRemoved("g", "a");
    assert [add, add, remove][..2] == [add, add] && [add, add][..1] == [add] && [add][..0] == [];
    assert NetCount([add], "g", "a") == 1 && NetCount([add, add], "g", "a") == 2;
  }
}
