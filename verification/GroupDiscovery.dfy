/**
  The chat app finds the user's groups by counting membership events instead of replaying them
  (chat-app/src/hooks/useGroupDiscovery.ts:63-205, chat-app/src/lib/group-store.ts).
 */
module GroupDiscovery {
  import opened Membership
  import opened MembershipSync
  import opened Messages
  import opened Sequences
  import opened Wrappers

  datatype Node = Node(groupId: GroupId, member: Address)

  /** One answer of the event query; a node without content is None. */
  datatype Page = Page(nodes: seq<Option<Node>>, hasNextPage: bool, endCursor: Option<string>)

  datatype StoredGroup = StoredGroup(uuid: string, name: string, groupId: GroupId, createdAt: int)

  datatype Metadata = Metadata(uuid: string, name: string)

  // ---------------------------------------------------------------- paging through the events

  function GroupIdsOf(nodes: seq<Option<Node>>, member: Address): seq<GroupId> {
    if nodes == [] then []
    else
      var last := nodes[|nodes| - 1];
      GroupIdsOf(nodes[..|nodes| - 1], member) + if last.Some? && last.value.member == member then [last.value.groupId] else []
  }

  lemma {:induction false} GroupIdsConcat(a: seq<Option<Node>>, b: seq<Option<Node>>, member: Address)
    ensures GroupIdsOf(a + b, member) == GroupIdsOf(a, member) + GroupIdsOf(b, member)
  {
    if b == [] {
      assert a + b == a;
    } else {
      GroupIdsConcat(a, b[..|b| - 1], member);
      assert (a + b)[..|a + b| - 1] == a + b[..|b| - 1];
    }
  }

  predicate HasMore(page: Page) {
    page.hasNextPage && page.endCursor.Some? && page.endCursor.value != ""
  }

  /** The successive answers hold `nodes` in order, and only the last one says there is no more. */
  ghost predicate Answers(replies: seq<Option<Page>>, nodes: seq<Option<Node>>)
    decreases |replies|
  {
    && replies != [] && replies[0].Some?
    && if replies[0].value.hasNextPage && replies[0].value.endCursor.Some? && replies[0].value.endCursor.value != ""
       then |nodes| >= |replies[0].value.nodes| && nodes[..|replies[0].value.nodes|] == replies[0].value.nodes
            && Answers(replies[1..], nodes[|replies[0].value.nodes|..])
       else |replies| == 1 && nodes == replies[0].value.nodes
  }

  /** Replies are consumed until one is missing, empty-handed or last. */
  method QueryAllEventGroupIds(replies: seq<Option<Page>>, member: Address) returns (groupIds: seq<GroupId>)
    ensures forall nodes | Answers(replies, nodes) :: groupIds == GroupIdsOf(nodes, member)
  {
    groupIds := [];
    var k := 0;
    ghost var seen: seq<Option<Node>> := [];
    while k < |replies|
      invariant 0 <= k <= |replies|
      invariant groupIds == GroupIdsOf(seen, member)
      invariant forall nodes | Answers(replies, nodes) :: StillToCome(replies, k, seen, nodes)
    {
      if replies[k].None? { break; }
      var events := replies[k].value;
      ghost var before := groupIds;
      for i := 0 to |events.nodes|
        invariant groupIds == before + GroupIdsOf(events.nodes[..i], member)
      {
        assert events.nodes[..i + 1][..i] == events.nodes[..i];
        if events.nodes[i].None? { continue; }
        if events.nodes[i].value.member == member {
          groupIds := groupIds + [events.nodes[i].value.groupId];
        }
      }
      assert events.nodes[..|events.nodes|] == events.nodes;
      GroupIdsConcat(seen, events.nodes, member);
      ghost var seen' := seen + events.nodes;
      forall nodes | Answers(replies, nodes)
        ensures if HasMore(events) then StillToCome(replies, k + 1, seen', nodes) else nodes == seen'
      {
        TakePage(replies, k, seen, nodes);
      }
      seen := seen';
      if !HasMore(events) { break; }
      k := k + 1;
    }
  }

  ghost predicate StillToCome(replies: seq<Option<Page>>, k: nat, seen: seq<Option<Node>>, nodes: seq<Option<Node>>) {
    k < |replies| && |seen| <= |nodes| && nodes[..|seen|] == seen && Answers(replies[k..], nodes[|seen|..])
  }

  lemma TakePage(replies: seq<Option<Page>>, k: nat, seen: seq<Option<Node>>, nodes: seq<Option<Node>>)
    requires StillToCome(replies, k, seen, nodes) && replies[k].Some?
    ensures var page := replies[k].value;
      if HasMore(page) then StillToCome(replies, k + 1, seen + page.nodes, nodes) else nodes == seen + page.nodes
  {
    var page, rest := replies[k].value, nodes[|seen|..];
    assert replies[k..][0] == replies[k] && replies[k..][1..] == replies[k + 1..];
    assert nodes == seen + rest;
    if HasMore(page) {
      assert Answers(replies[k + 1..], rest[|page.nodes|..]);
      assert rest == page.nodes + rest[|page.nodes|..];
      assert nodes[|seen + page.nodes|..] == rest[|page.nodes|..];
      assert nodes[..|seen + page.nodes|] == seen + page.nodes;
    }
  }

  // ---------------------------------------------------------------- counting

  function Occurrences(ids: seq<GroupId>, g: GroupId): nat {
    multiset(ids)[g]
  }

  /** `counts` is the net count of every group mentioned. */
  ghost predicate IsTally(counts: map<GroupId, int>, added: seq<GroupId>, removed: seq<GroupId>) {
    && (forall g | g in added || g in removed :: g in counts)
    && (forall g | g in counts :: counts[g] == Occurrences(added, g) - Occurrences(removed, g))
  }

  function Bump(counts: map<GroupId, int>, g: GroupId, change: int): map<GroupId, int> {
    counts[g := (if g in counts then counts[g] else 0) + change]
  }

  lemma OneAdded(counts: map<GroupId, int>, added: seq<GroupId>, removed: seq<GroupId>, g: GroupId)
    requires IsTally(counts, added, removed)
    ensures IsTally(Bump(counts, g, 1), added + [g], removed)
  {
  }

  lemma OneRemoved(counts: map<GroupId, int>, added: seq<GroupId>, removed: seq<GroupId>, g: GroupId)
    requires IsTally(counts, added, removed)
    ensures IsTally(Bump(counts, g, -1), added, removed + [g])
  {
  }

  method Tally(added: seq<GroupId>, removed: seq<GroupId>) returns (counts: map<GroupId, int>)
    ensures IsTally(counts, added, removed)
  {
    counts := map[];
    for i := 0 to |added|
      invariant IsTally(counts, added[..i], [])
    {
      assert added[..i + 1] == added[..i] + [added[i]];
      OneAdded(counts, added[..i], [], added[i]);
      counts := Bump(counts, added[i], 1);
    }
    assert added[..|added|] == added;
    for i := 0 to |removed|
      invariant IsTally(counts, added, removed[..i])
    {
      assert removed[..i + 1] == removed[..i] + [removed[i]];
      OneRemoved(counts, added, removed[..i], removed[i]);
      counts := Bump(counts, removed[i], -1);
    }
    assert removed[..|removed|] == removed;
  }

  // ---------------------------------------------------------------- reconciling the stored groups

  ghost function IdsOf(groups: seq<StoredGroup>): set<GroupId> {
    set g | g in groups :: g.groupId
  }

  lemma IdsOfAppend(a: seq<StoredGroup>, g: StoredGroup)
    ensures IdsOf(a + [g]) == IdsOf(a) + {g.groupId}
  {
  }

  class GroupStore {
    var groups: seq<StoredGroup>

    method AddStoredGroup(group: StoredGroup)
      modifies this
      ensures groups == old(groups) + [group]
    {
      groups := groups + [group];
    }

    method RemoveStoredGroup(groupId: GroupId)
      modifies this
      ensures groups == Filter((g: StoredGroup) => g.groupId != groupId, old(groups))
    {
      groups := Filter((g: StoredGroup) => g.groupId != groupId, groups);
    }

    /**
      Drops stored groups that are not active and adds the active ones that have metadata; `active`
      is what the counts leave, and nothing else touches the store meanwhile.
     */
    method Reconcile(active: set<GroupId>, metadata: map<GroupId, Metadata>, now: int)
      modifies this
      ensures IdsOf(groups) == (old(IdsOf(groups)) * active) + (active * metadata.Keys)
      ensures forall g | g in old(groups) && g.groupId in active :: g in groups
    {
      var stored := groups;
      for i := 0 to |stored|
        invariant forall g :: g in groups <==> g in stored && (g.groupId in active || g.groupId !in IdsOf(stored[..i]))
      {
        IdsOfAppend(stored[..i], stored[i]);
        assert stored[..i + 1] == stored[..i] + [stored[i]];
        if stored[i].groupId !in active {
          FilterMembers((g: StoredGroup) => g.groupId != stored[i].groupId, groups);
          RemoveStoredGroup(stored[i].groupId);
        }
      }
      assert stored[..|stored|] == stored;
      assert forall g :: g in groups <==> g in stored && g.groupId in active;
      var newIds := active - set g | g in stored :: g.groupId;
      ghost var kept := groups;
      var todo := newIds;
      while todo != {}
        invariant todo <= newIds
        invariant forall g | g in kept :: g in groups
        invariant IdsOf(groups) == IdsOf(kept) + ((newIds - todo) * metadata.Keys)
        decreases todo
      {
        var g :| g in todo;
        todo := todo - {g};
        if g in metadata {
          var added := StoredGroup(metadata[g].uuid, metadata[g].name, g, now);
          IdsOfAppend(groups, added);
          AddStoredGroup(added);
        }
      }
      assert IdsOf(kept) == IdsOf(stored) * active;
    }
  }

  // ---------------------------------------------------------------- agreement with the chain

  predicate Chosen(e: GroupsEvent, additions: bool) {
    if additions then e.MemberAdded? else e.MemberRemoved?
  }

  /** The event queries return the history's additions and removals, each in order. */
  function NodesOf(h: seq<GroupsEvent>, additions: bool): seq<Option<Node>> {
    if h == [] then []
    else
      var e := h[|h| - 1];
      NodesOf(h[..|h| - 1], additions) + if Chosen(e, additions) then [Some(Node(e.groupId, e.member))] else []
  }

  function Count(h: seq<GroupsEvent>, additions: bool, a: Address, g: GroupId): nat {
    Occurrences(GroupIdsOf(NodesOf(h, additions), a), g)
  }

  lemma CountLast(h: seq<GroupsEvent>, additions: bool, a: Address, g: GroupId)
    requires h != []
    ensures var e := h[|h| - 1];
      Count(h, additions, a, g) == Count(h[..|h| - 1], additions, a, g) + if Chosen(e, additions) && About(e, g, a) then 1 else 0
  {
    var e := h[|h| - 1];
    var nodes := NodesOf(h[..|h| - 1], additions);
    var last := if Chosen(e, additions) then [Some(Node(e.groupId, e.member))] else [];
    GroupIdsConcat(nodes, last, a);
    assert Chosen(e, additions) ==> last[..0] == [];
    assert GroupIdsOf(last, a) == if Chosen(e, additions) && e.member == a then [e.groupId] else [];
  }

  lemma {:induction false} TallyIsNetCount(h: seq<GroupsEvent>, a: Address, g: GroupId)
    ensures Count(h, true, a, g) - Count(h, false, a, g) == NetCount(h, g, a)
  {
    if h == [] {
    } else {
      TallyIsNetCount(h[..|h| - 1], a, g);
      CountLast(h, true, a, g);
      CountLast(h, false, a, g);
    }
  }

  /** Whether the replay of the first `k` events knows the user. */
  predicate KnownAfter(h: seq<GroupsEvent>, k: nat, g: GroupId, a: Address)
    requires k <= |h|
  {
    Knows(Replay(h[..k]), g, a)
  }

  ghost predicate KnownThroughout(h: seq<GroupsEvent>, i: nat, j: nat, g: GroupId, a: Address)
    requires i <= j <= |h|
  {
    forall k | i <= k <= j :: KnownAfter(h, k, g, a)
  }

  ghost predicate KnownSometime(h: seq<GroupsEvent>, i: nat, j: nat, g: GroupId, a: Address)
    requires i <= j <= |h|
  {
    exists k | i <= k <= j :: KnownAfter(h, k, g, a)
  }

  /** What the additions among the first `i` events exceed the removals among the first `j` by. */
  function Excess(h: seq<GroupsEvent>, i: nat, j: nat, g: GroupId, a: Address): int
    requires i <= |h| && j <= |h|
  {
    Count(h[..i], true, a, g) - Count(h[..j], false, a, g)
  }

  lemma OneEventCounted(h: seq<GroupsEvent>, k: nat, additions: bool, g: GroupId, a: Address)
    requires k < |h|
    ensures Count(h[..k + 1], additions, a, g)
         == Count(h[..k], additions, a, g) + if Chosen(h[k], additions) && About(h[k], g, a) then 1 else 0
  {
    assert h[..k + 1][..k] == h[..k];
    CountLast(h[..k + 1], additions, a, g);
  }

  lemma OneEventReplayed(h: seq<GroupsEvent>, k: nat, g: GroupId, a: Address)
    requires k < |h|
    ensures KnownAfter(h, k + 1, g, a) == if Adds(h[k], g, a) then true else if Removes(h[k], g, a) then false else KnownAfter(h, k, g, a)
  {
    assert h[..k + 1][..k] == h[..k];
  }

  lemma ExcessAtOnce(h: seq<GroupsEvent>, i: nat, g: GroupId, a: Address)
    requires Alternates(h, g, a) && i <= |h|
    ensures Excess(h, i, i, g, a) == if KnownAfter(h, i, g, a) then 1 else 0
  {
    TallyIsNetCount(h[..i], a, g);
    CountingAgreesIff(h, g, a);
    assert CountTells(h, i, g, a);
  }

  /** How one event moves the two counts and the replay, in a history that alternates. */
  lemma EventMoves(h: seq<GroupsEvent>, i: nat, k: nat, g: GroupId, a: Address)
    requires Alternates(h, g, a) && i <= |h| && k < |h|
    ensures Excess(h, i, k + 1, g, a) == Excess(h, i, k, g, a) - if Removes(h[k], g, a) then 1 else 0
    ensures Excess(h, k + 1, i, g, a) == Excess(h, k, i, g, a) + if Adds(h[k], g, a) then 1 else 0
    ensures KnownAfter(h, k + 1, g, a) == if Adds(h[k], g, a) then true else if Removes(h[k], g, a) then false else KnownAfter(h, k, g, a)
    ensures Removes(h[k], g, a) ==> KnownAfter(h, k, g, a)
  {
    OneEventCounted(h, k, true, g, a);
    OneEventCounted(h, k, false, g, a);
    OneEventReplayed(h, k, g, a);
  }

  /** A count that starts at membership and loses one when it ends stays positive while membership lasts. */
  lemma {:induction false} CountsDown(excess: int -> int, known: int -> bool, i: int, j: int)
    requires i <= j && excess(i) == if known(i) then 1 else 0
    requires forall k | i <= k < j ::
      if known(k) && !known(k + 1) then excess(k + 1) == excess(k) - 1 else excess(k + 1) == excess(k)
    ensures excess(j) <= 1 && (excess(j) > 0 <==> forall k | i <= k <= j :: known(k))
    decreases j - i
  {
    if i == j {
    } else {
      CountsDown(excess, known, i, j - 1);
    }
  }

  /** A count that starts at membership and gains one with each beginning is positive once there was membership. */
  lemma {:induction false} CountsUp(excess: int -> int, known: int -> bool, i: int, j: int)
    requires i <= j && excess(i) == if known(i) then 1 else 0
    requires forall k | i <= k < j ::
      if !known(k) && known(k + 1) then excess(k + 1) == excess(k) + 1 else excess(k + 1) == excess(k)
    ensures excess(j) >= 0 && (excess(j) > 0 <==> exists k | i <= k <= j :: known(k))
    decreases j - i
  {
    if i == j {
    } else {
      CountsUp(excess, known, i, j - 1);
    }
  }

  /** Membership along the history, and the two counts with one end moving. */
  function Track(h: seq<GroupsEvent>, g: GroupId, a: Address): int -> bool {
    (k: int) => 0 <= k <= |h| && KnownAfter(h, k, g, a)
  }

  function RemovalsMove(h: seq<GroupsEvent>, i: nat, g: GroupId, a: Address): int -> int
    requires i <= |h|
  {
    (k: int) => if 0 <= k <= |h| then Excess(h, i, k, g, a) else 0
  }

  function AdditionsMove(h: seq<GroupsEvent>, i: nat, g: GroupId, a: Address): int -> int
    requires i <= |h|
  {
    (k: int) => if 0 <= k <= |h| then Excess(h, k, i, g, a) else 0
  }

  lemma TrackMoves(h: seq<GroupsEvent>, i: nat, k: nat, g: GroupId, a: Address)
    requires Alternates(h, g, a) && i <= |h| && k < |h|
    ensures var known, down, up := Track(h, g, a), RemovalsMove(h, i, g, a), AdditionsMove(h, i, g, a);
      && (if known(k) && !known(k + 1) then down(k + 1) == down(k) - 1 else down(k + 1) == down(k))
      && (if !known(k) && known(k + 1) then up(k + 1) == up(k) + 1 else up(k + 1) == up(k))
  {
    EventMoves(h, i, k, g, a);
    AddsWhenUnknown(h, k, g, a);
  }

  lemma AddsWhenUnknown(h: seq<GroupsEvent>, k: nat, g: GroupId, a: Address)
    requires Alternates(h, g, a) && k < |h|
    ensures Adds(h[k], g, a) ==> !KnownAfter(h, k, g, a)
  {
  }

  lemma TrackIsKnown(h: seq<GroupsEvent>, i: nat, j: nat, g: GroupId, a: Address)
    requires i <= j <= |h|
    ensures KnownThroughout(h, i, j, g, a) <==> forall k | i <= k <= j :: Track(h, g, a)(k)
    ensures KnownSometime(h, i, j, g, a) <==> exists k | i <= k <= j :: Track(h, g, a)(k)
  {
    assert forall k | i <= k <= j :: Track(h, g, a)(k) == KnownAfter(h, k, g, a);
  }

  /**
    Removals seen later than additions: the count is positive exactly for those known all the time
    between.  Additions seen later: exactly for those known at some time between.
   */
  lemma ExcessIs(h: seq<GroupsEvent>, i: nat, j: nat, g: GroupId, a: Address)
    requires Alternates(h, g, a) && i <= j <= |h|
    ensures Excess(h, i, j, g, a) > 0 <==> KnownThroughout(h, i, j, g, a)
    ensures Excess(h, j, i, g, a) > 0 <==> KnownSometime(h, i, j, g, a)
  {
    var known, down, up := Track(h, g, a), RemovalsMove(h, i, g, a), AdditionsMove(h, i, g, a);
    ExcessAtOnce(h, i, g, a);
    forall k | i <= k < j
      ensures if known(k) && !known(k + 1) then down(k + 1) == down(k) - 1 else down(k + 1) == down(k)
      ensures if !known(k) && known(k + 1) then up(k + 1) == up(k) + 1 else up(k + 1) == up(k)
    {
      TrackMoves(h, i, k, g, a);
    }
    CountsDown(down, known, i, j);
    CountsUp(up, known, i, j);
    TrackIsKnown(h, i, j, g, a);
  }

  /**
    The hook's set of active groups, from any paging of the two event streams, which are read at the
    same time and may end at different points of the history: the groups in which the relayer's
    replay knows the user throughout the events between, when the removals were read further, or at
    some moment between, when the additions were.  Read to the same point, both are what the replay knows.
   */
  method ActiveGroups(addedReplies: seq<Option<Page>>, removedReplies: seq<Option<Page>>, address: Address,
                      ghost h: seq<GroupsEvent>, ghost i: nat, ghost j: nat)
    returns (active: set<GroupId>)
    requires i <= |h| && j <= |h|
    requires Answers(addedReplies, NodesOf(h[..i], true)) && Answers(removedReplies, NodesOf(h[..j], false))
    requires forall g :: Alternates(h, g, address)
    ensures forall g :: g in active <==>
      if i <= j then KnownThroughout(h, i, j, g, address) else KnownSometime(h, j, i, g, address)
    ensures i == j ==> forall g :: g in active <==> Knows(Replay(h[..i]), g, address)
  {
    var added := QueryAllEventGroupIds(addedReplies, address);
    var removed := QueryAllEventGroupIds(removedReplies, address);
    var counts := Tally(added, removed);
    active := set g | g in counts && counts[g] > 0;
    forall g
      ensures g in active <==> if i <= j then KnownThroughout(h, i, j, g, address) else KnownSometime(h, j, i, g, address)
      ensures i == j ==> (g in active <==> Knows(Replay(h[..i]), g, address))
    {
      assert g in active <==> Excess(h, i, j, g, address) > 0 by {
        assert g !in counts ==> g !in added && g !in removed;
      }
      if i <= j { ExcessIs(h, i, j, g, address); } else { ExcessIs(h, j, i, g, address); }
      assert i == j ==> (KnownThroughout(h, i, j, g, address) <==> KnownAfter(h, i, g, address));
    }
  }
}
