/**
  The discovery indexer (walrus-discovery-indexer/src): quilts are inspected concurrently, so their
  patches arrive in any order; for each message the patch with the latest checkpoint wins.
 */
module Discovery {
  import opened Encoding
  import opened Messages
  import opened Sequences
  import opened Sorting
  import opened Storage
  import opened Wrappers

  datatype DiscoveredPatch = DiscoveredPatch(
    identifier: string, messageId: MessageId, groupId: GroupId, senderAddress: Address,
    syncStatus: string, blobId: nat, order: Option<int>, checkpoint: nat)

  datatype DiscoveryEvent = DiscoveryEvent(blobId: nat, checkpoint: nat, patches: seq<DiscoveredPatch>)

  type GroupIndex = map<MessageId, DiscoveredPatch>
  type Index = map<GroupId, GroupIndex>

  // ---------------------------------------------------------------- inspecting a quilt

  predicate StartsWith(s: string, prefix: string) {
    |prefix| <= |s| && s[..|prefix|] == prefix
  }

  function Discover(p: Patch, blobId: nat, checkpoint: nat): DiscoveredPatch
    requires StartsWith(p.identifier, MSG_PREFIX)
  {
    DiscoveredPatch(p.identifier, p.identifier[|MSG_PREFIX|..], p.tags.groupId, p.tags.sender, p.tags.syncStatus, blobId,
                    if p.tags.order == "" then None else ParseDecimal(p.tags.order), checkpoint)
  }

  function DiscoverAll(patches: seq<Patch>, blobId: nat, checkpoint: nat): seq<DiscoveredPatch> {
    if patches == [] then []
    else
      var rest := DiscoverAll(patches[1..], blobId, checkpoint);
      if patches[0].tags.source == SOURCE_TAG && StartsWith(patches[0].identifier, MSG_PREFIX)
      then [Discover(patches[0], blobId, checkpoint)] + rest
      else rest
  }

  /** None when the quilt holds nothing of this relayer. */
  function Inspect(blobId: nat, quilt: Quilt): Option<DiscoveryEvent> {
    var found := DiscoverAll(quilt.patches, blobId, quilt.checkpoint);
    if found == [] then None else Some(DiscoveryEvent(blobId, quilt.checkpoint, found))
  }

  // ---------------------------------------------------------------- the index

  function AddPatch(index: Index, p: DiscoveredPatch): Index {
    var groupMap := if p.groupId in index then index[p.groupId] else map[];
    if p.messageId in groupMap && p.checkpoint <= groupMap[p.messageId].checkpoint
    then index[p.groupId := groupMap]
    else index[p.groupId := groupMap[p.messageId := p]]
  }

  function AddAll(index: Index, ps: seq<DiscoveredPatch>): Index {
    if ps == [] then index else AddPatch(AddAll(index, ps[..|ps| - 1]), ps[|ps| - 1])
  }

  function Lookup(index: Index, groupId: GroupId, id: MessageId): Option<DiscoveredPatch> {
    if groupId in index && id in index[groupId] then Some(index[groupId][id]) else None
  }

  /** Every group in the index has a patch, and patches sit under their own keys. */
  ghost predicate IndexInv(index: Index) {
    && (forall g | g in index :: index[g] != map[])
    && (forall g, id | g in index && id in index[g] :: index[g][id].groupId == g && index[g][id].messageId == id)
  }

  predicate Concerns(p: DiscoveredPatch, groupId: GroupId, id: MessageId) {
    p.groupId == groupId && p.messageId == id
  }

  /** `r` is the earliest arrival among the patches with the highest checkpoint for the message. */
  ghost predicate IsLatest(ps: seq<DiscoveredPatch>, groupId: GroupId, id: MessageId, r: Option<DiscoveredPatch>) {
    match r
    case None => forall p | p in ps :: !Concerns(p, groupId, id)
    case Some(top) =>
      exists k | 0 <= k < |ps| ::
        && ps[k] == top && Concerns(top, groupId, id)
        && (forall j | 0 <= j < k && Concerns(ps[j], groupId, id) :: ps[j].checkpoint < top.checkpoint)
        && (forall j | k < j < |ps| && Concerns(ps[j], groupId, id) :: ps[j].checkpoint <= top.checkpoint)
  }

  lemma {:induction false} AddAllKeepsLatest(ps: seq<DiscoveredPatch>)
    ensures IndexInv(AddAll(map[], ps))
    ensures forall g, id :: IsLatest(ps, g, id, Lookup(AddAll(map[], ps), g, id))
  {
    if ps == [] {
    } else {
      var front, p := ps[..|ps| - 1], ps[|ps| - 1];
      AddAllKeepsLatest(front);
      var before := AddAll(map[], front);
      assert AddAll(map[], ps) == AddPatch(before, p) && front + [p] == ps;
      AddPatchKeepsInv(before, p);
      forall g, id ensures IsLatest(ps, g, id, Lookup(AddPatch(before, p), g, id)) {
        AddPatchLooksUp(before, p, g, id);
        LatestAfter(front, p, g, id, Lookup(before, g, id), Lookup(AddPatch(before, p), g, id));
      }
    }
  }

  lemma AddPatchKeepsInv(index: Index, p: DiscoveredPatch)
    requires IndexInv(index)
    ensures IndexInv(AddPatch(index, p))
  {
  }

  lemma AddPatchLooksUp(index: Index, p: DiscoveredPatch, g: GroupId, id: MessageId)
    ensures var before, after := Lookup(index, g, id), Lookup(AddPatch(index, p), g, id);
      after == if Concerns(p, g, id) && !(before.Some? && p.checkpoint <= before.value.checkpoint) then Some(p) else before
  {
  }

  lemma LatestAfter(front: seq<DiscoveredPatch>, p: DiscoveredPatch, g: GroupId, id: MessageId,
                    before: Option<DiscoveredPatch>, after: Option<DiscoveredPatch>)
    requires IsLatest(front, g, id, before)
    requires !Concerns(p, g, id) ==> after == before
    requires Concerns(p, g, id) ==>
      after == if before.Some? && p.checkpoint <= before.value.checkpoint then before else Some(p)
    ensures IsLatest(front + [p], g, id, after)
  {
    var ps := front + [p];
    if before.Some? {
      var k :| 0 <= k < |front| && front[k] == before.value && Concerns(before.value, g, id)
        && (forall j | 0 <= j < k && Concerns(front[j], g, id) :: front[j].checkpoint < before.value.checkpoint)
        && (forall j | k < j < |front| && Concerns(front[j], g, id) :: front[j].checkpoint <= before.value.checkpoint);
      if after == before {
        assert ps[k] == before.value;
      } else {
        assert ps[|front|] == p;
      }
    } else if after.Some? {
      assert ps[|front|] == p;
      forall j | 0 <= j < |front| ensures !Concerns(ps[j], g, id) {
        assert front[j] in front;
      }
    }
  }

  lemma IndexExtensionality(a: Index, b: Index)
    requires IndexInv(a) && IndexInv(b)
    requires forall g, id :: Lookup(a, g, id) == Lookup(b, g, id)
    ensures a == b
  {
    SameGroups(a, b);
    SameGroups(b, a);
    forall g | g in a ensures a[g] == b[g] {
      forall id ensures id in a[g] <==> id in b[g] {
        assert Lookup(a, g, id) == Lookup(b, g, id);
      }
      forall id | id in a[g] ensures a[g][id] == b[g][id] {
        assert Lookup(a, g, id) == Lookup(b, g, id);
      }
    }
  }

  lemma SameGroups(a: Index, b: Index)
    requires IndexInv(a)
    requires forall g, id :: Lookup(a, g, id) == Lookup(b, g, id)
    ensures a.Keys <= b.Keys
  {
    forall g | g in a ensures g in b {
      assert a[g].Keys != {};
      var id :| id in a[g].Keys;
      assert Lookup(a, g, id) == Lookup(b, g, id);
    }
  }

  // ---------------------------------------------------------------- arrival order

  /** No patch for the same message has a higher checkpoint. */
  ghost predicate IsTop(ps: seq<DiscoveredPatch>, p: DiscoveredPatch) {
    p in ps && forall q | q in ps && Concerns(q, p.groupId, p.messageId) :: q.checkpoint <= p.checkpoint
  }

  ghost predicate TiedTops(ps: seq<DiscoveredPatch>, p: DiscoveredPatch, q: DiscoveredPatch) {
    IsTop(ps, p) && IsTop(ps, q) && Concerns(q, p.groupId, p.messageId) && p != q
  }

  /** Each message's highest checkpoint belongs to one patch only. */
  ghost predicate TopsUnique(ps: seq<DiscoveredPatch>) {
    forall p, q {:trigger TiedTops(ps, p, q)} :: !TiedTops(ps, p, q)
  }

  lemma LatestIsTop(ps: seq<DiscoveredPatch>, g: GroupId, id: MessageId)
    ensures var r := Lookup(AddAll(map[], ps), g, id);
      && (r.Some? ==> Concerns(r.value, g, id) && IsTop(ps, r.value))
      && (r.None? ==> forall p | p in ps :: !Concerns(p, g, id))
  {
    AddAllKeepsLatest(ps);
    assert IsLatest(ps, g, id, Lookup(AddAll(map[], ps), g, id));
  }

  /** Any arrival of the same patches, with repetitions, builds the same index when tops are unique. */
  lemma ArrivalOrderIrrelevant(a: seq<DiscoveredPatch>, b: seq<DiscoveredPatch>)
    requires SameElements(a, b) && TopsUnique(a)
    ensures AddAll(map[], a) == AddAll(map[], b)
  {
    AddAllKeepsLatest(a);
    AddAllKeepsLatest(b);
    var x, y := AddAll(map[], a), AddAll(map[], b);
    forall g, id ensures Lookup(x, g, id) == Lookup(y, g, id) {
      LatestIsTop(a, g, id);
      LatestIsTop(b, g, id);
      var r, s := Lookup(x, g, id), Lookup(y, g, id);
      if r.Some? && s.Some? {
        assert IsTop(a, s.value);
        assert !TiedTops(a, r.value, s.value);
      }
    }
    IndexExtensionality(x, y);
  }

  lemma TopFirstWins(p: DiscoveredPatch, rest: seq<DiscoveredPatch>)
    requires IsTop([p] + rest, p)
    ensures Lookup(AddAll(map[], [p] + rest), p.groupId, p.messageId) == Some(p)
  {
    var ps := [p] + rest;
    AddAllKeepsLatest(ps);
    var r := Lookup(AddAll(map[], ps), p.groupId, p.messageId);
    assert IsLatest(ps, p.groupId, p.messageId, r);
    assert p in ps;
    var k :| 0 <= k < |ps| && ps[k] == r.value
      && (forall j | 0 <= j < k && Concerns(ps[j], p.groupId, p.messageId) :: ps[j].checkpoint < r.value.checkpoint);
    assert ps[k] in ps && ps[0] == p;
  }

  lemma MoveToFront(ps: seq<DiscoveredPatch>, p: DiscoveredPatch) returns (rest: seq<DiscoveredPatch>)
    requires p in ps
    ensures multiset([p] + rest) == multiset(ps)
  {
    var i :| 0 <= i < |ps| && ps[i] == p;
    rest := ps[..i] + ps[i + 1..];
    assert ps == ps[..i] + [p] + ps[i + 1..];
  }

  lemma TiedTopsDisagree(ps: seq<DiscoveredPatch>, p: DiscoveredPatch, q: DiscoveredPatch) returns (b1: seq<DiscoveredPatch>, b2: seq<DiscoveredPatch>)
    requires TiedTops(ps, p, q)
    ensures multiset(b1) == multiset(ps) && multiset(b2) == multiset(ps) && AddAll(map[], b1) != AddAll(map[], b2)
  {
    var afterP := MoveToFront(ps, p);
    var afterQ := MoveToFront(ps, q);
    b1, b2 := [p] + afterP, [q] + afterQ;
    MultisetGivesElements(b1, ps);
    MultisetGivesElements(b2, ps);
    TopFirstWins(p, afterP);
    TopFirstWins(q, afterQ);
  }

  /** Unique tops are exactly what makes the index independent of the arrival order. */
  lemma ArrivalOrderIrrelevantIff(ps: seq<DiscoveredPatch>)
    ensures (forall b | multiset(b) == multiset(ps) :: AddAll(map[], b) == AddAll(map[], ps)) <==> TopsUnique(ps)
  {
    if TopsUnique(ps) {
      forall b | multiset(b) == multiset(ps) ensures AddAll(map[], b) == AddAll(map[], ps) {
        MultisetGivesElements(b, ps);
        ArrivalOrderIrrelevant(ps, b);
      }
    } else {
      var p, q :| TiedTops(ps, p, q);
      var b1, b2 := TiedTopsDisagree(ps, p, q);
      assert AddAll(map[], b1) != AddAll(map[], ps) || AddAll(map[], b2) != AddAll(map[], ps);
    }
  }

  /** A stored checkpoint never decreases, and an indexed message is never dropped. */
  lemma {:induction false} CheckpointsNeverDecrease(index: Index, ps: seq<DiscoveredPatch>, g: GroupId, id: MessageId)
    requires Lookup(index, g, id).Some?
    ensures Lookup(AddAll(index, ps), g, id).Some?
    ensures Lookup(AddAll(index, ps), g, id).value.checkpoint >= Lookup(index, g, id).value.checkpoint
  {
    if ps == [] {
    } else {
      CheckpointsNeverDecrease(index, ps[..|ps| - 1], g, id);
    }
  }

  lemma {:induction false} AddAllConcat(index: Index, a: seq<DiscoveredPatch>, b: seq<DiscoveredPatch>)
    ensures AddAll(index, a + b) == AddAll(AddAll(index, a), b)
  {
    if b == [] {
      assert a + b == a;
    } else {
      AddAllConcat(index, a, b[..|b| - 1]);
      assert (a + b)[..|a + b| - 1] == a + b[..|b| - 1];
    }
  }

  // ---------------------------------------------------------------- queries and counts

  function PatchOrder(p: DiscoveredPatch): int {
    p.order.GetOr(0)
  }

  ghost predicate DistinctMessages(ps: seq<DiscoveredPatch>) {
    forall i, j | 0 <= i < j < |ps| :: ps[i].messageId != ps[j].messageId
  }

  function MessageIdOf(p: DiscoveredPatch): MessageId {
    p.messageId
  }

  /** Sorting the values of a group and keeping those in range lists what the query is about. */
  lemma SortedInRange(values: seq<DiscoveredPatch>, groupMap: GroupIndex, after: Option<int>, before: Option<int>)
    requires EnumeratesPatches(values, groupMap)
    ensures ListsPatches(Filter((p: DiscoveredPatch) => InRange(PatchOrder(p), after, before), SortBy(PatchOrder, values)),
                         groupMap, after, before)
  {
    var inRange := (p: DiscoveredPatch) => InRange(PatchOrder(p), after, before);
    var sorted := SortBy(PatchOrder, values);
    SortBySorts(PatchOrder, values);
    forall i, j | 0 <= i < j < |sorted| ensures sorted[i].messageId != sorted[j].messageId {
      DistinctUnderPermutation(MessageIdOf, values, sorted, i, j);
    }
    FilterMembers(inRange, sorted);
    FilterKeepsPairs(inRange, (p: DiscoveredPatch, q: DiscoveredPatch) => PatchOrder(p) <= PatchOrder(q), sorted);
    FilterKeepsPairs(inRange, (p: DiscoveredPatch, q: DiscoveredPatch) => p.messageId != q.messageId, sorted);
  }

  ghost predicate EnumeratesPatches(vs: seq<DiscoveredPatch>, groupMap: GroupIndex) {
    DistinctMessages(vs) && forall p :: p in vs <==> p.messageId in groupMap && groupMap[p.messageId] == p
  }

  /** `all` is everything of the group in range, by order. */
  ghost predicate ListsPatches(all: seq<DiscoveredPatch>, groupMap: GroupIndex, after: Option<int>, before: Option<int>) {
    && SortedBy(PatchOrder, all) && DistinctMessages(all)
    && forall p :: p in all <==> p.messageId in groupMap && groupMap[p.messageId] == p && InRange(PatchOrder(p), after, before)
  }

  /** The page is the beginning of the listing and the flag says whether it is longer; an unknown group has no more. */
  ghost predicate ServesPatches(page: seq<DiscoveredPatch>, hasMore: bool, groupMap: GroupIndex,
                                after: Option<int>, before: Option<int>, limit: int)
  {
    exists all :: ListsPatches(all, groupMap, after, before)
      && page == SliceTo(all, limit) && (hasMore <==> groupMap != map[] && |all| > limit)
  }

  ghost function Pairs(index: Index): set<(GroupId, MessageId)> {
    set g, id | g in index && id in index[g] :: (g, id)
  }

  lemma PairsWithout(index: Index, g: GroupId)
    requires g in index
    ensures |Pairs(index)| == |Pairs(index - {g})| + |index[g]|
  {
    var here := set id | id in index[g] :: (g, id);
    assert Pairs(index) == Pairs(index - {g}) + here;
    PairCount(g, index[g].Keys);
  }

  lemma {:induction false} PairCount(g: GroupId, ids: set<MessageId>)
    ensures |set id | id in ids :: (g, id)| == |ids|
  {
    if ids == {} {
    } else {
      var x :| x in ids;
      PairCount(g, ids - {x});
      assert (set id | id in ids :: (g, id)) == (set id | id in ids - {x} :: (g, id)) + {(g, x)};
    }
  }

  class InMemoryDiscoveryStore {
    var groups: Index

    constructor ()
      ensures groups == map[]
    {
      groups := map[];
    }

    method AddDiscovery(event: DiscoveryEvent)
      modifies this`groups
      ensures groups == AddAll(old(groups), event.patches)
    {
      for i := 0 to |event.patches|
        invariant groups == AddAll(old(groups), event.patches[..i])
      {
        var patch := event.patches[i];
        assert event.patches[..i + 1][..i] == event.patches[..i];
        if patch.groupId !in groups {
          groups := groups[patch.groupId := map[]];
        }
        var groupMap := groups[patch.groupId];
        if patch.messageId in groupMap {
          if patch.checkpoint > groupMap[patch.messageId].checkpoint {
            groups := groups[patch.groupId := groupMap[patch.messageId := patch]];
          }
        } else {
          groups := groups[patch.groupId := groupMap[patch.messageId := patch]];
        }
      }
      assert event.patches[..|event.patches|] == event.patches;
    }

    method GetByGroup(groupId: GroupId, after: Option<int>, before: Option<int>, requested: Option<int>)
      returns (page: seq<DiscoveredPatch>, hasMore: bool)
      requires IndexInv(groups)
      ensures ServesPatches(page, hasMore, if groupId in groups then groups[groupId] else map[], after, before, requested.GetOr(50))
    {
      if groupId !in groups {
        page, hasMore := [], false;
        assert ListsPatches([], map[], after, before);
        return;
      }
      var groupMap := groups[groupId];
      var limit := requested.GetOr(50);
      var patches: seq<DiscoveredPatch> := [];
      var rest := groupMap.Keys;
      while rest != {}
        invariant rest <= groupMap.Keys && DistinctMessages(patches)
        invariant forall p :: p in patches <==> p.messageId in groupMap.Keys - rest && groupMap[p.messageId] == p
        decreases rest
      {
        var id :| id in rest;
        rest := rest - {id};
        patches := patches + [groupMap[id]];
      }
      SortedInRange(patches, groupMap, after, before);
      patches := SortBy(PatchOrder, patches);
      patches := Filter((p: DiscoveredPatch) => InRange(PatchOrder(p), after, before), patches);
      hasMore := |patches| > limit;
      page := SliceTo(patches, limit);
    }

    method GetGroupCount(groupId: GroupId) returns (count: nat)
      ensures count == |set p | p in Pairs(groups) && p.0 == groupId|
    {
      count := if groupId in groups then |groups[groupId]| else 0;
      if groupId in groups {
        PairCount(groupId, groups[groupId].Keys);
        assert (set p | p in Pairs(groups) && p.0 == groupId) == set id | id in groups[groupId].Keys :: (groupId, id);
      } else {
        assert (set p | p in Pairs(groups) && p.0 == groupId) == {};
      }
    }

    /** The reported totals are the numbers of distinct groups and of distinct (group, message) pairs. */
    method GetStats() returns (totalGroups: nat, totalPatches: nat)
      ensures totalGroups == |groups.Keys| && totalPatches == |Pairs(groups)|
    {
      totalPatches := 0;
      var rest := groups;
      while rest.Keys != {}
        invariant totalPatches + |Pairs(rest)| == |Pairs(groups)|
        decreases |rest.Keys|
      {
        var g :| g in rest.Keys;
        PairsWithout(rest, g);
        totalPatches := totalPatches + |rest[g]|;
        rest := rest - {g};
      }
      assert Pairs(rest) == {};
      totalGroups := |groups|;
    }
  }
}
