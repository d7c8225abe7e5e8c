/**
  Reading messages back without the relayer
  (ts-sdks/packages/sui-stack-messaging/examples/recovery-transport/walrus-recovery-transport.ts):
  one indexer page, grouped by blob so each quilt is listed once, fetched patch by patch, sorted.
 */
module Recovery {
  import opened Discovery
  import opened Messages
  import opened Sequences
  import opened Sorting
  import opened Views
  import opened Wrappers

  /** The aggregator reads the archive; some quilts may refuse to list and some patches to download. */
  datatype Aggregator = Aggregator(archive: seq<Quilt>, unlisted: set<nat>, unreadable: set<PatchId>)

  function Entries(patches: seq<Patch>, quilt: nat): seq<(string, PatchId)> {
    if patches == [] then []
    else Entries(patches[..|patches| - 1], quilt) + [(patches[|patches| - 1].identifier, PatchId(quilt, |patches| - 1))]
  }

  function ListPatches(agg: Aggregator, blobId: nat): Option<seq<(string, PatchId)>> {
    if blobId < |agg.archive| && blobId !in agg.unlisted then Some(Entries(agg.archive[blobId].patches, blobId)) else None
  }

  function ReadPatch(agg: Aggregator, p: PatchId): Option<Message> {
    if ValidPatch(agg.archive, p) && p !in agg.unreadable then Some(PatchAt(agg.archive, p).body) else None
  }

  /** A later entry replaces an earlier one of the same name. */
  function NameIndex(entries: seq<(string, PatchId)>): map<string, PatchId> {
    if entries == [] then map[]
    else NameIndex(entries[..|entries| - 1])[entries[|entries| - 1].0 := entries[|entries| - 1].1]
  }

  /** Fetching one discovered patch on its own. */
  function FetchPatch(agg: Aggregator, p: DiscoveredPatch): Option<RelayerMessage> {
    match ListPatches(agg, p.blobId)
    case None => None
    case Some(entries) =>
      var names := NameIndex(entries);
      if p.identifier !in names then None
      else
        match ReadPatch(agg, names[p.identifier])
        case None => None
        case Some(body) => Some(FromWalrusMessage(body))
  }

  function Fetcher(agg: Aggregator): DiscoveredPatch -> Option<RelayerMessage> {
    (p: DiscoveredPatch) => FetchPatch(agg, p)
  }

  /** Fetching patches one at a time, dropping those that fail. */
  function Collect(agg: Aggregator, ps: seq<DiscoveredPatch>): seq<RelayerMessage> {
    FilterMap(Fetcher(agg), ps)
  }

  predicate IsActive(p: DiscoveredPatch) {
    p.syncStatus != "DELETED" && p.syncStatus != "DELETE_PENDING"
  }

  function RecoveredOrder(m: RelayerMessage): int {
    m.order
  }

  /** The answer is what fetching the page's active patches one by one yields, sorted by order. */
  ghost predicate IsRecovered(messages: seq<RelayerMessage>, agg: Aggregator, page: seq<DiscoveredPatch>) {
    SortedBy(RecoveredOrder, messages) && multiset(messages) == multiset(Collect(agg, Filter(IsActive, page)))
  }

  /** Some page of the group's index is served and recovered. */
  ghost predicate Recovers(messages: seq<RelayerMessage>, hasNext: bool, agg: Aggregator, groupMap: GroupIndex,
                           after: Option<int>, before: Option<int>, limit: int)
  {
    exists page :: ServesPatches(page, hasNext, groupMap, after, before, limit) && IsRecovered(messages, agg, page)
  }

  // ---------------------------------------------------------------- what can be read

  /** The last patch of that name in the quilt. */
  ghost predicate LastNamed(patches: seq<Patch>, identifier: string, k: nat) {
    && k < |patches| && patches[k].identifier == identifier
    && forall j | k < j < |patches| :: patches[j].identifier != identifier
  }

  lemma {:induction false} ListedUnder(patches: seq<Patch>, quilt: nat, identifier: string, p: PatchId)
    ensures var names := NameIndex(Entries(patches, quilt));
      identifier in names && names[identifier] == p <==> p.quilt == quilt && LastNamed(patches, identifier, p.index)
  {
    if patches == [] {
    } else {
      var front := patches[..|patches| - 1];
      assert Entries(patches, quilt)[..|Entries(patches, quilt)| - 1] == Entries(front, quilt);
      ListedUnder(front, quilt, identifier, p);
    }
  }

  /**
    A discovered patch is read back exactly when its quilt can be listed, holds a patch of that name
    and lets the last such patch be downloaded; what is read is that patch's body.
   */
  lemma FetchedIff(agg: Aggregator, d: DiscoveredPatch, m: RelayerMessage)
    ensures FetchPatch(agg, d) == Some(m) <==>
      && d.blobId < |agg.archive| && d.blobId !in agg.unlisted
      && exists k: nat :: LastNamed(agg.archive[d.blobId].patches, d.identifier, k) && PatchId(d.blobId, k) !in agg.unreadable
           && m == FromWalrusMessage(agg.archive[d.blobId].patches[k].body)
  {
    if d.blobId < |agg.archive| && d.blobId !in agg.unlisted {
      var patches := agg.archive[d.blobId].patches;
      var names := NameIndex(Entries(patches, d.blobId));
      if d.identifier in names {
        ListedUnder(patches, d.blobId, d.identifier, names[d.identifier]);
      }
      forall k: nat | LastNamed(patches, d.identifier, k) ensures d.identifier in names && names[d.identifier] == PatchId(d.blobId, k) {
        ListedUnder(patches, d.blobId, d.identifier, PatchId(d.blobId, k));
      }
    }
  }

  // ---------------------------------------------------------------- grouping by blob

  predicate GroupsListed(order: seq<nat>, groups: map<nat, seq<DiscoveredPatch>>) {
    forall b | b in order :: b in groups
  }

  function FlattenGroups(order: seq<nat>, groups: map<nat, seq<DiscoveredPatch>>): seq<DiscoveredPatch>
    requires GroupsListed(order, groups)
  {
    if order == [] then [] else FlattenGroups(order[..|order| - 1], groups) + groups[order[|order| - 1]]
  }

  lemma {:induction false} FlattenUntouched(order: seq<nat>, groups: map<nat, seq<DiscoveredPatch>>, b: nat, ps: seq<DiscoveredPatch>)
    requires GroupsListed(order, groups) && b !in order
    ensures GroupsListed(order, groups[b := ps]) && FlattenGroups(order, groups[b := ps]) == FlattenGroups(order, groups)
  {
    if order == [] {
    } else {
      FlattenUntouched(order[..|order| - 1], groups, b, ps);
      assert order[|order| - 1] in order;
    }
  }

  /** Appending to one group adds one patch to the whole. */
  lemma {:induction false} FlattenAppend(order: seq<nat>, groups: map<nat, seq<DiscoveredPatch>>, b: nat, p: DiscoveredPatch)
    requires GroupsListed(order, groups) && Distinct(order) && b in order
    ensures GroupsListed(order, groups[b := groups[b] + [p]])
    ensures multiset(FlattenGroups(order, groups[b := groups[b] + [p]])) == multiset(FlattenGroups(order, groups)) + multiset{p}
  {
    var front, last := order[..|order| - 1], order[|order| - 1];
    assert order == front + [last];
    if last == b {
      assert b !in front;
      FlattenUntouched(front, groups, b, groups[b] + [p]);
    } else {
      assert b in front;
      FlattenAppend(front, groups, b, p);
    }
  }

  lemma CollectAround(agg: Aggregator, before: seq<DiscoveredPatch>, p: DiscoveredPatch, after: seq<DiscoveredPatch>)
    ensures multiset(Collect(agg, before + [p] + after)) == multiset(Collect(agg, [p])) + multiset(Collect(agg, before + after))
  {
    FilterMapAppend(Fetcher(agg), before + [p], after);
    FilterMapAppend(Fetcher(agg), before, [p]);
    FilterMapAppend(Fetcher(agg), before, after);
  }

  /** The order in which patches are fetched does not change what is collected. */
  lemma {:induction false} CollectPermutes(agg: Aggregator, a: seq<DiscoveredPatch>, b: seq<DiscoveredPatch>)
    requires multiset(a) == multiset(b)
    ensures multiset(Collect(agg, a)) == multiset(Collect(agg, b))
    decreases |a|
  {
    if a == [] {
      assert |multiset(b)| == 0;
    } else {
      assert a[0] in multiset(a);
      var a1, a2 := SplitAround(a, a[0]);
      var b1, b2 := SplitAround(b, a[0]);
      CollectAround(agg, a1, a[0], a2);
      CollectAround(agg, b1, a[0], b2);
      CollectPermutes(agg, a1 + a2, b1 + b2);
    }
  }

  /** Grouping the patches by blob, keeping the order in which blobs first occur. */
  method GroupByBlob(patches: seq<DiscoveredPatch>) returns (order: seq<nat>, groups: map<nat, seq<DiscoveredPatch>>)
    ensures Distinct(order) && groups.Keys == set b | b in order
    ensures forall b, p | b in groups && p in groups[b] :: p.blobId == b
    ensures GroupsListed(order, groups) && multiset(FlattenGroups(order, groups)) == multiset(patches)
  {
    order, groups := [], map[];
    for i := 0 to |patches|
      invariant Distinct(order) && groups.Keys == set b | b in order
      invariant forall b, p | b in groups && p in groups[b] :: p.blobId == b
      invariant GroupsListed(order, groups) && multiset(FlattenGroups(order, groups)) == multiset(patches[..i])
    {
      var patch := patches[i];
      assert patches[..i + 1] == patches[..i] + [patch];
      if patch.blobId in groups {
        FlattenAppend(order, groups, patch.blobId, patch);
        groups := groups[patch.blobId := groups[patch.blobId] + [patch]];
      } else {
        FlattenUntouched(order, groups, patch.blobId, [patch]);
        groups := groups[patch.blobId := [patch]];
        order := order + [patch.blobId];
        assert order[..|order| - 1] + [patch.blobId] == order;
      }
    }
    assert patches[..|patches|] == patches;
  }

  /** The patches of one blob, its listing fetched once. */
  method FetchBlob(agg: Aggregator, blobId: nat, patches: seq<DiscoveredPatch>) returns (messages: seq<RelayerMessage>)
    requires forall p | p in patches :: p.blobId == blobId
    ensures messages == Collect(agg, patches)
  {
    messages := [];
    var listing := ListPatches(agg, blobId);
    if listing.None? {
      NothingCollected(agg, patches);
      return;
    }
    var entries := listing.value;
    var identifierToPatchId: map<string, PatchId> := map[];
    for i := 0 to |entries|
      invariant identifierToPatchId == NameIndex(entries[..i])
    {
      assert entries[..i + 1][..i] == entries[..i];
      identifierToPatchId := identifierToPatchId[entries[i].0 := entries[i].1];
    }
    assert entries[..|entries|] == entries;
    for k := 0 to |patches|
      invariant messages == Collect(agg, patches[..k])
    {
      var patch := patches[k];
      assert patches[..k + 1] == patches[..k] + [patch] && patch in patches;
      FilterMapAppend(Fetcher(agg), patches[..k], [patch]);
      if patch.identifier in identifierToPatchId {
        var body := ReadPatch(agg, identifierToPatchId[patch.identifier]);
        if body.Some? {
          messages := messages + [FromWalrusMessage(body.value)];
        }
      }
    }
    assert patches[..|patches|] == patches;
  }

  method FetchGroups(agg: Aggregator, order: seq<nat>, groups: map<nat, seq<DiscoveredPatch>>) returns (messages: seq<RelayerMessage>)
    requires GroupsListed(order, groups) && forall b, p | b in groups && p in groups[b] :: p.blobId == b
    ensures messages == Collect(agg, FlattenGroups(order, groups))
  {
    messages := [];
    for i := 0 to |order|
      invariant messages == Collect(agg, FlattenGroups(order[..i], groups))
    {
      assert order[..i + 1][..i] == order[..i] && order[i] in order;
      var found := FetchBlob(agg, order[i], groups[order[i]]);
      FilterMapAppend(Fetcher(agg), FlattenGroups(order[..i], groups), groups[order[i]]);
      messages := messages + found;
    }
    assert order[..|order|] == order;
  }

  lemma {:induction false} NothingCollected(agg: Aggregator, ps: seq<DiscoveredPatch>)
    requires forall p | p in ps :: FetchPatch(agg, p).None?
    ensures Collect(agg, ps) == []
  {
    if ps == [] {
    } else {
      NothingCollected(agg, ps[1..]);
    }
  }

  /** The indexer's HTTP layer: no limit, or zero, means 50, and 100 is the most; a negative one is let through. */
  function ApiLimit(requested: Option<int>): int {
    if requested == None || requested == Some(0) then 50 else Min(requested.value, 100)
  }

  /** Two listings of the same part of an index are equally long. */
  lemma SameLength(a: seq<DiscoveredPatch>, b: seq<DiscoveredPatch>, groupMap: GroupIndex, after: Option<int>, before: Option<int>)
    requires ListsPatches(a, groupMap, after, before) && ListsPatches(b, groupMap, after, before)
    ensures |a| == |b|
  {
    var elements := set p | p in a;
    DistinctCardinality(a, elements);
    DistinctCardinality(b, elements);
  }

  /**
    How much one request covers of what the index lists between the orders: 50 entries when it names no
    limit or zero, otherwise as many as it names but no more than 100, all but the last k for a limit of
    -k; and it is told whether that was less than everything, a negative limit always counting as less.
   */
  lemma RequestCovers(page: seq<DiscoveredPatch>, hasMore: bool, groupMap: GroupIndex, after: Option<int>, before: Option<int>,
                      requested: Option<int>, all: seq<DiscoveredPatch>)
    requires ServesPatches(page, hasMore, groupMap, after, before, ApiLimit(requested)) && ListsPatches(all, groupMap, after, before)
    ensures |page| == (match requested
                       case None => Min(|all|, 50)
                       case Some(n) => if n == 0 then Min(|all|, 50)
                                       else if n > 0 then Min(|all|, Min(n, 100))
                                       else if |all| + n > 0 then |all| + n else 0)
    ensures match requested
      case None => hasMore <==> |page| < |all|
      case Some(n) => hasMore <==> if n >= 0 then |page| < |all| else groupMap != map[]
  {
    var listed :| ListsPatches(listed, groupMap, after, before)
      && page == SliceTo(listed, ApiLimit(requested)) && (hasMore <==> groupMap != map[] && |listed| > ApiLimit(requested));
    SameLength(listed, all, groupMap, after, before);
    if all != [] {
      assert all[0] in all;
    }
  }

  method RecoverMessages(store: InMemoryDiscoveryStore, agg: Aggregator, groupId: GroupId,
                         after: Option<int>, before: Option<int>, requested: Option<int>)
    returns (messages: seq<RelayerMessage>, hasNext: bool)
    requires IndexInv(store.groups)
    ensures Recovers(messages, hasNext, agg, if groupId in store.groups then store.groups[groupId] else map[],
                     after, before, ApiLimit(requested))
  {
    var patches, hasMore := store.GetByGroup(groupId, after, before, Some(ApiLimit(requested)));
    if patches == [] {
      messages, hasNext := [], hasMore;
      assert IsRecovered(messages, agg, patches);
      return;
    }
    var active := Filter(IsActive, patches);
    if active == [] {
      messages, hasNext := [], hasMore;
      assert IsRecovered(messages, agg, patches);
      return;
    }
    var order, groups := GroupByBlob(active);
    messages := FetchGroups(agg, order, groups);
    CollectPermutes(agg, FlattenGroups(order, groups), active);
    SortBySorts(RecoveredOrder, messages);
    messages := SortBy(RecoveredOrder, messages);
    hasNext := hasMore;
    assert IsRecovered(messages, agg, patches);
  }

  /** Whatever fails to list or download, the answer holds only messages of active patches, each read from its own quilt. */
  lemma {:induction false} CollectedAreFetched(agg: Aggregator, ps: seq<DiscoveredPatch>, m: RelayerMessage)
    ensures m in Collect(agg, ps) <==> exists p :: p in ps && FetchPatch(agg, p) == Some(m)
  {
    if ps == [] {
    } else {
      CollectedAreFetched(agg, ps[1..], m);
      assert ps == [ps[0]] + ps[1..];
    }
  }
}
