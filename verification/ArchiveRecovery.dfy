/**
  The promise of the whole pipeline: archive, index, recover, and get back what the relayer stores.

  For a run in which no client write overlapped a sync pass, with nothing of the group left pending
  and later uploads of a message recorded at later checkpoints, feeding every quilt to the indexer in
  any order and recovering page by page yields the group's non-deleted messages, in order, each with
  the view the relayer itself would serve.
 */
module ArchiveRecovery {
  import opened Archival
  import opened Discovery
  import opened Encoding
  import opened Messages
  import opened Paging
  import opened Recovery
  import opened Relayer
  import opened Sequences
  import opened Sorting
  import opened Storage
  import opened Views
  import opened Wrappers

  // ---------------------------------------------------------------- what the indexer learns from a quilt

  /** The index entry for one archived patch. */
  function Discovered(archive: seq<Quilt>, p: PatchId): DiscoveredPatch
    requires ValidPatch(archive, p)
  {
    var body := PatchAt(archive, p).body;
    DiscoveredPatch(Identifier(body.id), body.id, body.groupId, body.sender, StatusText(body.syncStatus), p.quilt,
                    body.order, archive[p.quilt].checkpoint)
  }

  ghost predicate Named(p: Patch) {
    p.identifier == Identifier(p.body.id) && p.tags == TagsOf(p.body)
  }

  lemma DiscoverReadsTags(p: Patch, blobId: nat, checkpoint: nat)
    requires Named(p)
    ensures p.tags.source == SOURCE_TAG && StartsWith(p.identifier, MSG_PREFIX)
    ensures Discover(p, blobId, checkpoint)
      == DiscoveredPatch(p.identifier, p.body.id, p.body.groupId, p.body.sender, StatusText(p.body.syncStatus), blobId,
                         p.body.order, checkpoint)
    ensures PatchOrder(Discover(p, blobId, checkpoint)) == OrderOf(p.body) == RecoveredOrder(FromWalrusMessage(p.body))
    ensures IsActive(Discover(p, blobId, checkpoint)) <==> IsVisible(p.body)
    ensures IsVisible(p.body) <==> !Served(p.body).isDeleted
  {
    StatusIsTold(p.body);
    assert p.identifier[..|MSG_PREFIX|] == MSG_PREFIX && p.identifier[|MSG_PREFIX|..] == p.body.id;
    if p.body.order.Some? { DecimalRoundTrip(p.body.order.value); }
  }

  lemma {:induction false} DiscoverAllReads(patches: seq<Patch>, blobId: nat, checkpoint: nat)
    requires forall k | 0 <= k < |patches| :: Named(patches[k])
    ensures |DiscoverAll(patches, blobId, checkpoint)| == |patches|
    ensures forall k | 0 <= k < |patches| ::
      StartsWith(patches[k].identifier, MSG_PREFIX)
      && DiscoverAll(patches, blobId, checkpoint)[k] == Discover(patches[k], blobId, checkpoint)
  {
    if patches == [] {
    } else {
      DiscoverReadsTags(patches[0], blobId, checkpoint);
      DiscoverAllReads(patches[1..], blobId, checkpoint);
    }
  }

  function PatchesIn(events: seq<DiscoveryEvent>): seq<DiscoveredPatch> {
    if events == [] then [] else PatchesIn(events[..|events| - 1]) + events[|events| - 1].patches
  }

  /** Feeding the events to the discovery store one after the other. */
  function Feed(events: seq<DiscoveryEvent>): Index {
    if events == [] then map[] else AddAll(Feed(events[..|events| - 1]), events[|events| - 1].patches)
  }

  lemma {:induction false} FeedIsAddAll(events: seq<DiscoveryEvent>)
    ensures Feed(events) == AddAll(map[], PatchesIn(events))
  {
    if events == [] {
    } else {
      FeedIsAddAll(events[..|events| - 1]);
      AddAllConcat(map[], PatchesIn(events[..|events| - 1]), events[|events| - 1].patches);
    }
  }

  lemma {:induction false} PatchesInMembers(events: seq<DiscoveryEvent>, d: DiscoveredPatch)
    ensures d in PatchesIn(events) <==> exists e :: e in events && d in e.patches
  {
    if events == [] {
    } else {
      var front, last := events[..|events| - 1], events[|events| - 1];
      PatchesInMembers(front, d);
      assert events == front + [last];
      assert last in events;
      if d in PatchesIn(front) {
        var e :| e in front && d in e.patches;
        assert e in events;
      }
    }
  }

  /** Every quilt was inspected, in any order and any number of times, and nothing else was. */
  ghost predicate AllInspected(events: seq<DiscoveryEvent>, archive: seq<Quilt>) {
    && (forall q | 0 <= q < |archive| :: Inspect(q, archive[q]).Some? ==> Inspect(q, archive[q]).value in events)
    && (forall e | e in events :: exists q | 0 <= q < |archive| :: Inspect(q, archive[q]) == Some(e))
  }

  /** A blob of the archive's chain: one of the relayer's own quilts under its number, or anybody else's. */
  datatype Blob = Blob(id: nat, quilt: Quilt)

  /** What inspecting blobs one after another brings up. */
  function EventsOf(blobs: seq<Blob>): seq<DiscoveryEvent> {
    FilterMap((b: Blob) => Inspect(b.id, b.quilt), blobs)
  }

  /** The patch is taken for a message of the relayer: source tag and name say so. */
  ghost predicate TakenFor(p: Patch, id: MessageId) {
    p.tags.source == "sui-messaging-relayer" && p.identifier == "msg-" + id
  }

  /** No patch of the quilt passes for the relayer's: it lacks the source tag or the name. */
  ghost predicate Foreign(quilt: Quilt) {
    forall p, id | p in quilt.patches :: !TakenFor(p, id)
  }

  /** Every quilt of the relayer was inspected, in any order and any number of times, among any foreign ones. */
  ghost predicate Inspected(blobs: seq<Blob>, archive: seq<Quilt>) {
    && (forall q: nat | q < |archive| :: Blob(q, archive[q]) in blobs)
    && (forall b | b in blobs :: Foreign(b.quilt) || (b.id < |archive| && b.quilt == archive[b.id]))
  }

  /** What the indexer notes of such a patch, from its tags. */
  function Noted(p: Patch, id: MessageId, blobId: nat, checkpoint: nat): DiscoveredPatch {
    DiscoveredPatch(p.identifier, id, p.tags.groupId, p.tags.sender, p.tags.syncStatus, blobId, ParseDecimal(p.tags.order), checkpoint)
  }

  lemma TakenIsNoted(p: Patch, blobId: nat, checkpoint: nat)
    ensures p.tags.source == SOURCE_TAG && StartsWith(p.identifier, MSG_PREFIX) <==> exists id :: TakenFor(p, id)
    ensures forall id | TakenFor(p, id) :: Discover(p, blobId, checkpoint) == Noted(p, id, blobId, checkpoint)
  {
    if p.tags.source == SOURCE_TAG && StartsWith(p.identifier, MSG_PREFIX) {
      assert TakenFor(p, p.identifier[4..]);
    }
    forall id | TakenFor(p, id) ensures Discover(p, blobId, checkpoint) == Noted(p, id, blobId, checkpoint) {
      assert p.identifier[..4] == "msg-" && p.identifier[4..] == id;
    }
  }

  /** Exactly the patches with tag and name are discovered, whatever else the quilt holds. */
  lemma {:induction false} DiscoveredIff(patches: seq<Patch>, blobId: nat, checkpoint: nat, d: DiscoveredPatch)
    ensures d in DiscoverAll(patches, blobId, checkpoint)
       <==> exists p, id :: p in patches && TakenFor(p, id) && d == Noted(p, id, blobId, checkpoint)
  {
    if patches == [] {
    } else {
      var first, rest := patches[0], DiscoverAll(patches[1..], blobId, checkpoint);
      DiscoveredIff(patches[1..], blobId, checkpoint, d);
      assert patches == [first] + patches[1..];
      TakenIsNoted(first, blobId, checkpoint);
      if d in DiscoverAll(patches, blobId, checkpoint) && d !in rest {
        var id :| TakenFor(first, id);
        assert first in patches && d == Noted(first, id, blobId, checkpoint);
      }
    }
  }

  /** A quilt is passed over exactly when it is foreign. */
  lemma ForeignIffPassedOver(blobId: nat, quilt: Quilt)
    ensures Inspect(blobId, quilt).None? <==> Foreign(quilt)
    ensures Inspect(blobId, quilt).Some? ==>
      Inspect(blobId, quilt).value.blobId == blobId && Inspect(blobId, quilt).value.checkpoint == quilt.checkpoint
  {
    var found := DiscoverAll(quilt.patches, blobId, quilt.checkpoint);
    if found != [] {
      DiscoveredIff(quilt.patches, blobId, quilt.checkpoint, found[0]);
    }
    forall p, id | p in quilt.patches && TakenFor(p, id) ensures found != [] {
      DiscoveredIff(quilt.patches, blobId, quilt.checkpoint, Noted(p, id, blobId, quilt.checkpoint));
    }
  }

  lemma {:induction false} EventsMembers(blobs: seq<Blob>, e: DiscoveryEvent)
    ensures e in EventsOf(blobs) <==> exists b :: b in blobs && Inspect(b.id, b.quilt) == Some(e)
  {
    if blobs == [] {
    } else {
      EventsMembers(blobs[1..], e);
      assert blobs == [blobs[0]] + blobs[1..];
    }
  }

  /** Foreign quilts bring up nothing, so what the indexer is fed comes from the relayer's own. */
  lemma InspectedAll(blobs: seq<Blob>, archive: seq<Quilt>)
    requires Inspected(blobs, archive)
    ensures AllInspected(EventsOf(blobs), archive)
  {
    forall q | 0 <= q < |archive| && Inspect(q, archive[q]).Some? ensures Inspect(q, archive[q]).value in EventsOf(blobs) {
      assert Blob(q, archive[q]) in blobs;
      EventsMembers(blobs, Inspect(q, archive[q]).value);
    }
    forall e | e in EventsOf(blobs) ensures exists q | 0 <= q < |archive| :: Inspect(q, archive[q]) == Some(e) {
      EventsMembers(blobs, e);
      var b :| b in blobs && Inspect(b.id, b.quilt) == Some(e);
      ForeignIffPassedOver(b.id, b.quilt);
      assert Inspect(b.id, archive[b.id]) == Some(e);
    }
  }

  /** The indexer then knows exactly the archived patches. */
  lemma IndexedPatches(events: seq<DiscoveryEvent>, archive: seq<Quilt>, ms: map<MessageId, Message>, d: DiscoveredPatch)
    requires ArchiveInv(archive, ms) && AllInspected(events, archive)
    ensures d in PatchesIn(events) <==> exists p :: ValidPatch(archive, p) && d == Discovered(archive, p)
  {
    PatchesInMembers(events, d);
    if d in PatchesIn(events) {
      var e :| e in events && d in e.patches;
      var q :| 0 <= q < |archive| && Inspect(q, archive[q]) == Some(e);
      QuiltReads(archive, ms, q);
      var k :| 0 <= k < |e.patches| && e.patches[k] == d;
      assert ValidPatch(archive, PatchId(q, k)) && d == Discovered(archive, PatchId(q, k));
    }
    if p :| ValidPatch(archive, p) && d == Discovered(archive, p) {
      QuiltReads(archive, ms, p.quilt);
      var e := Inspect(p.quilt, archive[p.quilt]).value;
      assert e.patches[p.index] == d;
      assert e in events && d in e.patches;
    }
  }

  lemma QuiltReads(archive: seq<Quilt>, ms: map<MessageId, Message>, q: nat)
    requires ArchiveInv(archive, ms) && q < |archive|
    ensures |archive[q].patches| > 0 ==> Inspect(q, archive[q]).Some?
    ensures Inspect(q, archive[q]).Some? ==>
      var found := Inspect(q, archive[q]).value.patches;
      |found| == |archive[q].patches| && forall k | 0 <= k < |found| :: found[k] == Discovered(archive, PatchId(q, k))
  {
    var patches := archive[q].patches;
    forall k | 0 <= k < |patches| ensures Named(patches[k]) {
      assert PatchOk(PatchAt(archive, PatchId(q, k)), ms);
    }
    DiscoverAllReads(patches, q, archive[q].checkpoint);
    forall k | 0 <= k < |patches| ensures Discover(patches[k], q, archive[q].checkpoint) == Discovered(archive, PatchId(q, k)) {
      DiscoverReadsTags(patches[k], q, archive[q].checkpoint);
    }
  }

  // ---------------------------------------------------------------- the index entry of a finished message

  /** Later uploads of the same message are recorded at later checkpoints. */
  ghost predicate CheckpointsIncrease(archive: seq<Quilt>) {
    forall p, q {:trigger PatchAt(archive, p), PatchAt(archive, q)} |
      ValidPatch(archive, p) && ValidPatch(archive, q) && p.quilt < q.quilt
      && PatchAt(archive, p).body.id == PatchAt(archive, q).body.id ::
      archive[p.quilt].checkpoint < archive[q.quilt].checkpoint
  }

  /** The indexer settles on the last upload of a message, in whatever order the quilts arrived. */
  lemma IndexHoldsLastUpload(events: seq<DiscoveryEvent>, archive: seq<Quilt>, ms: map<MessageId, Message>, last: PatchId, id: MessageId)
    requires ArchiveInv(archive, ms) && CheckpointsIncrease(archive) && AllInspected(events, archive)
    requires IsLastUpload(archive, last, id)
    ensures Lookup(Feed(events), PatchAt(archive, last).body.groupId, id) == Some(Discovered(archive, last))
  {
    var ps, d := PatchesIn(events), Discovered(archive, last);
    FeedIsAddAll(events);
    LatestIsTop(ps, d.groupId, id);
    IndexedPatches(events, archive, ms, d);
    var r := Lookup(Feed(events), d.groupId, id);
    assert d in ps && Concerns(d, d.groupId, id);
    IndexedPatches(events, archive, ms, r.value);
    var p :| ValidPatch(archive, p) && r.value == Discovered(archive, p);
    assert PatchAt(archive, p).body.id == id;
    assert !SameName(archive, p, last);
    assert PatchOk(PatchAt(archive, p), ms) && PatchOk(PatchAt(archive, last), ms);
    assert p == last;
  }

  /** A message without an upload is not indexed. */
  lemma IndexedAreStored(events: seq<DiscoveryEvent>, archive: seq<Quilt>, ms: map<MessageId, Message>, g: GroupId, id: MessageId)
    requires ArchiveInv(archive, ms) && AllInspected(events, archive) && Lookup(Feed(events), g, id).Some?
    ensures id in ms && ms[id].groupId == g
  {
    FeedIsAddAll(events);
    LatestIsTop(PatchesIn(events), g, id);
    var r := Lookup(Feed(events), g, id).value;
    IndexedPatches(events, archive, ms, r);
    var p :| ValidPatch(archive, p) && r == Discovered(archive, p);
    assert PatchOk(PatchAt(archive, p), ms);
  }

  // ---------------------------------------------------------------- fetching it back

  lemma {:induction false} EntriesName(patches: seq<Patch>, quilt: nat, k: nat)
    requires k < |patches| && NamesDistinct(patches)
    ensures patches[k].identifier in NameIndex(Entries(patches, quilt))
    ensures NameIndex(Entries(patches, quilt))[patches[k].identifier] == PatchId(quilt, k)
  {
    var front := patches[..|patches| - 1];
    assert Entries(patches, quilt)[..|Entries(patches, quilt)| - 1] == Entries(front, quilt);
    if k == |patches| - 1 {
    } else {
      EntriesName(front, quilt, k);
    }
  }

  lemma QuiltNamesDistinct(archive: seq<Quilt>, ms: map<MessageId, Message>, q: nat)
    requires ArchiveInv(archive, ms) && q < |archive|
    ensures NamesDistinct(archive[q].patches)
  {
    var ps := archive[q].patches;
    forall i, j | 0 <= i < j < |ps| ensures ps[i].identifier != ps[j].identifier {
      assert !SameName(archive, PatchId(q, i), PatchId(q, j));
    }
  }

  /** With every read succeeding, fetching an index entry returns the archived body it stands for. */
  lemma FetchReadsBody(agg: Aggregator, ms: map<MessageId, Message>, p: PatchId)
    requires ArchiveInv(agg.archive, ms) && agg.unlisted == {} && agg.unreadable == {} && ValidPatch(agg.archive, p)
    ensures FetchPatch(agg, Discovered(agg.archive, p)) == Some(FromWalrusMessage(PatchAt(agg.archive, p).body))
  {
    QuiltNamesDistinct(agg.archive, ms, p.quilt);
    EntriesName(agg.archive[p.quilt].patches, p.quilt, p.index);
    assert PatchOk(PatchAt(agg.archive, p), ms);
  }

  // ---------------------------------------------------------------- a settled group

  /** Everything a finished group needs: nothing pending, and every message archived as it is stored. */
  ghost predicate Settled(s: System, g: GroupId) {
    forall id | id in s.store.messages && s.store.messages[id].groupId == g ::
      !IsPending(s.store.messages[id].syncStatus) && CurrentInv(s, id)
  }

  /** The group's stored messages between two orders. */
  ghost function GroupMessages(s: System, g: GroupId, after: Option<int>, before: Option<int>): set<Message> {
    Matching(s.store.messages, g, after, before)
  }

  /** What the relayer does not serve as deleted. */
  predicate IsVisible(m: Message) {
    !m.syncStatus.DeletePending? && !m.syncStatus.Deleted?
  }

  predicate HasPatch(archive: seq<Quilt>, m: Message) {
    m.quiltPatchId.Some? && ValidPatch(archive, m.quiltPatchId.value)
  }

  function BodyOf(archive: seq<Quilt>, m: Message): Message
    requires HasPatch(archive, m)
  {
    PatchAt(archive, m.quiltPatchId.value).body
  }

  /** The entry the indexer holds for a settled message. */
  function EntryOf(archive: seq<Quilt>, m: Message): DiscoveredPatch
    requires HasPatch(archive, m)
  {
    Discovered(archive, m.quiltPatchId.value)
  }

  /** A stored message whose patch and index entry say the same as the store. */
  ghost predicate Ready(archive: seq<Quilt>, g: GroupId, m: Message) {
    && HasPatch(archive, m)
    && IdentityOf(BodyOf(archive, m)) == IdentityOf(m) && BodyOf(archive, m).content == m.content
    && BodyOf(archive, m).syncStatus == m.syncStatus
    && EntryOf(archive, m).messageId == m.id && EntryOf(archive, m).groupId == g
    && PatchOrder(EntryOf(archive, m)) == OrderOf(m)
    && (IsActive(EntryOf(archive, m)) <==> IsVisible(m))
  }

  ghost predicate AllReady(archive: seq<Quilt>, g: GroupId, ms: seq<Message>) {
    forall m | m in ms :: Ready(archive, g, m)
  }

  /** The index entries of the group are the entries of its messages. */
  ghost predicate Indexed(s: System, g: GroupId, groupMap: GroupIndex) {
    && (forall m | m in GroupMessages(s, g, None, None) ::
          Ready(s.archive, g, m) && m.id in groupMap && groupMap[m.id] == EntryOf(s.archive, m))
    && (forall id | id in groupMap :: id in s.store.messages && s.store.messages[id] in GroupMessages(s, g, None, None))
  }

  lemma SettledIsReady(s: System, g: GroupId, m: Message)
    requires SystemInv(s) && Settled(s, g) && m in GroupMessages(s, g, None, None)
    ensures Ready(s.archive, g, m) && IsLastUpload(s.archive, m.quiltPatchId.value, m.id)
  {
    assert m.groupId == g && LinkOk(s.store.messages[m.id], s.archive) && CurrentInv(s, m.id);
    assert IdentityOf(BodyOf(s.archive, m)) == IdentityOf(m);
  }

  /** The group's part of the index. */
  function GroupMap(events: seq<DiscoveryEvent>, g: GroupId): GroupIndex {
    if g in Feed(events) then Feed(events)[g] else map[]
  }

  /** The index of a settled group holds exactly one entry per stored message: its own. */
  lemma SettledIndex(s: System, g: GroupId, events: seq<DiscoveryEvent>)
    requires SystemInv(s) && Settled(s, g) && CheckpointsIncrease(s.archive) && AllInspected(events, s.archive)
    ensures Indexed(s, g, GroupMap(events, g))
  {
    var ms := s.store.messages;
    forall m | m in GroupMessages(s, g, None, None)
      ensures Ready(s.archive, g, m) && Lookup(Feed(events), g, m.id) == Some(EntryOf(s.archive, m))
    {
      SettledIsReady(s, g, m);
      IndexHoldsLastUpload(events, s.archive, ms, m.quiltPatchId.value, m.id);
    }
    forall id | id in GroupMap(events, g) ensures id in ms && ms[id] in GroupMessages(s, g, None, None) {
      IndexedAreStored(events, s.archive, ms, g, id);
    }
  }

  // ---------------------------------------------------------------- entries and views of a listing

  /** One view per message. */
  function ViewsOf(archive: seq<Quilt>, ms: seq<Message>): seq<RelayerMessage>
    requires forall m | m in ms :: HasPatch(archive, m)
  {
    if ms == [] then [] else [FromWalrusMessage(BodyOf(archive, ms[0]))] + ViewsOf(archive, ms[1..])
  }

  function EntriesOf(archive: seq<Quilt>, ms: seq<Message>): seq<DiscoveredPatch>
    requires forall m | m in ms :: HasPatch(archive, m)
  {
    if ms == [] then [] else [EntryOf(archive, ms[0])] + EntriesOf(archive, ms[1..])
  }

  lemma {:induction false} EntriesOfMembers(archive: seq<Quilt>, ms: seq<Message>)
    requires forall m | m in ms :: HasPatch(archive, m)
    ensures |EntriesOf(archive, ms)| == |ms| == |ViewsOf(archive, ms)|
    ensures forall k | 0 <= k < |ms| :: EntriesOf(archive, ms)[k] == EntryOf(archive, ms[k])
    ensures forall k | 0 <= k < |ms| :: ViewsOf(archive, ms)[k] == FromWalrusMessage(BodyOf(archive, ms[k]))
  {
    if ms == [] {
    } else {
      EntriesOfMembers(archive, ms[1..]);
    }
  }

  lemma {:induction false} CollectEntries(agg: Aggregator, stored: map<MessageId, Message>, ms: seq<Message>)
    requires ArchiveInv(agg.archive, stored) && agg.unlisted == {} && agg.unreadable == {}
    requires forall m | m in ms :: HasPatch(agg.archive, m)
    ensures Collect(agg, EntriesOf(agg.archive, ms)) == ViewsOf(agg.archive, ms)
  {
    if ms == [] {
    } else {
      assert ms[0] in ms;
      FetchReadsBody(agg, stored, ms[0].quiltPatchId.value);
      CollectEntries(agg, stored, ms[1..]);
      assert EntriesOf(agg.archive, ms)[1..] == EntriesOf(agg.archive, ms[1..]);
    }
  }

  /** Dropping deleted entries drops the entries of the messages that are not visible. */
  lemma {:induction false} ActiveAreVisible(archive: seq<Quilt>, g: GroupId, ms: seq<Message>)
    requires AllReady(archive, g, ms)
    ensures forall m | m in Filter(IsVisible, ms) :: m in ms
    ensures Filter(IsActive, EntriesOf(archive, ms)) == EntriesOf(archive, Filter(IsVisible, ms))
  {
    FilterMembers(IsVisible, ms);
    if ms == [] {
    } else {
      assert Ready(archive, g, ms[0]);
      ActiveAreVisible(archive, g, ms[1..]);
      assert EntriesOf(archive, ms)[1..] == EntriesOf(archive, ms[1..]);
    }
  }

  lemma EntriesSlice(archive: seq<Quilt>, ms: seq<Message>, limit: int)
    requires forall m | m in ms :: HasPatch(archive, m)
    ensures forall m | m in SliceTo(ms, limit) :: m in ms
    ensures SliceTo(EntriesOf(archive, ms), limit) == EntriesOf(archive, SliceTo(ms, limit))
  {
    EntriesOfMembers(archive, ms);
    EntriesOfMembers(archive, SliceTo(ms, limit));
  }

  lemma EntriesOrdered(archive: seq<Quilt>, g: GroupId, ms: seq<Message>)
    requires AllReady(archive, g, ms) && StrictlySortedBy(OrderOf, ms)
    ensures StrictlySortedBy(PatchOrder, EntriesOf(archive, ms)) && StrictlySortedBy(RecoveredOrder, ViewsOf(archive, ms))
  {
    EntriesOfMembers(archive, ms);
    var entries, views := EntriesOf(archive, ms), ViewsOf(archive, ms);
    forall i, j | 0 <= i < j < |ms|
      ensures PatchOrder(entries[i]) < PatchOrder(entries[j]) && RecoveredOrder(views[i]) < RecoveredOrder(views[j])
    {
      assert Ready(archive, g, ms[i]) && Ready(archive, g, ms[j]);
      assert OrderOf(ms[i]) < OrderOf(ms[j]);
    }
  }

  // ---------------------------------------------------------------- one page

  lemma VisibleReady(s: System, g: GroupId, groupMap: GroupIndex, after: Option<int>, before: Option<int>, listing: seq<Message>)
    requires Indexed(s, g, groupMap) && Lists(listing, GroupMessages(s, g, after, before))
    ensures AllReady(s.archive, g, listing) && AllReady(s.archive, g, Filter(IsVisible, listing))
  {
    FilterMembers(IsVisible, listing);
    forall m | m in listing ensures Ready(s.archive, g, m) {
      assert m in GroupMessages(s, g, None, None);
    }
  }

  lemma EntriesDistinct(s: System, g: GroupId, after: Option<int>, before: Option<int>, listing: seq<Message>)
    requires KeyedById(s.store.messages) && Lists(listing, GroupMessages(s, g, after, before)) && AllReady(s.archive, g, listing)
    ensures DistinctMessages(EntriesOf(s.archive, listing))
  {
    EntriesOfMembers(s.archive, listing);
    forall i, j | 0 <= i < j < |listing| ensures EntryOf(s.archive, listing[i]).messageId != EntryOf(s.archive, listing[j]).messageId {
      assert listing[i] in listing && listing[j] in listing;
      assert Ready(s.archive, g, listing[i]) && Ready(s.archive, g, listing[j]) && OrderOf(listing[i]) < OrderOf(listing[j]);
    }
  }

  lemma EntriesListed(s: System, g: GroupId, groupMap: GroupIndex, after: Option<int>, before: Option<int>, listing: seq<Message>)
    requires KeyedById(s.store.messages) && Indexed(s, g, groupMap) && Lists(listing, GroupMessages(s, g, after, before))
    requires AllReady(s.archive, g, listing)
    ensures ListsPatches(EntriesOf(s.archive, listing), groupMap, after, before)
  {
    EntriesOrdered(s.archive, g, listing);
    EntriesDistinct(s, g, after, before, listing);
    forall p {
      EntryListed(s, g, groupMap, after, before, listing, p);
    }
  }

  lemma EntryListed(s: System, g: GroupId, groupMap: GroupIndex, after: Option<int>, before: Option<int>, listing: seq<Message>, p: DiscoveredPatch)
    requires KeyedById(s.store.messages) && Indexed(s, g, groupMap) && Lists(listing, GroupMessages(s, g, after, before))
    requires AllReady(s.archive, g, listing)
    ensures p in EntriesOf(s.archive, listing)
       <==> p.messageId in groupMap && groupMap[p.messageId] == p && InRange(PatchOrder(p), after, before)
  {
    if p in EntriesOf(s.archive, listing) {
      var k := EntryAt(s.archive, listing, p);
      EntryIsIndexed(s, g, groupMap, after, before, listing, k);
    }
    if p.messageId in groupMap && groupMap[p.messageId] == p && InRange(PatchOrder(p), after, before) {
      var k := IndexedIsEntry(s, g, groupMap, after, before, listing, p);
      EntriesOfMembers(s.archive, listing);
      assert EntriesOf(s.archive, listing)[k] == p;
    }
  }

  lemma EntryAt(archive: seq<Quilt>, ms: seq<Message>, p: DiscoveredPatch) returns (k: nat)
    requires forall m | m in ms :: HasPatch(archive, m)
    requires p in EntriesOf(archive, ms)
    ensures k < |ms| && EntryOf(archive, ms[k]) == p
  {
    EntriesOfMembers(archive, ms);
    k :| 0 <= k < |ms| && EntriesOf(archive, ms)[k] == p;
  }

  lemma IndexedIsEntry(s: System, g: GroupId, groupMap: GroupIndex, after: Option<int>, before: Option<int>, listing: seq<Message>, p: DiscoveredPatch)
    returns (k: nat)
    requires KeyedById(s.store.messages) && Indexed(s, g, groupMap) && Lists(listing, GroupMessages(s, g, after, before))
    requires p.messageId in groupMap && groupMap[p.messageId] == p && InRange(PatchOrder(p), after, before)
    ensures k < |listing| && Ready(s.archive, g, listing[k]) && EntryOf(s.archive, listing[k]) == p
  {
    var m := s.store.messages[p.messageId];
    assert m.id == p.messageId && m in GroupMessages(s, g, None, None);
    assert Ready(s.archive, g, m) && groupMap[m.id] == EntryOf(s.archive, m);
    assert m in listing;
    k :| 0 <= k < |listing| && listing[k] == m;
  }

  lemma EntryIsIndexed(s: System, g: GroupId, groupMap: GroupIndex, after: Option<int>, before: Option<int>, listing: seq<Message>, k: nat)
    requires KeyedById(s.store.messages) && Indexed(s, g, groupMap) && Lists(listing, GroupMessages(s, g, after, before))
    requires AllReady(s.archive, g, listing) && k < |listing|
    ensures Ready(s.archive, g, listing[k])
    ensures var p := EntryOf(s.archive, listing[k]);
      p.messageId in groupMap && groupMap[p.messageId] == p && InRange(PatchOrder(p), after, before)
  {
    var m := listing[k];
    assert m in listing && m in GroupMessages(s, g, None, None) && Ready(s.archive, g, m);
  }

  /** What the index lists between two orders are the entries of the stored messages between them. */
  lemma IndexListsGroup(s: System, g: GroupId, groupMap: GroupIndex, after: Option<int>, before: Option<int>,
                        all: seq<DiscoveredPatch>, listing: seq<Message>)
    requires KeyedById(s.store.messages) && Indexed(s, g, groupMap) && ListsPatches(all, groupMap, after, before)
    requires Lists(listing, GroupMessages(s, g, after, before))
    ensures AllReady(s.archive, g, listing) && all == EntriesOf(s.archive, listing)
  {
    VisibleReady(s, g, groupMap, after, before, listing);
    EntriesOrdered(s.archive, g, listing);
    EntriesListed(s, g, groupMap, after, before, listing);
    SortedSame(all, EntriesOf(s.archive, listing));
  }

  lemma SortedSame(all: seq<DiscoveredPatch>, entries: seq<DiscoveredPatch>)
    requires SortedBy(PatchOrder, all) && DistinctMessages(all) && StrictlySortedBy(PatchOrder, entries)
    requires SameElements(all, entries)
    ensures all == entries
  {
    forall i, j | 0 <= i < j < |all| ensures PatchOrder(all[i]) < PatchOrder(all[j]) {
      assert all[i] in entries && all[j] in entries;
      var a :| 0 <= a < |entries| && entries[a] == all[i];
      var b :| 0 <= b < |entries| && entries[b] == all[j];
      assert PatchOrder(entries[a]) == PatchOrder(entries[b]) ==> a == b;
    }
    StrictlySortedUnique(PatchOrder, all, entries);
  }

  /** The visible messages among the first `limit` of a listing. */
  function VisiblePage(listing: seq<Message>, limit: int): seq<Message> {
    Filter(IsVisible, SliceTo(listing, limit))
  }

  lemma VisiblePageMembers(listing: seq<Message>, limit: int)
    ensures forall m | m in VisiblePage(listing, limit) :: m in listing && IsVisible(m)
    ensures StrictlySortedBy(OrderOf, listing) ==> StrictlySortedBy(OrderOf, VisiblePage(listing, limit))
  {
    FilterMembers(IsVisible, SliceTo(listing, limit));
    if StrictlySortedBy(OrderOf, listing) {
      FilterKeepsPairs(IsVisible, (a: Message, b: Message) => OrderOf(a) < OrderOf(b), SliceTo(listing, limit));
    }
  }

  /** More is stored than the page may show; a negative limit always claims so for a group that has messages. */
  ghost predicate MoreStored(s: System, g: GroupId, listing: seq<Message>, limit: int) {
    |listing| > limit && GroupMessages(s, g, None, None) != {}
  }

  /** A recovered page is exactly the visible ones of the next `limit` stored messages, and the flag says whether more are stored. */
  lemma RecoveredPage(s: System, g: GroupId, groupMap: GroupIndex, after: Option<int>, before: Option<int>, limit: int,
                      messages: seq<RelayerMessage>, hasNext: bool, listing: seq<Message>)
    requires KeyedById(s.store.messages) && ArchiveInv(s.archive, s.store.messages) && Indexed(s, g, groupMap)
    requires Recovers(messages, hasNext, Aggregator(s.archive, {}, {}), groupMap, after, before, limit)
    requires Lists(listing, GroupMessages(s, g, after, before))
    ensures AllReady(s.archive, g, VisiblePage(listing, limit))
    ensures messages == ViewsOf(s.archive, VisiblePage(listing, limit)) && (hasNext <==> MoreStored(s, g, listing, limit))
  {
    var page :| ServesPatches(page, hasNext, groupMap, after, before, limit)
      && IsRecovered(messages, Aggregator(s.archive, {}, {}), page);
    ServedPage(s, g, groupMap, after, before, limit, page, hasNext, listing);
    PageViews(s, g, page, messages, listing, limit);
  }

  lemma ServedPage(s: System, g: GroupId, groupMap: GroupIndex, after: Option<int>, before: Option<int>, limit: int,
                   page: seq<DiscoveredPatch>, hasMore: bool, listing: seq<Message>)
    requires KeyedById(s.store.messages) && Indexed(s, g, groupMap) && ServesPatches(page, hasMore, groupMap, after, before, limit)
    requires Lists(listing, GroupMessages(s, g, after, before))
    ensures AllReady(s.archive, g, listing) && (hasMore <==> MoreStored(s, g, listing, limit))
    ensures forall m | m in SliceTo(listing, limit) :: m in listing
    ensures page == EntriesOf(s.archive, SliceTo(listing, limit))
  {
    var all :| ListsPatches(all, groupMap, after, before)
      && page == SliceTo(all, limit) && (hasMore <==> groupMap != map[] && |all| > limit);
    IndexListsGroup(s, g, groupMap, after, before, all, listing);
    EntriesOfMembers(s.archive, listing);
    IndexedIfStored(s, g, groupMap);
    EntriesSlice(s.archive, listing, limit);
  }

  lemma IndexedIfStored(s: System, g: GroupId, groupMap: GroupIndex)
    requires forall m | m in GroupMessages(s, g, None, None) :: m.id in groupMap
    requires forall id | id in groupMap :: id in s.store.messages && s.store.messages[id] in GroupMessages(s, g, None, None)
    ensures groupMap != map[] <==> GroupMessages(s, g, None, None) != {}
  {
    assert groupMap != map[] <==> groupMap.Keys != {};
    if groupMap != map[] {
      var id :| id in groupMap;
      assert s.store.messages[id] in GroupMessages(s, g, None, None);
    }
    if GroupMessages(s, g, None, None) != {} {
      var m :| m in GroupMessages(s, g, None, None);
      assert m.id in groupMap;
    }
  }

  lemma PageViews(s: System, g: GroupId, page: seq<DiscoveredPatch>, messages: seq<RelayerMessage>, listing: seq<Message>, limit: int)
    requires ArchiveInv(s.archive, s.store.messages) && AllReady(s.archive, g, listing) && StrictlySortedBy(OrderOf, listing)
    requires forall m | m in SliceTo(listing, limit) :: m in listing
    requires page == EntriesOf(s.archive, SliceTo(listing, limit)) && IsRecovered(messages, Aggregator(s.archive, {}, {}), page)
    ensures AllReady(s.archive, g, VisiblePage(listing, limit))
    ensures messages == ViewsOf(s.archive, VisiblePage(listing, limit))
  {
    var visible := VisiblePage(listing, limit);
    VisiblePageMembers(listing, limit);
    ActiveAreVisible(s.archive, g, SliceTo(listing, limit));
    CollectEntries(Aggregator(s.archive, {}, {}), s.store.messages, visible);
    EntriesOrdered(s.archive, g, visible);
    SortedPermutation(RecoveredOrder, messages, ViewsOf(s.archive, visible));
  }

  /** A group nothing of which is pending, in a run where no write overlapped a pass on it. */
  ghost predicate SettledQuietly(states: seq<System>, acts: seq<Action>, n: nat, g: GroupId)
    requires IsRun(states, acts) && n < |states|
  {
    forall id | id in states[n].store.messages && states[n].store.messages[id].groupId == g ::
      Quiet(states, acts, n, id) && !IsPending(states[n].store.messages[id].syncStatus)
  }

  lemma QuietlySettled(states: seq<System>, acts: seq<Action>, n: nat, g: GroupId, events: seq<DiscoveryEvent>)
    requires IsRun(states, acts) && n < |states| && SettledQuietly(states, acts, n, g)
    requires CheckpointsIncrease(states[n].archive) && AllInspected(events, states[n].archive)
    ensures KeyedById(states[n].store.messages) && ArchiveInv(states[n].archive, states[n].store.messages)
    ensures Indexed(states[n], g, GroupMap(events, g))
  {
    RunKeepsInv(states, acts, n);
    forall id | id in states[n].store.messages && states[n].store.messages[id].groupId == g ensures CurrentInv(states[n], id) {
      QuietRunsArchiveTheCurrentMessage(states, acts, n, id);
    }
    SettledIndex(states[n], g, events);
  }

  /** One view after another is what the relayer serves for these messages. */
  ghost predicate ServedAlike(views: seq<RelayerMessage>, ms: seq<Message>) {
    |views| == |ms| && forall k | 0 <= k < |ms| :: SameView(views[k], Served(ms[k]))
  }

  lemma ReadyServedAlike(archive: seq<Quilt>, g: GroupId, ms: seq<Message>)
    requires AllReady(archive, g, ms)
    ensures ServedAlike(ViewsOf(archive, ms), ms)
  {
    EntriesOfMembers(archive, ms);
    forall k | 0 <= k < |ms| ensures SameView(ViewsOf(archive, ms)[k], Served(ms[k])) {
      assert Ready(archive, g, ms[k]);
      ArchivedViewIsServedView(BodyOf(archive, ms[k]), ms[k]);
    }
  }

  /**
    Archive, index, recover agrees with the store, page by page: asking for what lies between any two
    orders, with any limit the indexer lets through, gives exactly the non-deleted ones of the first so
    many stored messages there, once, in order, each as the relayer would serve it; and says whether
    more are stored.  A page at least as wide as the group gives the whole group.
   */
  lemma RecoveryAgreesWithTheStore(states: seq<System>, acts: seq<Action>, n: nat, g: GroupId, blobs: seq<Blob>,
                                   after: Option<int>, before: Option<int>, requested: Option<int>,
                                   messages: seq<RelayerMessage>, hasNext: bool, listing: seq<Message>)
    requires IsRun(states, acts) && n < |states| && SettledQuietly(states, acts, n, g)
    requires CheckpointsIncrease(states[n].archive) && Inspected(blobs, states[n].archive)
    requires Recovers(messages, hasNext, Aggregator(states[n].archive, {}, {}), GroupMap(EventsOf(blobs), g), after, before, ApiLimit(requested))
    requires Lists(listing, GroupMessages(states[n], g, after, before))
    ensures ServedAlike(messages, VisiblePage(listing, ApiLimit(requested)))
    ensures hasNext <==> MoreStored(states[n], g, listing, ApiLimit(requested))
    ensures |listing| <= ApiLimit(requested) ==> ServedAlike(messages, Filter(IsVisible, listing))
  {
    var limit := ApiLimit(requested);
    InspectedAll(blobs, states[n].archive);
    QuietlySettled(states, acts, n, g, EventsOf(blobs));
    RecoveredPage(states[n], g, GroupMap(EventsOf(blobs), g), after, before, limit, messages, hasNext, listing);
    ReadyServedAlike(states[n].archive, g, VisiblePage(listing, limit));
    assert |listing| <= limit ==> SliceTo(listing, limit) == listing;
  }

  // ---------------------------------------------------------------- page after page

  /**
    A client asks again after the order of the last message it got, as long as the answer says there is
    more and names such an order.  It has finished when the last answer said there is no more.
   */
  ghost predicate Walks(answers: Answering, after: Option<int>, pages: seq<seq<RelayerMessage>>, finished: bool)
    decreases |pages|
  {
    && pages != []
    && if |pages| == 1
       then answers(pages[0], !finished, after) && (!finished ==> pages[0] == [])
       else
         && answers(pages[0], true, after) && pages[0] != []
         && Walks(answers, Some(RecoveredOrder(pages[0][|pages[0]| - 1])), pages[1..], finished)
  }

  /** Which messages and flag may be answered to a request behind an order. */
  type Answering = (seq<RelayerMessage>, bool, Option<int>) -> bool

  /** With every read succeeding. */
  ghost function Recovering(archive: seq<Quilt>, groupMap: GroupIndex, limit: nat): Answering {
    (messages, hasNext, after) => Recovers(messages, hasNext, Aggregator(archive, {}, {}), groupMap, after, None, limit)
  }

  ghost predicate VisibleWithin(listing: seq<Message>, from: nat, count: nat)
    requires from + count <= |listing|
  {
    exists i | from <= i < from + count :: IsVisible(listing[i])
  }

  /** Of any `limit` consecutive messages that are not the last ones, some is visible. */
  ghost predicate Passable(listing: seq<Message>, limit: nat) {
    forall i: nat | i + limit < |listing| :: VisibleWithin(listing, i, limit)
  }

  /** No visible message lies behind `limit` consecutive ones that are all deleted. */
  ghost predicate WithinReach(listing: seq<Message>, limit: nat) {
    forall i: nat, k: nat | i + limit <= k < |listing| && IsVisible(listing[k]) :: VisibleWithin(listing, i, limit)
  }

  /** The position just behind the last visible one, or 0. */
  function BehindLastVisible(ms: seq<Message>): (k: nat)
    ensures k <= |ms| && (k > 0 ==> IsVisible(ms[k - 1]))
    ensures forall i | k <= i < |ms| :: !IsVisible(ms[i])
  {
    if ms == [] then 0
    else if IsVisible(ms[|ms| - 1]) then |ms|
    else BehindLastVisible(ms[..|ms| - 1])
  }

  lemma {:induction false} NoneVisible(ms: seq<Message>)
    requires forall i | 0 <= i < |ms| :: !IsVisible(ms[i])
    ensures Filter(IsVisible, ms) == []
  {
    if ms == [] {
    } else {
      NoneVisible(ms[1..]);
    }
  }

  /** What a page shows ends at its last visible message, and the rest of the listing begins behind it. */
  lemma PageEnds(listing: seq<Message>, limit: nat)
    ensures var page, k := VisiblePage(listing, limit), BehindLastVisible(Take(listing, limit));
      && k <= |listing| && page == Filter(IsVisible, listing[..k])
      && Filter(IsVisible, listing) == page + Filter(IsVisible, listing[k..])
      && (page == [] <==> k == 0) && (k > 0 ==> page[|page| - 1] == listing[k - 1])
  {
    var first := Take(listing, limit);
    var k := BehindLastVisible(first);
    assert first == first[..k] + first[k..] && listing == listing[..k] + listing[k..] && first[..k] == listing[..k];
    FilterAppend(IsVisible, first[..k], first[k..]);
    FilterAppend(IsVisible, listing[..k], listing[k..]);
    NoneVisible(first[k..]);
    if k > 0 {
      assert listing[..k] == listing[..k - 1] + [listing[k - 1]];
      FilterAppend(IsVisible, listing[..k - 1], [listing[k - 1]]);
    }
  }

  /** Going on behind the last visible message of a page meets the same obstacles as the whole listing. */
  lemma PassableBehind(listing: seq<Message>, limit: nat, k: nat)
    requires 0 < k <= limit && k <= |listing| && IsVisible(listing[k - 1])
    ensures Passable(listing, limit) <==> Passable(listing[k..], limit)
  {
    var rest := listing[k..];
    if Passable(listing, limit) {
      forall i: nat | i + limit < |rest| ensures VisibleWithin(rest, i, limit) {
        assert VisibleWithin(listing, k + i, limit);
        var j :| k + i <= j < k + i + limit && IsVisible(listing[j]);
        assert rest[j - k] == listing[j];
      }
    }
    if Passable(rest, limit) {
      forall i: nat | i + limit < |listing| ensures VisibleWithin(listing, i, limit) {
        if i >= k {
          assert VisibleWithin(rest, i - k, limit);
          var j :| i - k <= j < i - k + limit && IsVisible(rest[j]);
          assert rest[j] == listing[k + j];
        }
      }
    }
  }

  lemma WithinReachBehind(listing: seq<Message>, limit: nat, k: nat)
    requires 0 < k <= limit && k <= |listing| && IsVisible(listing[k - 1])
    ensures WithinReach(listing, limit) <==> WithinReach(listing[k..], limit)
  {
    var rest := listing[k..];
    if WithinReach(listing, limit) {
      forall i: nat, n: nat | i + limit <= n < |rest| && IsVisible(rest[n]) ensures VisibleWithin(rest, i, limit) {
        assert IsVisible(listing[k + n]) && VisibleWithin(listing, k + i, limit);
        var j :| k + i <= j < k + i + limit && IsVisible(listing[j]);
        assert rest[j - k] == listing[j];
      }
    }
    if WithinReach(rest, limit) {
      forall i: nat, n: nat | i + limit <= n < |listing| && IsVisible(listing[n]) ensures VisibleWithin(listing, i, limit) {
        if i >= k {
          assert IsVisible(rest[n - k]) && VisibleWithin(rest, i - k, limit);
          var j :| i - k <= j < i - k + limit && IsVisible(rest[j]);
          assert rest[j] == listing[k + j];
        }
      }
    }
  }

  /** Where the walk stands after a page: behind message `k` of the listing, with the rest to come. */
  ghost predicate StandsAt(s: System, g: GroupId, messages: seq<RelayerMessage>, listing: seq<Message>, k: nat) {
    && k <= |listing| && (messages == [] <==> k == 0)
    && AllReady(s.archive, g, Filter(IsVisible, listing)) && AllReady(s.archive, g, Filter(IsVisible, listing[k..]))
    && ViewsOf(s.archive, Filter(IsVisible, listing)) == messages + ViewsOf(s.archive, Filter(IsVisible, listing[k..]))
    && (k > 0 ==> RecoveredOrder(messages[|messages| - 1]) == OrderOf(listing[k - 1])
                  && Lists(listing[k..], GroupMessages(s, g, Some(OrderOf(listing[k - 1])), None)))
  }

  lemma PageShows(s: System, g: GroupId, after: Option<int>, page: seq<Message>, listing: seq<Message>, k: nat)
    requires Lists(listing, GroupMessages(s, g, after, None)) && k <= |listing|
    requires AllReady(s.archive, g, listing) && AllReady(s.archive, g, page) && AllReady(s.archive, g, Filter(IsVisible, listing))
    requires Filter(IsVisible, listing) == page + Filter(IsVisible, listing[k..])
    requires (page == [] <==> k == 0) && (k > 0 ==> page[|page| - 1] == listing[k - 1])
    ensures StandsAt(s, g, ViewsOf(s.archive, page), listing, k)
  {
    RestReady(s.archive, g, listing, k);
    ViewsAppend(s.archive, page, Filter(IsVisible, listing[k..]));
    LastView(s.archive, g, page);
    if k > 0 { RestAfterPage(s.store, g, after, listing, k); }
  }

  lemma RestReady(archive: seq<Quilt>, g: GroupId, listing: seq<Message>, k: nat)
    requires AllReady(archive, g, listing) && k <= |listing|
    ensures AllReady(archive, g, Filter(IsVisible, listing[k..]))
  {
    FilterMembers(IsVisible, listing[k..]);
  }

  lemma LastView(archive: seq<Quilt>, g: GroupId, page: seq<Message>)
    requires AllReady(archive, g, page)
    ensures |ViewsOf(archive, page)| == |page|
    ensures page != [] ==> RecoveredOrder(ViewsOf(archive, page)[|page| - 1]) == OrderOf(page[|page| - 1])
  {
    EntriesOfMembers(archive, page);
    assert page != [] ==> Ready(archive, g, page[|page| - 1]);
  }

  lemma PositiveLimit(s: System, g: GroupId, after: Option<int>, listing: seq<Message>, limit: nat)
    requires limit >= 1 && Lists(listing, GroupMessages(s, g, after, None))
    ensures MoreStored(s, g, listing, limit) <==> |listing| > limit
  {
    assert listing != [] ==> listing[0] in listing && listing[0] in GroupMessages(s, g, None, None);
  }

  /** One page of the walk: what it shows, where the walk stands after it, and whether it is blocked there. */
  lemma PageThenRest(s: System, g: GroupId, groupMap: GroupIndex, after: Option<int>, limit: nat,
                     messages: seq<RelayerMessage>, hasNext: bool, listing: seq<Message>) returns (k: nat)
    requires KeyedById(s.store.messages) && ArchiveInv(s.archive, s.store.messages) && Indexed(s, g, groupMap) && limit >= 1
    requires Recovers(messages, hasNext, Aggregator(s.archive, {}, {}), groupMap, after, None, limit)
    requires Lists(listing, GroupMessages(s, g, after, None))
    ensures StandsAt(s, g, messages, listing, k)
    ensures if !hasNext then Passable(listing, limit) && Filter(IsVisible, listing[k..]) == []
            else if k == 0 then !Passable(listing, limit)
            else Passable(listing, limit) <==> Passable(listing[k..], limit)
    ensures if !hasNext then WithinReach(listing, limit)
            else if k == 0 then WithinReach(listing, limit) <==> Filter(IsVisible, listing) == []
            else WithinReach(listing, limit) <==> WithinReach(listing[k..], limit)
  {
    k := BehindLastVisible(Take(listing, limit));
    RecoveredPage(s, g, groupMap, after, None, limit, messages, hasNext, listing);
    PositiveLimit(s, g, after, listing, limit);
    PageEnds(listing, limit);
    VisibleReady(s, g, groupMap, after, None, listing);
    PageShows(s, g, after, VisiblePage(listing, limit), listing, k);
    if hasNext {
      WalkStands(listing, limit, k);
    } else {
      assert Take(listing, limit) == listing;
      NoneVisible(listing[k..]);
    }
  }

  lemma WalkStands(listing: seq<Message>, limit: nat, k: nat)
    requires k == BehindLastVisible(Take(listing, limit)) && |listing| > limit
    ensures if k == 0 then !Passable(listing, limit) else Passable(listing, limit) <==> Passable(listing[k..], limit)
    ensures if k == 0 then WithinReach(listing, limit) <==> Filter(IsVisible, listing) == []
            else WithinReach(listing, limit) <==> WithinReach(listing[k..], limit)
  {
    if k == 0 {
      assert !VisibleWithin(listing, 0, limit);
      BlockedAtOnce(listing, limit);
    } else {
      PassableBehind(listing, limit, k);
      WithinReachBehind(listing, limit, k);
    }
  }

  /** Behind a first page of deleted messages, the visible ones are out of reach. */
  lemma BlockedAtOnce(listing: seq<Message>, limit: nat)
    requires |listing| > limit && !VisibleWithin(listing, 0, limit)
    ensures WithinReach(listing, limit) <==> Filter(IsVisible, listing) == []
  {
    FilterMembers(IsVisible, listing);
    if WithinReach(listing, limit) {
      forall i | 0 <= i < |listing| ensures !IsVisible(listing[i]) {}
      NoneVisible(listing);
    }
  }

  lemma FlattenFirst(pages: seq<seq<RelayerMessage>>)
    requires pages != []
    ensures Flatten(pages) == pages[0] + Flatten(pages[1..])
    ensures |pages| == 1 ==> Flatten(pages) == pages[0]
  {
  }

  /**
    Following the pages recovers the group up to where the walk ends, once and in order.  The walk
    finishes exactly when no `limit` consecutive messages are all deleted with more to come: such a page
    comes back empty and names no order to go on from.  It has got everything exactly when no visible
    message lies behind such a page.
   */
  lemma {:induction false} WalkRecovers(s: System, g: GroupId, groupMap: GroupIndex, after: Option<int>, limit: nat,
                                        pages: seq<seq<RelayerMessage>>, finished: bool, listing: seq<Message>)
    requires KeyedById(s.store.messages) && ArchiveInv(s.archive, s.store.messages) && Indexed(s, g, groupMap) && limit >= 1
    requires Walks(Recovering(s.archive, groupMap, limit), after, pages, finished)
    requires Lists(listing, GroupMessages(s, g, after, None))
    ensures finished <==> Passable(listing, limit)
    ensures AllReady(s.archive, g, Filter(IsVisible, listing)) && Flatten(pages) <= ViewsOf(s.archive, Filter(IsVisible, listing))
    ensures Flatten(pages) == ViewsOf(s.archive, Filter(IsVisible, listing)) <==> WithinReach(listing, limit)
    decreases |pages|
  {
    var hasNext := |pages| > 1 || !finished;
    var k := PageThenRest(s, g, groupMap, after, limit, pages[0], hasNext, listing);
    FlattenFirst(pages);
    if |pages| == 1 {
      assert ViewsOf(s.archive, []) == [];
      EntriesOfMembers(s.archive, Filter(IsVisible, listing));
    } else {
      WalkRecovers(s, g, groupMap, Some(OrderOf(listing[k - 1])), limit, pages[1..], finished, listing[k..]);
      SamePrefix(pages[0], Flatten(pages[1..]), ViewsOf(s.archive, Filter(IsVisible, listing[k..])));
    }
  }

  lemma SamePrefix(a: seq<RelayerMessage>, x: seq<RelayerMessage>, y: seq<RelayerMessage>)
    ensures x <= y ==> a + x <= a + y
    ensures a + x == a + y <==> x == y
  {
    if a + x == a + y {
      assert x == (a + x)[|a|..] && y == (a + y)[|a|..];
    }
  }

  lemma {:induction false} ViewsAppend(archive: seq<Quilt>, a: seq<Message>, b: seq<Message>)
    requires forall m | m in a + b :: HasPatch(archive, m)
    ensures ViewsOf(archive, a + b) == ViewsOf(archive, a) + ViewsOf(archive, b)
  {
    if a == [] {
      assert a + b == b;
    } else {
      assert (a + b)[0] == a[0] && (a + b)[1..] == a[1..] + b;
      ViewsAppend(archive, a[1..], b);
    }
  }

  /** Some answer always comes: each page can be asked for. */
  lemma RecoveryAnswers(agg: Aggregator, s: System, g: GroupId, groupMap: GroupIndex, after: Option<int>, limit: nat, listing: seq<Message>)
    returns (messages: seq<RelayerMessage>, hasNext: bool)
    requires KeyedById(s.store.messages) && Indexed(s, g, groupMap) && Lists(listing, GroupMessages(s, g, after, None))
    ensures Recovers(messages, hasNext, agg, groupMap, after, None, limit)
  {
    VisibleReady(s, g, groupMap, after, None, listing);
    var all := EntriesOf(s.archive, listing);
    EntriesListed(s, g, groupMap, after, None, listing);
    var page := SliceTo(all, limit);
    hasNext := groupMap != map[] && |all| > limit;
    messages := SortBy(RecoveredOrder, Collect(agg, Filter(IsActive, page)));
    SortBySorts(RecoveredOrder, Collect(agg, Filter(IsActive, page)));
    assert ServesPatches(page, hasNext, groupMap, after, None, limit) && IsRecovered(messages, agg, page);
  }

  /** Every group can be walked: the walk comes to an end, one way or the other. */
  lemma {:induction false} WalkEnds(s: System, g: GroupId, groupMap: GroupIndex, after: Option<int>, limit: nat, listing: seq<Message>)
    returns (pages: seq<seq<RelayerMessage>>, finished: bool)
    requires KeyedById(s.store.messages) && ArchiveInv(s.archive, s.store.messages) && Indexed(s, g, groupMap) && limit >= 1
    requires Lists(listing, GroupMessages(s, g, after, None))
    ensures pages != [] && Walks(Recovering(s.archive, groupMap, limit), after, pages, finished)
    decreases |listing|
  {
    var messages, hasNext := RecoveryAnswers(Aggregator(s.archive, {}, {}), s, g, groupMap, after, limit, listing);
    var k := PageThenRest(s, g, groupMap, after, limit, messages, hasNext, listing);
    if !hasNext || messages == [] {
      pages, finished := [messages], !hasNext;
    } else {
      var rest: seq<seq<RelayerMessage>>;
      rest, finished := WalkEnds(s, g, groupMap, Some(OrderOf(listing[k - 1])), limit, listing[k..]);
      pages := [messages] + rest;
      WalkExtends(Recovering(s.archive, groupMap, limit), after, messages, rest, finished);
    }
  }

  lemma WalkExtends(answers: Answering, after: Option<int>, messages: seq<RelayerMessage>, rest: seq<seq<RelayerMessage>>, finished: bool)
    requires answers(messages, true, after) && messages != []
    requires rest != [] && Walks(answers, Some(RecoveredOrder(messages[|messages| - 1])), rest, finished)
    ensures Walks(answers, after, [messages] + rest, finished)
  {
    assert ([messages] + rest)[1..] == rest;
  }

  /**
    Recovering a whole group page by page, from the archive of any run in which no write overlapped a
    pass on it.  The client is told that there is no more exactly when no full page of deleted messages
    has anything behind it; it has got every visible message, in order and as served, exactly when no
    full page of deleted messages has a visible one behind it.
   */
  lemma PagedRecoveryAgreesIff(states: seq<System>, acts: seq<Action>, n: nat, g: GroupId, blobs: seq<Blob>,
                               requested: Option<int>, pages: seq<seq<RelayerMessage>>, finished: bool, listing: seq<Message>)
    requires IsRun(states, acts) && n < |states| && SettledQuietly(states, acts, n, g)
    requires CheckpointsIncrease(states[n].archive) && Inspected(blobs, states[n].archive)
    requires ApiLimit(requested) >= 1
    requires Walks(Recovering(states[n].archive, GroupMap(EventsOf(blobs), g), ApiLimit(requested)), None, pages, finished)
    requires Lists(listing, GroupMessages(states[n], g, None, None))
    ensures finished <==> Passable(listing, ApiLimit(requested))
    ensures ServedAlike(Flatten(pages), Filter(IsVisible, listing)) <==> WithinReach(listing, ApiLimit(requested))
  {
    InspectedAll(blobs, states[n].archive);
    QuietlySettled(states, acts, n, g, EventsOf(blobs));
    WalkRecovers(states[n], g, GroupMap(EventsOf(blobs), g), None, ApiLimit(requested), pages, finished, listing);
    BeginningServedAlike(states[n].archive, g, Flatten(pages), Filter(IsVisible, listing));
  }

  lemma BeginningServedAlike(archive: seq<Quilt>, g: GroupId, views: seq<RelayerMessage>, ms: seq<Message>)
    requires AllReady(archive, g, ms) && views <= ViewsOf(archive, ms)
    ensures ServedAlike(views, ms) <==> views == ViewsOf(archive, ms)
  {
    EntriesOfMembers(archive, ms);
    ReadyServedAlike(archive, g, ms);
  }

  /** The indexer's store, fed the events one by one, holds that index. */
  method IndexAll(store: InMemoryDiscoveryStore, events: seq<DiscoveryEvent>)
    requires store.groups == map[]
    modifies store
    ensures store.groups == Feed(events) && IndexInv(store.groups)
  {
    for i := 0 to |events|
      invariant store.groups == Feed(events[..i])
    {
      assert events[..i + 1][..i] == events[..i];
      store.AddDiscovery(events[i]);
    }
    assert events[..|events|] == events;
    FeedIsAddAll(events);
    AddAllKeepsLatest(PatchesIn(events));
  }
}
