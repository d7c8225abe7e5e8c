/**
  The relayer as a step machine: clients and the Walrus sync worker take turns on one store.

  A create takes its order before it takes the message lock, so it is two steps.  A sync pass is a
  fetch, an upload and one mark per message, and any client step may fall between them.  The archive
  only grows; an upload may fail, may be kept although the worker sees a failure, and may answer for
  only some of the patches (relayer/src/services/walrus_sync.rs, relayer/src/storage/memory.rs).
 */
module Relayer {
  import opened Messages
  import opened Storage
  import opened Wrappers

  datatype Worker =
    | Idle
    | Fetched(to: SyncStatus, batch: seq<Message>)
    | Marking(to: SyncStatus, batch: seq<Message>, answers: map<string, PatchId>, next: nat)

  datatype System = System(
    store: Store,
    inFlight: map<nat, Message>,  // creates between reserving their order and inserting
    worker: Worker,
    archive: seq<Quilt>,
    batchSize: nat)

  datatype Action =
    | Reserve(token: nat, draft: Message)
    | Insert(token: nat)
    | Update(id: MessageId, content: Content, now: int)
    | Delete(id: MessageId, now: int)
    | Fetch(from: SyncStatus, batch: seq<Message>)
    | Upload(skipped: set<MessageId>, answers: map<string, PatchId>, checkpoint: nat)
    | UploadFails(skipped: set<MessageId>, kept: bool, checkpoint: nat)
    | Mark(now: int)

  function Init(batchSize: nat): System {
    System(EMPTY_STORE, map[], Idle, [], batchSize)
  }

  /** What `Message::new` builds. */
  predicate IsDraft(m: Message) {
    m == NewMessage(m.id, m.groupId, m.sender, m.content, m.createdAt)
  }

  /** The patches of a batch, without the messages that could not be serialised. */
  function PatchesOf(batch: seq<Message>, to: SyncStatus, skipped: set<MessageId>): seq<Patch> {
    if batch == [] then []
    else if batch[0].id in skipped then PatchesOf(batch[1..], to, skipped)
    else [PatchOf(batch[0], to)] + PatchesOf(batch[1..], to, skipped)
  }

  /** The response of an upload names patches of that very upload under their own identifiers. */
  ghost predicate Truthful(answers: map<string, PatchId>, quilt: nat, patches: seq<Patch>) {
    forall ident | ident in answers ::
      answers[ident].quilt == quilt && answers[ident].index < |patches| && patches[answers[ident].index].identifier == ident
  }

  ghost predicate Enabled(s: System, a: Action) {
    match a
    case Reserve(token, draft) => token !in s.inFlight && IsDraft(draft)
    case Insert(token) => token in s.inFlight
    case Update(_, _, _) => true
    case Delete(_, _) => true
    case Fetch(from, batch) => s.worker.Idle? && IsPending(from) && IsBatch(batch, s.store.messages, from, s.batchSize)
    case Upload(skipped, answers, _) =>
      s.worker.Fetched? && Truthful(answers, |s.archive|, PatchesOf(s.worker.batch, s.worker.to, skipped))
    case UploadFails(_, _, _) => s.worker.Fetched?
    case Mark(_) => s.worker.Marking?
  }

  function MarkOne(store: Store, m: Message, to: SyncStatus, answers: map<string, PatchId>, now: int): Store {
    if Identifier(m.id) in answers
    then SetSyncStatus(store, m.id, to, Some(answers[Identifier(m.id)]), now).store
    else store
  }

  function Apply(s: System, a: Action): System {
    match a
    case Reserve(token, draft) =>
      s.(store := ReserveOrder(s.store, draft.groupId),
         inFlight := s.inFlight[token := draft.(order := Some(FollowingOrder(s.store, draft.groupId)))])
    case Insert(token) =>
      if token in s.inFlight
      then s.(store := Storage.Insert(s.store, s.inFlight[token]).store, inFlight := s.inFlight - {token})
      else s
    case Update(id, content, now) => s.(store := Storage.Update(s.store, id, content, now).store)
    case Delete(id, now) => s.(store := Storage.Delete(s.store, id, now).store)
    case Fetch(from, batch) =>
      if batch == [] || !IsPending(from) then s else s.(worker := Fetched(Target(from), batch))
    case Upload(skipped, answers, checkpoint) =>
      if !s.worker.Fetched? then s
      else
        var patches := PatchesOf(s.worker.batch, s.worker.to, skipped);
        if patches == [] then s.(worker := Idle)
        else s.(archive := s.archive + [Quilt(patches, checkpoint)],
                worker := Marking(s.worker.to, s.worker.batch, answers, 0))
    case UploadFails(skipped, kept, checkpoint) =>
      if !s.worker.Fetched? then s
      else
        var patches := PatchesOf(s.worker.batch, s.worker.to, skipped);
        s.(archive := if kept && patches != [] then s.archive + [Quilt(patches, checkpoint)] else s.archive,
           worker := Idle)
    case Mark(now) =>
      if !s.worker.Marking? || s.worker.next >= |s.worker.batch| then s
      else
        var w := s.worker;
        s.(store := MarkOne(s.store, w.batch[w.next], w.to, w.answers, now),
           worker := if w.next + 1 == |w.batch| then Idle else w.(next := w.next + 1))
  }

  ghost predicate Step(s: System, a: Action, s': System) {
    Enabled(s, a) && s' == Apply(s, a)
  }

  /** `states[i]` is reached by `acts[..i]`, from an empty relayer. */
  ghost predicate IsRun(states: seq<System>, acts: seq<Action>) {
    && |states| == |acts| + 1
    && states[0] == Init(states[0].batchSize)
    && forall i | 0 <= i < |acts| :: Step(states[i], acts[i], states[i + 1])
  }

  // ---------------------------------------------------------------- two-step create

  ghost predicate BothReserve(s: System, t: nat, u: nat) {
    t in s.inFlight && u in s.inFlight && t != u && SameSlot(s.inFlight[t], s.inFlight[u])
  }

  ghost predicate ReservesStored(s: System, t: nat, id: MessageId) {
    t in s.inFlight && id in s.store.messages && SameSlot(s.inFlight[t], s.store.messages[id])
  }

  /** Orders reserved and not yet stored are numbered, and shared with nothing. */
  ghost predicate FlightInv(s: System) {
    && (forall t | t in s.inFlight :: Numbered(s.inFlight[t], s.store.groupOrders) && IsDraft(s.inFlight[t].(order := None)))
    && (forall t, u {:trigger BothReserve(s, t, u)} :: !BothReserve(s, t, u))
    && (forall t, id {:trigger ReservesStored(s, t, id)} :: !ReservesStored(s, t, id))
  }

  lemma ReserveKeepsFlight(s: System, token: nat, draft: Message)
    requires WellFormed(s.store) && FlightInv(s) && Enabled(s, Reserve(token, draft))
    ensures WellFormed(Apply(s, Reserve(token, draft)).store) && FlightInv(Apply(s, Reserve(token, draft)))
  {
    var s' := Apply(s, Reserve(token, draft));
    ReserveKeepsWellFormed(s.store, draft.groupId);
    forall t | t in s'.inFlight
      ensures Numbered(s'.inFlight[t], s'.store.groupOrders) && IsDraft(s'.inFlight[t].(order := None))
    {
      if t != token { assert Numbered(s.inFlight[t], s.store.groupOrders); }
    }
    forall t, u ensures !BothReserve(s', t, u) {
      assert !BothReserve(s, t, u);
      assert t in s.inFlight ==> Numbered(s.inFlight[t], s.store.groupOrders);
      assert u in s.inFlight ==> Numbered(s.inFlight[u], s.store.groupOrders);
    }
    forall t, id ensures !ReservesStored(s', t, id) {
      assert !ReservesStored(s, t, id);
      assert id in s.store.messages ==> Numbered(s.store.messages[id], s.store.groupOrders);
    }
  }

  lemma InsertKeepsFlight(s: System, token: nat)
    requires WellFormed(s.store) && FlightInv(s) && Enabled(s, Insert(token))
    ensures WellFormed(Apply(s, Insert(token)).store) && FlightInv(Apply(s, Insert(token)))
    ensures Retains(s.store.messages, Apply(s, Insert(token)).store.messages)
  {
    var m := s.inFlight[token];
    var s' := Apply(s, Insert(token));
    NonceFreeIff(s.store, m);
    if Storage.Insert(s.store, m).result.Success? {
      forall id | id in s.store.messages ensures !SameSlot(s.store.messages[id], m) {
        assert !ReservesStored(s, token, id);
      }
      PutNewKeepsWellFormed(s.store, m);
      assert s'.store == Put(s.store, m);
    }
    forall t, u ensures !BothReserve(s', t, u) {
      assert !BothReserve(s, t, u);
    }
    forall t, id ensures !ReservesStored(s', t, id) {
      assert !ReservesStored(s, t, id) && !BothReserve(s, t, token);
    }
  }

  /** A write that keeps identities leaves the reservations alone. */
  lemma WriteKeepsFlight(s: System, s': System)
    requires FlightInv(s) && s'.inFlight == s.inFlight && s'.store.groupOrders == s.store.groupOrders
    requires s'.store.messages.Keys == s.store.messages.Keys && Retains(s.store.messages, s'.store.messages)
    ensures FlightInv(s')
  {
    forall t, u ensures !BothReserve(s', t, u) {
      assert !BothReserve(s, t, u);
    }
    forall t, id ensures !ReservesStored(s', t, id) {
      assert !ReservesStored(s, t, id);
      assert id in s.store.messages ==> Succeeds(s.store.messages[id], s'.store.messages[id]);
    }
  }

  // ---------------------------------------------------------------- the archive and its links

  /** A patch carries a message the store still has, under the right name and tags. */
  ghost predicate PatchOk(p: Patch, ms: map<MessageId, Message>) {
    && p.body.id in ms && IdentityOf(p.body) == IdentityOf(ms[p.body.id])
    && p.identifier == Identifier(p.body.id) && p.tags == TagsOf(p.body)
    && !IsPending(p.body.syncStatus)
  }

  ghost predicate SameName(archive: seq<Quilt>, p: PatchId, q: PatchId) {
    && ValidPatch(archive, p) && ValidPatch(archive, q) && p.quilt == q.quilt && p != q
    && PatchAt(archive, p).identifier == PatchAt(archive, q).identifier
  }

  ghost predicate ArchiveInv(archive: seq<Quilt>, ms: map<MessageId, Message>) {
    && (forall p {:trigger PatchAt(archive, p)} | ValidPatch(archive, p) :: PatchOk(PatchAt(archive, p), ms))
    && (forall p, q {:trigger SameName(archive, p, q)} :: !SameName(archive, p, q))
  }

  /** No upload after `p` carries the message. */
  ghost predicate IsLastUpload(archive: seq<Quilt>, p: PatchId, id: MessageId) {
    && ValidPatch(archive, p) && PatchAt(archive, p).body.id == id
    && forall q {:trigger PatchAt(archive, q)} | ValidPatch(archive, q) && q.quilt > p.quilt :: PatchAt(archive, q).body.id != id
  }

  ghost predicate LinkOk(m: Message, archive: seq<Quilt>) {
    && (m.quiltPatchId.Some? ==>
          ValidPatch(archive, m.quiltPatchId.value) && PatchAt(archive, m.quiltPatchId.value).body.id == m.id)
    && (!IsPending(m.syncStatus) ==>
          && m.quiltPatchId.Some? && IsLastUpload(archive, m.quiltPatchId.value, m.id)
          && PatchAt(archive, m.quiltPatchId.value).body.syncStatus == m.syncStatus)
  }

  ghost predicate LinkInv(ms: map<MessageId, Message>, archive: seq<Quilt>) {
    forall id | id in ms :: LinkOk(ms[id], archive)
  }

  /** The batch holds versions of stored messages; those not yet marked are still pending. */
  ghost predicate BatchInv(batch: seq<Message>, to: SyncStatus, ms: map<MessageId, Message>, next: nat) {
    && DistinctIds(batch) && next < |batch|
    && (forall m | m in batch ::
          m.id in ms && IdentityOf(m) == IdentityOf(ms[m.id]) && IsPending(m.syncStatus) && Target(m.syncStatus) == to)
    && (forall i | next <= i < |batch| :: IsPending(ms[batch[i].id].syncStatus))
  }

  ghost predicate AnswersInv(w: Worker, archive: seq<Quilt>)
    requires w.Marking?
  {
    && (forall ident | ident in w.answers ::
          && ValidPatch(archive, w.answers[ident]) && w.answers[ident].quilt == |archive| - 1
          && PatchAt(archive, w.answers[ident]).identifier == ident)
    && (forall p {:trigger PatchAt(archive, p)} | ValidPatch(archive, p) && p.quilt == |archive| - 1 ::
          exists m :: m in w.batch && PatchAt(archive, p) == PatchOf(m, w.to))
  }

  ghost predicate WorkerInv(w: Worker, ms: map<MessageId, Message>, archive: seq<Quilt>) {
    match w
    case Idle => true
    case Fetched(to, batch) => BatchInv(batch, to, ms, 0)
    case Marking(to, batch, answers, next) => BatchInv(batch, to, ms, next) && AnswersInv(w, archive)
  }

  ghost predicate SystemInv(s: System) {
    && WellFormed(s.store) && FlightInv(s)
    && ArchiveInv(s.archive, s.store.messages)
    && LinkInv(s.store.messages, s.archive)
    && WorkerInv(s.worker, s.store.messages, s.archive)
  }

  /** The messages a sync pass has fetched and not yet marked. */
  ghost function Outstanding(w: Worker): set<MessageId> {
    match w
    case Idle => {}
    case Fetched(_, batch) => set m | m in batch :: m.id
    case Marking(_, batch, _, next) => if next <= |batch| then set m | m in batch[next..] :: m.id else {}
  }

  // ---------------------------------------------------------------- every step keeps the invariant

  /** Every message is as before, or pending with the patch id it had. */
  ghost predicate OnlyMakesPending(ms: map<MessageId, Message>, ms': map<MessageId, Message>) {
    forall id | id in ms' ::
      if id in ms then ms'[id] == ms[id] || (IsPending(ms'[id].syncStatus) && ms'[id].quiltPatchId == ms[id].quiltPatchId)
      else IsPending(ms'[id].syncStatus) && ms'[id].quiltPatchId == None
  }

  /** Writes that keep identities, and make messages pending only, keep every archive clause. */
  lemma PendingWriteKeepsArchive(s: System, s': System)
    requires SystemInv(s) && WellFormed(s'.store)
    requires s'.archive == s.archive && s'.worker == s.worker
    requires Retains(s.store.messages, s'.store.messages)
    requires OnlyMakesPending(s.store.messages, s'.store.messages)
    ensures ArchiveInv(s'.archive, s'.store.messages) && LinkInv(s'.store.messages, s'.archive)
    ensures WorkerInv(s'.worker, s'.store.messages, s'.archive)
  {
    var ms, ms' := s.store.messages, s'.store.messages;
    forall p | ValidPatch(s.archive, p) ensures PatchOk(PatchAt(s.archive, p), ms') {
      var id := PatchAt(s.archive, p).body.id;
      assert id in ms && Succeeds(ms[id], ms'[id]);
    }
    forall id | id in ms' ensures LinkOk(ms'[id], s.archive) {
      if id in ms { assert LinkOk(ms[id], s.archive) && Succeeds(ms[id], ms'[id]); }
    }
    if !s.worker.Idle? {
      forall m | m in s.worker.batch ensures m.id in ms' && IdentityOf(m) == IdentityOf(ms'[m.id]) {
        assert Succeeds(ms[m.id], ms'[m.id]);
      }
    }
  }

  lemma CreateStepsKeepInv(s: System, a: Action)
    requires SystemInv(s) && Enabled(s, a) && (a.Reserve? || a.Insert?)
    ensures SystemInv(Apply(s, a)) && Retains(s.store.messages, Apply(s, a).store.messages)
  {
    if a.Reserve? {
      ReserveKeepsFlight(s, a.token, a.draft);
    } else {
      assert IsDraft(s.inFlight[a.token].(order := None));
      InsertKeepsFlight(s, a.token);
    }
    PendingWriteKeepsArchive(s, Apply(s, a));
  }

  /** The store stays well formed, its messages keep their identities, and nothing is made other than pending. */
  ghost predicate IsPendingWrite(store: Store, store': Store) {
    && WellFormed(store') && Retains(store.messages, store'.messages) && OnlyMakesPending(store.messages, store'.messages)
    && store'.groupOrders == store.groupOrders && store'.messages.Keys == store.messages.Keys
  }

  lemma EditIsPendingWrite(store: Store, id: MessageId, content: Content, now: int)
    requires WellFormed(store)
    ensures IsPendingWrite(store, Storage.Update(store, id, content, now).store)
  {
    UpdateKeepsWellFormed(store, id, content, now);
  }

  lemma DeletionIsPendingWrite(store: Store, id: MessageId, now: int)
    requires WellFormed(store)
    ensures IsPendingWrite(store, Storage.Delete(store, id, now).store)
  {
    StatusWritesKeepWellFormed(store, id, Deleted, None, now);
  }

  lemma ClientWriteKeepsInv(s: System, a: Action)
    requires SystemInv(s) && (a.Update? || a.Delete?)
    ensures SystemInv(Apply(s, a)) && Retains(s.store.messages, Apply(s, a).store.messages)
  {
    if a.Update? {
      EditIsPendingWrite(s.store, a.id, a.content, a.now);
    } else {
      DeletionIsPendingWrite(s.store, a.id, a.now);
    }
    PendingWriteKeepsArchive(s, Apply(s, a));
    WriteKeepsFlight(s, Apply(s, a));
  }

  lemma {:induction false} PatchesComeFromBatch(batch: seq<Message>, to: SyncStatus, skipped: set<MessageId>)
    ensures forall p | p in PatchesOf(batch, to, skipped) :: exists m :: m in batch && p == PatchOf(m, to)
  {
    if batch == [] {
    } else {
      PatchesComeFromBatch(batch[1..], to, skipped);
      forall p | p in PatchesOf(batch, to, skipped) ensures exists m :: m in batch && p == PatchOf(m, to) {
        if p in PatchesOf(batch[1..], to, skipped) {
          var m :| m in batch[1..] && p == PatchOf(m, to);
          assert m in batch;
        } else {
          assert batch[0] in batch && p == PatchOf(batch[0], to);
        }
      }
    }
  }

  ghost predicate NamesDistinct(ps: seq<Patch>) {
    forall i, j | 0 <= i < j < |ps| :: ps[i].identifier != ps[j].identifier
  }

  lemma {:induction false} PatchNamesDistinct(batch: seq<Message>, to: SyncStatus, skipped: set<MessageId>)
    requires DistinctIds(batch)
    ensures NamesDistinct(PatchesOf(batch, to, skipped))
  {
    if batch == [] {
    } else {
      PatchNamesDistinct(batch[1..], to, skipped);
      PatchesComeFromBatch(batch[1..], to, skipped);
      var rest := PatchesOf(batch[1..], to, skipped);
      forall p | p in rest ensures p.identifier != Identifier(batch[0].id) {
        var m :| m in batch[1..] && p == PatchOf(m, to);
        IdentifierInjective(m.id, batch[0].id);
      }
      var ps := PatchesOf(batch, to, skipped);
      forall i, j | 0 <= i < j < |ps| ensures ps[i].identifier != ps[j].identifier {
        if batch[0].id !in skipped {
          assert ps[j] == rest[j - 1] && ps[j] in rest;
          if i > 0 { assert ps[i] == rest[i - 1]; }
        }
      }
    }
  }

  /** An upload of a pending batch extends the archive without disturbing it. */
  lemma UploadKeepsArchive(s: System, skipped: set<MessageId>, checkpoint: nat)
    requires SystemInv(s) && s.worker.Fetched?
    ensures var archive' := s.archive + [Quilt(PatchesOf(s.worker.batch, s.worker.to, skipped), checkpoint)];
      ArchiveInv(archive', s.store.messages) && LinkInv(s.store.messages, archive')
  {
    var ms, batch, to := s.store.messages, s.worker.batch, s.worker.to;
    var patches := PatchesOf(batch, to, skipped);
    var archive' := s.archive + [Quilt(patches, checkpoint)];
    PatchesComeFromBatch(batch, to, skipped);
    PatchNamesDistinct(batch, to, skipped);
    forall p | ValidPatch(archive', p)
      ensures PatchOk(PatchAt(archive', p), ms)
      ensures p.quilt == |s.archive| ==> IsPending(ms[PatchAt(archive', p).body.id].syncStatus)
    {
      if p.quilt < |s.archive| {
        assert PatchAt(archive', p) == PatchAt(s.archive, p);
      } else {
        assert PatchAt(archive', p) == patches[p.index] && patches[p.index] in patches;
        var m :| m in batch && patches[p.index] == PatchOf(m, to);
      }
    }
    forall p, q ensures !SameName(archive', p, q) {
      assert !SameName(s.archive, p, q);
      if ValidPatch(archive', p) && ValidPatch(archive', q) && p.quilt == q.quilt == |s.archive| && p != q {
        assert p.index < q.index || q.index < p.index;
        assert archive'[p.quilt].patches == patches;
      }
    }
    forall id | id in ms ensures LinkOk(ms[id], archive') {
      assert LinkOk(ms[id], s.archive);
      if !IsPending(ms[id].syncStatus) {
        forall q | ValidPatch(archive', q) && q.quilt > ms[id].quiltPatchId.value.quilt
          ensures PatchAt(archive', q).body.id != id
        {
          if q.quilt < |s.archive| { assert PatchAt(archive', q) == PatchAt(s.archive, q); }
        }
      }
    }
  }

  lemma UploadStepsKeepInv(s: System, a: Action)
    requires SystemInv(s) && Enabled(s, a) && (a.Upload? || a.UploadFails?)
    ensures SystemInv(Apply(s, a))
  {
    UploadKeepsArchive(s, a.skipped, a.checkpoint);
    var s' := Apply(s, a);
    assert FlightInv(s') by { WriteKeepsFlight(s, s'); }
    if s'.worker.Marking? {
      var patches := PatchesOf(s.worker.batch, s.worker.to, a.skipped);
      PatchesComeFromBatch(s.worker.batch, s.worker.to, a.skipped);
      forall p | ValidPatch(s'.archive, p) && p.quilt == |s'.archive| - 1
        ensures exists m :: m in s'.worker.batch && PatchAt(s'.archive, p) == PatchOf(m, s'.worker.to)
      {
        assert PatchAt(s'.archive, p) in patches;
      }
    }
  }

  lemma FetchKeepsInv(s: System, a: Action)
    requires SystemInv(s) && Enabled(s, a) && a.Fetch?
    ensures SystemInv(Apply(s, a))
  {
    WriteKeepsFlight(s, Apply(s, a));
    forall i | 0 <= i < |a.batch| ensures IsPending(s.store.messages[a.batch[i].id].syncStatus) {
      assert a.batch[i] in a.batch;
    }
  }

  /** The answer for a batch message names the patch made from that very version. */
  lemma AnswerNamesBatchVersion(w: Worker, ms: map<MessageId, Message>, archive: seq<Quilt>)
    requires w.Marking? && WorkerInv(w, ms, archive) && Identifier(w.batch[w.next].id) in w.answers
    ensures var pid := w.answers[Identifier(w.batch[w.next].id)];
      && ValidPatch(archive, pid) && PatchAt(archive, pid) == PatchOf(w.batch[w.next], w.to)
      && pid.quilt == |archive| - 1
  {
    var m := w.batch[w.next];
    var pid := w.answers[Identifier(m.id)];
    var m' :| m' in w.batch && PatchAt(archive, pid) == PatchOf(m', w.to);
    IdentifierInjective(m.id, m'.id);
    var i :| 0 <= i < |w.batch| && w.batch[i] == m';
    assert i == w.next;
  }

  /** A link to a message's own patch, with its status, in the latest upload is sound. */
  lemma MarkOneLinks(store: Store, archive: seq<Quilt>, id: MessageId, to: SyncStatus, pid: PatchId, now: int)
    requires KeyedById(store.messages) && LinkInv(store.messages, archive) && id in store.messages
    requires ValidPatch(archive, pid) && pid.quilt == |archive| - 1
    requires PatchAt(archive, pid).body.id == id && PatchAt(archive, pid).body.syncStatus == to
    ensures LinkInv(SetSyncStatus(store, id, to, Some(pid), now).store.messages, archive)
  {
  }

  /** Marking one message keeps the store's clauses and every other message. */
  lemma MarkOneKeepsStore(store: Store, m: Message, to: SyncStatus, answers: map<string, PatchId>, now: int)
    requires WellFormed(store)
    ensures var store' := MarkOne(store, m, to, answers, now);
      && WellFormed(store') && store'.groupOrders == store.groupOrders
      && store'.messages.Keys == store.messages.Keys && Retains(store.messages, store'.messages)
      && forall id | id in store.messages && id != m.id :: store'.messages[id] == store.messages[id]
  {
    if Identifier(m.id) in answers {
      StatusWritesKeepWellFormed(store, m.id, to, Some(answers[Identifier(m.id)]), now);
    }
  }

  /** Marking one message of a batch keeps the links into the archive. */
  lemma MarkOneKeepsLinks(s: System, now: int)
    requires KeyedById(s.store.messages) && LinkInv(s.store.messages, s.archive)
    requires s.worker.Marking? && WorkerInv(s.worker, s.store.messages, s.archive)
    ensures var w := s.worker;
      LinkInv(MarkOne(s.store, w.batch[w.next], w.to, w.answers, now).messages, s.archive)
  {
    var w := s.worker;
    var m := w.batch[w.next];
    assert m in w.batch;
    if Identifier(m.id) in w.answers {
      AnswerNamesBatchVersion(w, s.store.messages, s.archive);
      MarkOneLinks(s.store, s.archive, m.id, w.to, w.answers[Identifier(m.id)], now);
    }
  }

  /** What the archive and the rest of the batch rely on survives a change of one batch message. */
  lemma MarkKeepsRest(s: System, ms': map<MessageId, Message>)
    requires ArchiveInv(s.archive, s.store.messages) && s.worker.Marking? && WorkerInv(s.worker, s.store.messages, s.archive)
    requires ms'.Keys == s.store.messages.Keys && Retains(s.store.messages, ms')
    requires forall id | id in ms' && id != s.worker.batch[s.worker.next].id :: ms'[id] == s.store.messages[id]
    ensures ArchiveInv(s.archive, ms')
    ensures s.worker.next + 1 < |s.worker.batch| ==>
      WorkerInv(s.worker.(next := s.worker.next + 1), ms', s.archive)
  {
    var w, ms := s.worker, s.store.messages;
    forall p | ValidPatch(s.archive, p) ensures PatchOk(PatchAt(s.archive, p), ms') {
      var id := PatchAt(s.archive, p).body.id;
      assert PatchOk(PatchAt(s.archive, p), ms) && Succeeds(ms[id], ms'[id]);
    }
    forall b | b in w.batch ensures b.id in ms' && IdentityOf(b) == IdentityOf(ms'[b.id]) {
      assert Succeeds(ms[b.id], ms'[b.id]);
    }
    forall i | w.next < i < |w.batch| ensures IsPending(ms'[w.batch[i].id].syncStatus) {
      assert w.batch[i].id != w.batch[w.next].id;
    }
  }

  lemma MarkKeepsInv(s: System, now: int)
    requires SystemInv(s) && Enabled(s, Mark(now))
    ensures SystemInv(Apply(s, Mark(now))) && Retains(s.store.messages, Apply(s, Mark(now)).store.messages)
  {
    var w, s' := s.worker, Apply(s, Mark(now));
    MarkOneKeepsStore(s.store, w.batch[w.next], w.to, w.answers, now);
    MarkOneKeepsLinks(s, now);
    WriteKeepsFlight(s, s');
    MarkKeepsRest(s, s'.store.messages);
  }

  lemma StepKeepsInv(s: System, a: Action, s': System)
    requires SystemInv(s) && Step(s, a, s')
    ensures SystemInv(s') && Retains(s.store.messages, s'.store.messages)
  {
    match a
    case Reserve(_, _) => CreateStepsKeepInv(s, a);
    case Insert(_) => CreateStepsKeepInv(s, a);
    case Update(_, _, _) => ClientWriteKeepsInv(s, a);
    case Delete(_, _) => ClientWriteKeepsInv(s, a);
    case Fetch(_, _) => FetchKeepsInv(s, a);
    case Upload(_, _, _) => UploadStepsKeepInv(s, a);
    case UploadFails(_, _, _) => UploadStepsKeepInv(s, a);
    case Mark(now) => MarkKeepsInv(s, now);
  }

  lemma {:induction false} RunKeepsInv(states: seq<System>, acts: seq<Action>, n: nat)
    requires IsRun(states, acts) && n < |states|
    ensures SystemInv(states[n])
  {
    if n == 0 {
    } else {
      RunKeepsInv(states, acts, n - 1);
      assert Step(states[n - 1], acts[n - 1], states[n]);
      StepKeepsInv(states[n - 1], acts[n - 1], states[n]);
    }
  }
}
