/**
  What the archive may be relied on for, over every run of the relayer, and when it is current.
 */
module Archival {
  import opened Encoding
  import opened Messages
  import opened Relayer
  import opened Storage
  import opened Wrappers

  // ---------------------------------------------------------------- identities and orders

  /** No message is ever lost, renamed, reordered or detached from the archive. */
  lemma {:induction false} IdentitiesAreForever(states: seq<System>, acts: seq<Action>, i: nat, j: nat)
    requires IsRun(states, acts) && i <= j < |states|
    ensures Retains(states[i].store.messages, states[j].store.messages)
  {
    if i == j {
    } else {
      IdentitiesAreForever(states, acts, i, j - 1);
      RunKeepsInv(states, acts, j - 1);
      assert Step(states[j - 1], acts[j - 1], states[j]);
      StepKeepsInv(states[j - 1], acts[j - 1], states[j]);
      var before, mid, after := states[i].store.messages, states[j - 1].store.messages, states[j].store.messages;
      forall id | id in before ensures id in after && Succeeds(before[id], after[id]) {
        assert Succeeds(before[id], mid[id]) && Succeeds(mid[id], after[id]);
      }
    }
  }

  /** All orders of a group, stored or reserved, are distinct and lie between 1 and the group's counter. */
  lemma OrdersNeverCollide(states: seq<System>, acts: seq<Action>, n: nat)
    requires IsRun(states, acts) && n < |states|
    ensures var s := states[n];
      && (forall id | id in s.store.messages :: Numbered(s.store.messages[id], s.store.groupOrders))
      && (forall t | t in s.inFlight :: Numbered(s.inFlight[t], s.store.groupOrders))
      && (forall a, b | a in s.store.messages && b in s.store.messages && a != b ::
            !SameSlot(s.store.messages[a], s.store.messages[b]))
      && (forall t, u | t in s.inFlight && u in s.inFlight && t != u :: !SameSlot(s.inFlight[t], s.inFlight[u]))
      && (forall t, id | t in s.inFlight && id in s.store.messages :: !SameSlot(s.inFlight[t], s.store.messages[id]))
  {
    RunKeepsInv(states, acts, n);
    var s := states[n];
    forall a, b | a in s.store.messages && b in s.store.messages && a != b
      ensures !SameSlot(s.store.messages[a], s.store.messages[b])
    {
      assert !SharedOrder(s.store.messages, a, b);
    }
    forall t, u | t in s.inFlight && u in s.inFlight && t != u ensures !SameSlot(s.inFlight[t], s.inFlight[u]) {
      assert !BothReserve(s, t, u);
    }
    forall t, id | t in s.inFlight && id in s.store.messages ensures !SameSlot(s.inFlight[t], s.store.messages[id]) {
      assert !ReservesStored(s, t, id);
    }
  }

  /** How many creates for the group have reserved an order so far. */
  function Reservations(acts: seq<Action>, n: nat, g: GroupId): nat
    requires n <= |acts|
  {
    if n == 0 then 0
    else Reservations(acts, n - 1, g) + if acts[n - 1].Reserve? && acts[n - 1].draft.groupId == g then 1 else 0
  }

  /** The k-th create of a group gets order k, whatever became of the others: rejected ones leave gaps. */
  lemma {:induction false} OrdersCountReservations(states: seq<System>, acts: seq<Action>, n: nat, g: GroupId)
    requires IsRun(states, acts) && n < |states|
    ensures FollowingOrder(states[n].store, g) == Reservations(acts, n, g) + 1
  {
    if n == 0 {
    } else {
      OrdersCountReservations(states, acts, n - 1, g);
      assert Step(states[n - 1], acts[n - 1], states[n]);
    }
  }

  /** In every reachable store the nonce set is exact, and no two messages share a nonce. */
  lemma NoncesNeverCollide(states: seq<System>, acts: seq<Action>, n: nat)
    requires IsRun(states, acts) && n < |states|
    ensures states[n].store.nonces == StoredNonces(states[n].store.messages)
    ensures |states[n].store.nonces| == |states[n].store.messages|
  {
    RunKeepsInv(states, acts, n);
    NonceCount(states[n].store.messages);
  }

  lemma NonceCount(ms: map<MessageId, Message>)
    requires forall a, b {:trigger SharedNonce(ms, a, b)} :: !SharedNonce(ms, a, b)
    ensures |StoredNonces(ms)| == |ms|
    decreases |ms|
  {
    if ms.Keys != {} {
      var id :| id in ms.Keys;
      var rest := ms - {id};
      assert ms.Keys == rest.Keys + {id};
      forall a, b ensures !SharedNonce(rest, a, b) {
        assert !SharedNonce(ms, a, b);
      }
      NonceCount(rest);
      forall n ensures n in StoredNonces(ms) <==> n in StoredNonces(rest) + {ms[id].content.nonce} {
        if n in StoredNonces(ms) {
          var k :| k in ms && ms[k].content.nonce == n;
          assert k == id || k in rest;
        }
      }
      assert StoredNonces(ms) == StoredNonces(rest) + {ms[id].content.nonce};
      forall k | k in rest ensures rest[k].content.nonce != ms[id].content.nonce {
        assert !SharedNonce(ms, id, k);
      }
    }
  }

  // ---------------------------------------------------------------- archived content

  /** Some state up to `n` stored exactly `v`. */
  ghost predicate WasStored(states: seq<System>, n: nat, v: Message) {
    exists j | 0 <= j <= n && j < |states| :: v.id in states[j].store.messages && states[j].store.messages[v.id] == v
  }

  /** The patch was made from a pending version the store really held. */
  ghost predicate MadeFromVersion(states: seq<System>, n: nat, p: Patch) {
    exists v :: WasStored(states, n, v) && IsPending(v.syncStatus) && p == PatchOf(v, Target(v.syncStatus))
  }

  ghost predicate VersionsInv(states: seq<System>, n: nat)
    requires n < |states|
  {
    var s := states[n];
    && (!s.worker.Idle? ==> forall m | m in s.worker.batch :: WasStored(states, n, m))
    && (forall p {:trigger PatchAt(s.archive, p)} | ValidPatch(s.archive, p) :: MadeFromVersion(states, n, PatchAt(s.archive, p)))
  }

  lemma StaysMade(states: seq<System>, n: nat, p: Patch)
    requires n + 1 < |states| && MadeFromVersion(states, n, p)
    ensures MadeFromVersion(states, n + 1, p)
  {
  }

  lemma WasStoredStays(states: seq<System>, n: nat, v: Message)
    requires n + 1 < |states| && WasStored(states, n, v)
    ensures WasStored(states, n + 1, v)
  {
  }

  lemma BatchWasStored(states: seq<System>, acts: seq<Action>, n: nat)
    requires IsRun(states, acts) && 0 < n < |states| && VersionsInv(states, n - 1) && !states[n].worker.Idle?
    requires Step(states[n - 1], acts[n - 1], states[n])
    ensures forall m | m in states[n].worker.batch :: WasStored(states, n, m)
  {
    forall m | m in states[n].worker.batch ensures WasStored(states, n, m) {
      if acts[n - 1].Fetch? {
        assert states[n - 1].store.messages[m.id] == m;
      } else {
        WasStoredStays(states, n - 1, m);
      }
    }
  }

  /** A patch of a batch whose messages were all stored was made from a version. */
  lemma BatchPatchWasMade(states: seq<System>, n: nat, batch: seq<Message>, to: SyncStatus, skipped: set<MessageId>, patch: Patch)
    requires forall m | m in batch :: WasStored(states, n, m) && IsPending(m.syncStatus) && Target(m.syncStatus) == to
    requires patch in PatchesOf(batch, to, skipped)
    ensures MadeFromVersion(states, n, patch)
  {
    PatchesComeFromBatch(batch, to, skipped);
    var m :| m in batch && patch == PatchOf(m, to);
  }

  /** A step leaves old patches alone; a new one is of the batch just uploaded. */
  lemma PatchAfterStep(s: System, a: Action, p: PatchId)
    requires Enabled(s, a) && ValidPatch(Apply(s, a).archive, p)
    ensures if ValidPatch(s.archive, p) then PatchAt(Apply(s, a).archive, p) == PatchAt(s.archive, p)
            else s.worker.Fetched? && (a.Upload? || a.UploadFails?)
                 && PatchAt(Apply(s, a).archive, p) in PatchesOf(s.worker.batch, s.worker.to, a.skipped)
  {
  }

  lemma PatchWasMade(states: seq<System>, acts: seq<Action>, n: nat, p: PatchId)
    requires |states| == |acts| + 1 && n < |acts| && VersionsInv(states, n)
    requires WorkerInv(states[n].worker, states[n].store.messages, states[n].archive)
    requires Step(states[n], acts[n], states[n + 1]) && ValidPatch(states[n + 1].archive, p)
    ensures MadeFromVersion(states, n + 1, PatchAt(states[n + 1].archive, p))
  {
    var s, a := states[n], acts[n];
    PatchAfterStep(s, a, p);
    if !ValidPatch(s.archive, p) {
      BatchPatchWasMade(states, n, s.worker.batch, s.worker.to, a.skipped, PatchAt(states[n + 1].archive, p));
    }
    StaysMade(states, n, PatchAt(states[n + 1].archive, p));
  }

  lemma {:induction false} ArchiveHoldsRealVersions(states: seq<System>, acts: seq<Action>, n: nat)
    requires IsRun(states, acts) && n < |states|
    ensures VersionsInv(states, n)
  {
    if n == 0 {
    } else {
      ArchiveHoldsRealVersions(states, acts, n - 1);
      RunKeepsInv(states, acts, n - 1);
      assert Step(states[n - 1], acts[n - 1], states[n]);
      if !states[n].worker.Idle? { BatchWasStored(states, acts, n); }
      forall p | ValidPatch(states[n].archive, p) ensures MadeFromVersion(states, n, PatchAt(states[n].archive, p)) {
        PatchWasMade(states, acts, n - 1, p);
      }
    }
  }

  /**
    Whatever clients do between fetch, upload and mark: a patch id names an archived version the
    message really had, under the message's identity; and a finished status has a patch id, the
    patch carries that very status, and no later upload mentions the message.
   */
  lemma PatchIdsAreSound(states: seq<System>, acts: seq<Action>, n: nat, id: MessageId)
    requires IsRun(states, acts) && n < |states| && id in states[n].store.messages
    ensures var s, m := states[n], states[n].store.messages[id];
      && (m.quiltPatchId.Some? ==>
            && ValidPatch(s.archive, m.quiltPatchId.value)
            && var p := PatchAt(s.archive, m.quiltPatchId.value);
               && IdentityOf(p.body) == IdentityOf(m) && p.identifier == Identifier(id)
               && MadeFromVersion(states, n, p))
      && (!IsPending(m.syncStatus) ==>
            && m.quiltPatchId.Some?
            && PatchAt(s.archive, m.quiltPatchId.value).body.syncStatus == m.syncStatus
            && IsLastUpload(s.archive, m.quiltPatchId.value, id))
  {
    RunKeepsInv(states, acts, n);
    ArchiveHoldsRealVersions(states, acts, n);
    var s, m := states[n], states[n].store.messages[id];
    assert LinkOk(m, s.archive);
    if m.quiltPatchId.Some? {
      assert PatchOk(PatchAt(s.archive, m.quiltPatchId.value), s.store.messages);
    }
  }

  // ---------------------------------------------------------------- when the archive is current

  predicate WritesTo(a: Action, id: MessageId) {
    (a.Update? || a.Delete?) && a.id == id
  }

  /** No client write hits the message between the fetch that batched it and its mark. */
  ghost predicate Quiet(states: seq<System>, acts: seq<Action>, n: nat, id: MessageId)
    requires IsRun(states, acts) && n < |states|
  {
    forall i | 0 <= i < n :: WritesTo(acts[i], id) ==> id !in Outstanding(states[i].worker)
  }

  /** The patch the message names holds its identity, its content and its status. */
  ghost predicate ArchivedAsStored(m: Message, archive: seq<Quilt>) {
    && m.quiltPatchId.Some? && ValidPatch(archive, m.quiltPatchId.value)
    && var body := PatchAt(archive, m.quiltPatchId.value).body;
       IdentityOf(body) == IdentityOf(m) && body.content == m.content && body.syncStatus == m.syncStatus
  }

  ghost predicate CurrentInv(s: System, id: MessageId) {
    && (id in s.store.messages && !IsPending(s.store.messages[id].syncStatus) ==>
          ArchivedAsStored(s.store.messages[id], s.archive))
    && (s.worker.Fetched? ==> forall m | m in s.worker.batch && m.id == id :: id in s.store.messages && s.store.messages[id] == m)
    && (s.worker.Marking? ==> forall i | s.worker.next <= i < |s.worker.batch| && s.worker.batch[i].id == id ::
          id in s.store.messages && s.store.messages[id] == s.worker.batch[i])
  }

  lemma OutstandingIndex(w: Worker, i: nat)
    requires w.Marking? && w.next <= i < |w.batch|
    ensures w.batch[i].id in Outstanding(w)
  {
  }

  /** A client write elsewhere, or while the message is not outstanding, leaves it current. */
  lemma QuietWrite(s: System, a: Action, id: MessageId)
    requires KeyedById(s.store.messages) && CurrentInv(s, id) && (a.Update? || a.Delete?)
    requires WritesTo(a, id) ==> id !in Outstanding(s.worker)
    ensures CurrentInv(Apply(s, a), id)
  {
    if s.worker.Marking? {
      forall i | s.worker.next <= i < |s.worker.batch| ensures s.worker.batch[i].id in Outstanding(s.worker) {
        OutstandingIndex(s.worker, i);
      }
    }
  }

  lemma QuietCreate(s: System, a: Action, id: MessageId)
    requires FlightInv(s) && WorkerInv(s.worker, s.store.messages, s.archive) && Enabled(s, a) && CurrentInv(s, id)
    requires a.Reserve? || a.Insert?
    ensures CurrentInv(Apply(s, a), id)
  {
    if a.Insert? { assert IsDraft(s.inFlight[a.token].(order := None)); }
  }

  lemma QuietFetch(s: System, a: Action, id: MessageId)
    requires Enabled(s, a) && CurrentInv(s, id) && a.Fetch?
    ensures CurrentInv(Apply(s, a), id)
  {
  }

  lemma QuietStep(s: System, a: Action, s': System, id: MessageId)
    requires SystemInv(s) && Step(s, a, s') && CurrentInv(s, id)
    requires WritesTo(a, id) ==> id !in Outstanding(s.worker)
    ensures CurrentInv(s', id)
  {
    match a
    case Reserve(_, _) => QuietCreate(s, a, id);
    case Insert(_) => QuietCreate(s, a, id);
    case Update(_, _, _) => QuietWrite(s, a, id);
    case Delete(_, _) => QuietWrite(s, a, id);
    case Fetch(_, _) => QuietFetch(s, a, id);
    case Upload(_, _, _) => QuietUpload(s, a, id);
    case UploadFails(_, _, _) => QuietUpload(s, a, id);
    case Mark(now) => QuietMark(s, now, id);
  }

  lemma QuietUpload(s: System, a: Action, id: MessageId)
    requires SystemInv(s) && Enabled(s, a) && CurrentInv(s, id) && (a.Upload? || a.UploadFails?)
    ensures CurrentInv(Apply(s, a), id)
  {
  }

  lemma QuietMark(s: System, now: int, id: MessageId)
    requires s.worker.Marking? && WorkerInv(s.worker, s.store.messages, s.archive) && CurrentInv(s, id)
    ensures CurrentInv(Apply(s, Mark(now)), id)
  {
    var w := s.worker;
    var m := w.batch[w.next];
    assert m in w.batch;
    if Identifier(m.id) in w.answers {
      AnswerNamesBatchVersion(w, s.store.messages, s.archive);
    }
    forall i | w.next < i < |w.batch| ensures w.batch[i].id != m.id {}
  }

  /** Without an overlapping write, a finished status means the archive holds the current message. */
  lemma {:induction false} QuietRunsArchiveTheCurrentMessage(states: seq<System>, acts: seq<Action>, n: nat, id: MessageId)
    requires IsRun(states, acts) && n < |states| && Quiet(states, acts, n, id)
    ensures CurrentInv(states[n], id)
  {
    if n == 0 {
    } else {
      assert Quiet(states, acts, n - 1, id);
      QuietRunsArchiveTheCurrentMessage(states, acts, n - 1, id);
      RunKeepsInv(states, acts, n - 1);
      assert Step(states[n - 1], acts[n - 1], states[n]);
      QuietStep(states[n - 1], acts[n - 1], states[n], id);
    }
  }

  // ---------------------------------------------------------------- statuses follow the writes

  datatype Write = Created | Edited | Removed

  /** The last accepted client write to the message. */
  ghost function LastWrite(states: seq<System>, acts: seq<Action>, n: nat, id: MessageId): Write
    requires n < |states| && |states| == |acts| + 1
  {
    if n == 0 then Created
    else
      var a, s := acts[n - 1], states[n - 1].store;
      if a.Update? && a.id == id && Storage.Update(s, id, a.content, a.now).result.Success? then Edited
      else if a.Delete? && a.id == id && id in s.messages then Removed
      else LastWrite(states, acts, n - 1, id)
  }

  ghost predicate Reflects(st: SyncStatus, w: Write) {
    match w
    case Created => st.SyncPending? || st.Synced?
    case Edited => st.UpdatePending? || st.Updated?
    case Removed => st.DeletePending? || st.Deleted?
  }

  ghost predicate StatusInv(s: System, id: MessageId, w: Write) {
    if id in s.store.messages then Reflects(s.store.messages[id].syncStatus, w) else w.Created?
  }

  lemma MarkReflects(s: System, now: int, id: MessageId, w: Write)
    requires s.worker.Marking? && BatchInv(s.worker.batch, s.worker.to, s.store.messages, s.worker.next)
    requires StatusInv(s, id, w)
    requires s.worker.batch[s.worker.next].id == id ==> s.store.messages[id] == s.worker.batch[s.worker.next]
    ensures StatusInv(Apply(s, Mark(now)), id, w)
  {
  }

  /** No step but a client's own write, and the mark that finishes it, moves a status. */
  lemma OtherStepsReflect(s: System, a: Action, id: MessageId, w: Write)
    requires KeyedById(s.store.messages) && Enabled(s, a) && StatusInv(s, id, w) && !a.Mark?
    requires a.Insert? ==> IsDraft(s.inFlight[a.token].(order := None))
    requires !(a.Delete? && a.id == id && id in s.store.messages)
    requires !(a.Update? && a.id == id && Storage.Update(s.store, id, a.content, a.now).result.Success?)
    ensures StatusInv(Apply(s, a), id, w)
  {
  }

  /**
    Without an overlapping write, a message's status always tells its last accepted write: never
    edited or deleted, edited, or deleted, each either still pending or archived as such.
   */
  lemma {:induction false} StatusTellsTheLastWrite(states: seq<System>, acts: seq<Action>, n: nat, id: MessageId)
    requires IsRun(states, acts) && n < |states| && Quiet(states, acts, n, id)
    ensures StatusInv(states[n], id, LastWrite(states, acts, n, id))
  {
    if n == 0 {
    } else {
      var s, a := states[n - 1], acts[n - 1];
      assert Quiet(states, acts, n - 1, id);
      StatusTellsTheLastWrite(states, acts, n - 1, id);
      QuietRunsArchiveTheCurrentMessage(states, acts, n - 1, id);
      RunKeepsInv(states, acts, n - 1);
      assert Step(s, a, states[n]);
      var w := LastWrite(states, acts, n - 1, id);
      if a.Mark? {
        MarkReflects(s, a.now, id, w);
      } else if LastWrite(states, acts, n, id) == w && !WritesTo(a, id) {
        OtherStepsReflect(s, a, id, w);
      }
    }
  }

  // ---------------------------------------------------------------- exactly when a mark is sound

  /** The worker is about to mark the message, and the archive answered for it. */
  ghost predicate Marks(s: System, a: Action, id: MessageId) {
    && a.Mark? && s.worker.Marking? && s.worker.next < |s.worker.batch| && s.worker.batch[s.worker.next].id == id
    && Identifier(id) in s.worker.answers && id in s.store.messages
  }

  /** The version that was fetched and uploaded. */
  function FetchedVersion(s: System): Message
    requires s.worker.Marking? && s.worker.next < |s.worker.batch|
  {
    s.worker.batch[s.worker.next]
  }

  /** A mark leaves the archived content current if and only if the stored content is still the fetched content. */
  lemma MarkIsCurrentIff(s: System, now: int, id: MessageId)
    requires WorkerInv(s.worker, s.store.messages, s.archive) && Marks(s, Mark(now), id)
    ensures id in Apply(s, Mark(now)).store.messages
    ensures ArchivedAsStored(Apply(s, Mark(now)).store.messages[id], s.archive)
       <==> s.store.messages[id].content == FetchedVersion(s).content
  {
    assert FetchedVersion(s) in s.worker.batch;
    AnswerNamesBatchVersion(s.worker, s.store.messages, s.archive);
  }

  /** A mark leaves the status telling the last write if and only if the stored status is still the fetched one. */
  lemma MarkKeepsStatusIff(s: System, now: int, id: MessageId, w: Write)
    requires s.worker.Marking? && BatchInv(s.worker.batch, s.worker.to, s.store.messages, s.worker.next)
    requires Marks(s, Mark(now), id) && StatusInv(s, id, w)
    ensures StatusInv(Apply(s, Mark(now)), id, w) <==> s.store.messages[id].syncStatus == FetchedVersion(s).syncStatus
  {
    assert FetchedVersion(s) in s.worker.batch;
  }

  /** Nothing is lost by a mark if and only if both are still what was fetched.  The code compares neither. */
  lemma MarkIsSoundIff(s: System, now: int, id: MessageId, w: Write)
    requires WorkerInv(s.worker, s.store.messages, s.archive) && Marks(s, Mark(now), id) && StatusInv(s, id, w)
    ensures id in Apply(s, Mark(now)).store.messages
    ensures StatusInv(Apply(s, Mark(now)), id, w) && ArchivedAsStored(Apply(s, Mark(now)).store.messages[id], s.archive)
       <==> s.store.messages[id].syncStatus == FetchedVersion(s).syncStatus && s.store.messages[id].content == FetchedVersion(s).content
  {
    MarkIsCurrentIff(s, now, id);
    MarkKeepsStatusIff(s, now, id, w);
  }

  ghost predicate PendingTells(s: System, id: MessageId, w: Write) {
    id !in s.store.messages || IsPending(s.store.messages[id].syncStatus) ==> StatusInv(s, id, w)
  }

  /** In every run, overlapping or not, a pending status tells the last accepted write. */
  lemma {:induction false} PendingTellsTheLastWrite(states: seq<System>, acts: seq<Action>, n: nat, id: MessageId)
    requires IsRun(states, acts) && n < |states|
    ensures PendingTells(states[n], id, LastWrite(states, acts, n, id))
  {
    if n == 0 {
    } else {
      PendingTellsTheLastWrite(states, acts, n - 1, id);
      RunKeepsInv(states, acts, n - 1);
      assert Step(states[n - 1], acts[n - 1], states[n]);
      PendingStep(states[n - 1], acts[n - 1], id, LastWrite(states, acts, n - 1, id), LastWrite(states, acts, n, id));
    }
  }

  lemma PendingStep(s: System, a: Action, id: MessageId, w: Write, w': Write)
    requires KeyedById(s.store.messages) && Enabled(s, a)
    requires s.worker.Marking? ==> BatchInv(s.worker.batch, s.worker.to, s.store.messages, s.worker.next)
    requires a.Insert? ==> IsDraft(s.inFlight[a.token].(order := None))
    requires PendingTells(s, id, w)
    requires w' == if a.Update? && a.id == id && Storage.Update(s.store, id, a.content, a.now).result.Success? then Edited
                   else if a.Delete? && a.id == id && id in s.store.messages then Removed else w
    ensures PendingTells(Apply(s, a), id, w')
  {
    if a.Mark? {
      MarkFinishes(s, a.now, id);
    } else if w' == w && !WritesTo(a, id) {
      if id !in s.store.messages || IsPending(s.store.messages[id].syncStatus) { OtherStepsReflect(s, a, id, w); }
    }
  }

  lemma MarkFinishes(s: System, now: int, id: MessageId)
    requires s.worker.Marking? && BatchInv(s.worker.batch, s.worker.to, s.store.messages, s.worker.next)
    requires KeyedById(s.store.messages)
    ensures var ms, ms' := s.store.messages, Apply(s, Mark(now)).store.messages;
      && (id in ms' <==> id in ms)
      && (id in ms ==> if Marks(s, Mark(now), id) then !IsPending(ms'[id].syncStatus) else ms'[id] == ms[id])
  {
    assert FetchedVersion(s) in s.worker.batch;
  }

  lemma FinishedStep(s: System, a: Action, id: MessageId)
    requires KeyedById(s.store.messages) && WorkerInv(s.worker, s.store.messages, s.archive) && Enabled(s, a)
    requires a.Insert? ==> IsDraft(s.inFlight[a.token].(order := None))
    requires id in Apply(s, a).store.messages && !IsPending(Apply(s, a).store.messages[id].syncStatus)
    ensures s.archive <= Apply(s, a).archive
    ensures !Marks(s, a, id) ==> id in s.store.messages && Apply(s, a).store.messages[id] == s.store.messages[id]
    ensures a.Update? && a.id == id ==> Storage.Update(s.store, id, a.content, a.now).result.Failure?
    ensures a.Delete? && a.id == id ==> id !in s.store.messages
  {
    if a.Mark? { MarkFinishes(s, a.now, id); }
  }

  /** Event `i` is an accepted client write to the message. */
  ghost predicate WriteAt(states: seq<System>, acts: seq<Action>, i: nat, id: MessageId)
    requires |states| == |acts| + 1 && i < |acts|
  {
    var a, s := acts[i], states[i].store;
    || (a.Update? && a.id == id && Storage.Update(s, id, a.content, a.now).result.Success?)
    || (a.Delete? && a.id == id && id in s.messages)
  }

  lemma {:induction false} LastWriteSince(states: seq<System>, acts: seq<Action>, k: nat, n: nat, id: MessageId)
    requires |states| == |acts| + 1 && k <= n < |states| && forall i | k <= i < n :: !WriteAt(states, acts, i, id)
    ensures LastWrite(states, acts, n, id) == LastWrite(states, acts, k, id)
  {
    if k == n {
    } else {
      assert !WriteAt(states, acts, n - 1, id);
      LastWriteSince(states, acts, k, n - 1, id);
    }
  }

  /** One step back from a finished message: the mark that finished it, or the same message. */
  lemma FinishedStepAt(states: seq<System>, acts: seq<Action>, n: nat, id: MessageId)
    requires IsRun(states, acts) && n < |states|
    requires id in states[n].store.messages && !IsPending(states[n].store.messages[id].syncStatus)
    ensures n > 0 && states[n - 1].archive <= states[n].archive
    ensures !WriteAt(states, acts, n - 1, id)
    ensures !Marks(states[n - 1], acts[n - 1], id) ==>
      id in states[n - 1].store.messages && states[n].store.messages[id] == states[n - 1].store.messages[id]
  {
    assert n > 0;
    RunKeepsInv(states, acts, n - 1);
    assert Step(states[n - 1], acts[n - 1], states[n]);
    FinishedStep(states[n - 1], acts[n - 1], id);
  }

  /** The mark at `k` finished the message, which is the same at `n`. */
  ghost predicate FinishedSince(states: seq<System>, acts: seq<Action>, k: nat, n: nat, id: MessageId)
    requires |states| == |acts| + 1 && n < |states|
  {
    && k < n && Marks(states[k], acts[k], id) && states[k].archive <= states[n].archive
    && id in states[k + 1].store.messages && id in states[n].store.messages
    && states[n].store.messages[id] == states[k + 1].store.messages[id]
    && forall i | k <= i < n :: !WriteAt(states, acts, i, id)
  }

  lemma FinishedStill(states: seq<System>, acts: seq<Action>, k: nat, n: nat, id: MessageId)
    requires |states| == |acts| + 1 && 0 < n < |states| && FinishedSince(states, acts, k, n - 1, id)
    requires id in states[n].store.messages && states[n].store.messages[id] == states[n - 1].store.messages[id]
    requires states[n - 1].archive <= states[n].archive
    requires !WriteAt(states, acts, n - 1, id)
    ensures FinishedSince(states, acts, k, n, id)
  {
  }

  /** A finished message was finished by a mark and has not been touched since. */
  lemma {:induction false} LastMark(states: seq<System>, acts: seq<Action>, n: nat, id: MessageId) returns (k: nat)
    requires IsRun(states, acts) && n < |states|
    requires id in states[n].store.messages && !IsPending(states[n].store.messages[id].syncStatus)
    ensures FinishedSince(states, acts, k, n, id)
  {
    FinishedStepAt(states, acts, n, id);
    if Marks(states[n - 1], acts[n - 1], id) {
      k := n - 1;
      assert FinishedSince(states, acts, k, n, id);
    } else {
      k := LastMark(states, acts, n - 1, id);
      FinishedStill(states, acts, k, n, id);
    }
  }

  /**
    Exactly when an archived message can be trusted, over every run: a finished message tells its last
    write and is archived as stored if and only if, at the mark that finished it, status and content
    were still those that had been fetched.
   */
  lemma FinishedIsSoundIff(states: seq<System>, acts: seq<Action>, n: nat, id: MessageId) returns (k: nat)
    requires IsRun(states, acts) && n < |states|
    requires id in states[n].store.messages && !IsPending(states[n].store.messages[id].syncStatus)
    ensures k < n && Marks(states[k], acts[k], id)
    ensures Reflects(states[n].store.messages[id].syncStatus, LastWrite(states, acts, n, id))
            && ArchivedAsStored(states[n].store.messages[id], states[n].archive)
       <==> states[k].store.messages[id].syncStatus == FetchedVersion(states[k]).syncStatus
            && states[k].store.messages[id].content == FetchedVersion(states[k]).content
  {
    k := LastMark(states, acts, n, id);
    LastWriteSince(states, acts, k, n, id);
    var s, w := states[k], LastWrite(states, acts, k, id);
    RunKeepsInv(states, acts, k);
    PendingTellsTheLastWrite(states, acts, k, id);
    assert Step(s, acts[k], states[k + 1]);
    MarkIsSoundIff(s, acts[k].now, id, w);
    ArchivedLater(states[n].store.messages[id], s.archive, states[n].archive);
  }

  lemma ArchivedLater(m: Message, archive: seq<Quilt>, archive': seq<Quilt>)
    requires archive <= archive' && m.quiltPatchId.Some? && ValidPatch(archive, m.quiltPatchId.value)
    ensures ArchivedAsStored(m, archive) <==> ArchivedAsStored(m, archive')
  {
  }

  // ---------------------------------------------------------------- the hypothesis is needed

  function DraftOf(content: Content): Message {
    NewMessage("a", "g", "s", content, 0)
  }

  function StoredOf(content: Content): Message {
    DraftOf(content).(order := Some(1))
  }

  const ANSWERS := map["msg-a" := PatchId(0, 0)]

  /** One message, stored and fetched for archival. */
  function FetchedSystem(content: Content): System {
    System(Store(map["a" := StoredOf(content)], map["g" := 1], {content.nonce}), map[],
           Fetched(Synced, [StoredOf(content)]), [], 10)
  }

  /** The message is then hit by `write` before it is uploaded and marked. */
  function OverlapActions(content: Content, write: Action): seq<Action> {
    [Reserve(0, DraftOf(content)), Insert(0), Fetch(SyncPending, [StoredOf(content)]), write, Upload({}, ANSWERS, 7), Mark(2)]
  }

  lemma FetchedIsReachable(content: Content) returns (s1: System, s2: System)
    ensures Step(Init(10), Reserve(0, DraftOf(content)), s1) && Step(s1, Insert(0), s2)
    ensures Step(s2, Fetch(SyncPending, [StoredOf(content)]), FetchedSystem(content))
  {
    s1 := Apply(Init(10), Reserve(0, DraftOf(content)));
    assert s1.inFlight == map[0 := StoredOf(content)] && s1.store == Store(map[], map["g" := 1], {});
    s2 := Apply(s1, Insert(0));
    assert s2.store == FetchedSystem(content).store && s2.inFlight == map[];
    assert WithStatus(s2.store.messages, SyncPending) == {"a"};
  }

  lemma MarkedIsReachable(s4: System, content: Content) returns (s5: System, s6: System)
    requires s4.worker == Fetched(Synced, [StoredOf(content)]) && s4.archive == [] && "a" in s4.store.messages
    ensures Step(s4, Upload({}, ANSWERS, 7), s5) && Step(s5, Mark(2), s6)
    ensures s6.store.messages ==
      s4.store.messages["a" := s4.store.messages["a"].(syncStatus := Synced, updatedAt := 2, quiltPatchId := Some(PatchId(0, 0)))]
    ensures s6.archive == [Quilt([PatchOf(StoredOf(content), Synced)], 7)] && s6.worker == Idle
  {
    var stored := StoredOf(content);
    assert Identifier("a") == "msg-a";
    var patches := PatchesOf([stored], Synced, {});
    assert PatchesOf([stored][1..], Synced, {}) == [];
    assert stored.id !in {};
    assert patches == [PatchOf(stored, Synced)];
    s5 := Apply(s4, Upload({}, ANSWERS, 7));
    s6 := Apply(s5, Mark(2));
  }

  lemma OverlapIsARun(content: Content, write: Action) returns (states: seq<System>)
    requires (write.Update? && write.id == "a") || write == Delete("a", 1)
    ensures |states| == 7 && IsRun(states, OverlapActions(content, write))
    ensures states[4] == Apply(FetchedSystem(content), write) && "a" in states[4].store.messages
    ensures states[6].store.messages == states[4].store.messages["a" :=
      states[4].store.messages["a"].(syncStatus := Synced, updatedAt := 2, quiltPatchId := Some(PatchId(0, 0)))]
    ensures states[6].archive == [Quilt([PatchOf(StoredOf(content), Synced)], 7)] && states[6].worker == Idle
  {
    var s1, s2 := FetchedIsReachable(content);
    var s4 := Apply(FetchedSystem(content), write);
    var s5, s6 := MarkedIsReachable(s4, content);
    states := [Init(10), s1, s2, FetchedSystem(content), s4, s5, s6];
  }

  /** For any two contents, a reachable state in which an acknowledged edit is archived nowhere and nothing is pending. */
  lemma EditsCanBeLost(content: Content, edit: Content) returns (states: seq<System>, acts: seq<Action>)
    requires content != edit
    ensures IsRun(states, acts) && |states| == 7 && acts[3] == Update("a", edit, 1)
    ensures "a" in states[6].store.messages && states[6].worker == Idle && states[6].store.messages["a"].content == edit
    ensures forall st | IsPending(st) :: WithStatus(states[6].store.messages, st) == {}
    ensures forall p {:trigger PatchAt(states[6].archive, p)} | ValidPatch(states[6].archive, p) ::
      PatchAt(states[6].archive, p).body.content != edit
  {
    acts := OverlapActions(content, Update("a", edit, 1));
    states := OverlapIsARun(content, Update("a", edit, 1));
    EditIsStored(content, edit);
    forall st | IsPending(st) ensures WithStatus(states[6].store.messages, st) == {} {
      assert states[6].store.messages.Keys == {"a"};
    }
    forall p | ValidPatch(states[6].archive, p) ensures PatchAt(states[6].archive, p).body.content != edit {
      assert PatchAt(states[6].archive, p) == PatchOf(StoredOf(content), Synced);
    }
  }

  lemma EditIsStored(content: Content, edit: Content)
    ensures Apply(FetchedSystem(content), Update("a", edit, 1)).store.messages == map["a" := UpdateContent(StoredOf(content), edit, 1)]
  {
  }

  /** For any content, a reachable state in which an acknowledged deletion has been overwritten by the mark. */
  lemma DeletionsCanBeLost(content: Content) returns (states: seq<System>, acts: seq<Action>)
    ensures IsRun(states, acts) && |states| == 7 && acts[3] == Delete("a", 1)
    ensures "a" in states[4].store.messages && states[4].store.messages["a"].syncStatus == DeletePending
    ensures states[4].store.messages["a"].content == content
    ensures "a" in states[6].store.messages && states[6].store.messages["a"].syncStatus == Synced
  {
    acts := OverlapActions(content, Delete("a", 1));
    states := OverlapIsARun(content, Delete("a", 1));
  }
}
