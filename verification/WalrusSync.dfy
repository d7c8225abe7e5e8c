/**
  The sync worker itself (relayer/src/services/walrus_sync.rs): one pass over a pending status, the
  three passes of a cycle, and the triggers that start a cycle.
 */
module WalrusSync {
  import opened Messages
  import opened Relayer
  import opened Sequences
  import opened Storage
  import opened Wrappers

  /** What the publisher does with an upload; it may keep a quilt and still report a failure. */
  datatype Reply = Reject(kept: bool) | Accept(unanswered: set<string>)

  datatype PassResult = PassResult(store: Store, archive: seq<Quilt>, ok: bool)

  /** `get_patch_id` over the response: the answered patches of quilt number `quilt`, from position `i`. */
  function AnswersOf(patches: seq<Patch>, quilt: nat, unanswered: set<string>, i: nat): map<string, PatchId>
    requires i <= |patches|
    decreases |patches| - i
  {
    if i == |patches| then map[]
    else
      var rest := AnswersOf(patches, quilt, unanswered, i + 1);
      if patches[i].identifier in unanswered then rest else rest[patches[i].identifier := PatchId(quilt, i)]
  }

  function MarkAll(store: Store, batch: seq<Message>, to: SyncStatus, answers: map<string, PatchId>, clock: nat -> int, i: nat): Store
    requires i <= |batch|
    decreases |batch| - i
  {
    if i == |batch| then store
    else MarkAll(MarkOne(store, batch[i], to, answers, clock(i)), batch, to, answers, clock, i + 1)
  }

  /** An undisturbed pass over `batch`. */
  function Pass(store: Store, archive: seq<Quilt>, batch: seq<Message>, to: SyncStatus,
                skipped: set<MessageId>, reply: Reply, checkpoint: nat, clock: nat -> int): PassResult
  {
    var patches := PatchesOf(batch, to, skipped);
    if patches == [] then PassResult(store, archive, true)
    else
      match reply
      case Reject(kept) => PassResult(store, if kept then archive + [Quilt(patches, checkpoint)] else archive, false)
      case Accept(unanswered) =>
        PassResult(MarkAll(store, batch, to, AnswersOf(patches, |archive|, unanswered, 0), clock, 0),
                   archive + [Quilt(patches, checkpoint)], true)
  }

  /** A pass that skips nothing and is answered in full, over some batch the store may yield. */
  ghost predicate FullPass(s: Store, archive: seq<Quilt>, limit: nat, from: SyncStatus, s': Store, archive': seq<Quilt>)
    requires IsPending(from)
  {
    exists batch, checkpoint, clock ::
      IsBatch(batch, s.messages, from, limit)
      && PassResult(s', archive', true) == Pass(s, archive, batch, Target(from), {}, Accept({}), checkpoint, clock)
  }

  /** The three passes of one cycle. */
  ghost predicate FullCycle(s: Store, archive: seq<Quilt>, limit: nat, s': Store, archive': seq<Quilt>) {
    exists s1, a1, s2, a2 ::
      FullPass(s, archive, limit, SyncPending, s1, a1) && FullPass(s1, a1, limit, UpdatePending, s2, a2)
      && FullPass(s2, a2, limit, DeletePending, s', archive')
  }

  /** What happens around one pass: messages that do not serialise, the publisher's reply, the chain and the clock. */
  datatype Circumstances = Circumstances(skipped: set<MessageId>, reply: Reply, checkpoint: nat, clock: nat -> int)

  /** A pass in these circumstances over some batch the store may yield, whether or not it ends in an error. */
  ghost predicate PassIn(c: Circumstances, s: Store, archive: seq<Quilt>, limit: nat, from: SyncStatus, s': Store, archive': seq<Quilt>)
    requires IsPending(from)
  {
    exists batch, ok ::
      IsBatch(batch, s.messages, from, limit)
      && PassResult(s', archive', ok) == Pass(s, archive, batch, Target(from), c.skipped, c.reply, c.checkpoint, c.clock)
  }

  /** The three passes of a cycle: an error in one does not keep the next from running. */
  ghost predicate CycleIn(c1: Circumstances, c2: Circumstances, c3: Circumstances, s: Store, archive: seq<Quilt>, limit: nat,
                          s': Store, archive': seq<Quilt>)
  {
    exists s1, a1, s2, a2 ::
      PassIn(c1, s, archive, limit, SyncPending, s1, a1) && PassIn(c2, s1, a1, limit, UpdatePending, s2, a2)
      && PassIn(c3, s2, a2, limit, DeletePending, s', archive')
  }

  ghost predicate Undisturbed(c: Circumstances) {
    c.skipped == {} && c.reply == Accept({})
  }

  lemma UndisturbedPassIsFull(c: Circumstances, s: Store, archive: seq<Quilt>, limit: nat, from: SyncStatus, s': Store, archive': seq<Quilt>)
    requires IsPending(from) && Undisturbed(c) && PassIn(c, s, archive, limit, from, s', archive')
    ensures FullPass(s, archive, limit, from, s', archive')
  {
    var batch, ok :| IsBatch(batch, s.messages, from, limit)
      && PassResult(s', archive', ok) == Pass(s, archive, batch, Target(from), c.skipped, c.reply, c.checkpoint, c.clock);
    assert PassResult(s', archive', true) == Pass(s, archive, batch, Target(from), {}, Accept({}), c.checkpoint, c.clock);
  }

  /** When everything serialises and every patch is answered, the cycle is a full one. */
  lemma UndisturbedCycleIsFull(c1: Circumstances, c2: Circumstances, c3: Circumstances, s: Store, archive: seq<Quilt>, limit: nat,
                               s': Store, archive': seq<Quilt>)
    requires Undisturbed(c1) && Undisturbed(c2) && Undisturbed(c3) && CycleIn(c1, c2, c3, s, archive, limit, s', archive')
    ensures FullCycle(s, archive, limit, s', archive')
  {
    var s1, a1, s2, a2 :|
      PassIn(c1, s, archive, limit, SyncPending, s1, a1) && PassIn(c2, s1, a1, limit, UpdatePending, s2, a2)
      && PassIn(c3, s2, a2, limit, DeletePending, s', archive');
    UndisturbedPassIsFull(c1, s, archive, limit, SyncPending, s1, a1);
    UndisturbedPassIsFull(c2, s1, a1, limit, UpdatePending, s2, a2);
    UndisturbedPassIsFull(c3, s2, a2, limit, DeletePending, s', archive');
  }

  class WalrusClient {
    var archive: seq<Quilt>

    constructor ()
      ensures archive == []
    {
      archive := [];
    }

    method StoreQuilt(patches: seq<Patch>, reply: Reply, checkpoint: nat) returns (answers: Option<map<string, PatchId>>)
      modifies this
      ensures archive == if reply == Reject(false) then old(archive) else old(archive) + [Quilt(patches, checkpoint)]
      ensures answers == if reply.Reject? then None else Some(AnswersOf(patches, |old(archive)|, reply.unanswered, 0))
    {
      match reply {
        case Reject(kept) =>
          if kept { archive := archive + [Quilt(patches, checkpoint)]; }
          answers := None;
        case Accept(unanswered) =>
          answers := Some(AnswersOf(patches, |archive|, unanswered, 0));
          archive := archive + [Quilt(patches, checkpoint)];
      }
    }
  }

  class WalrusSyncService {
    const storage: InMemoryStorage
    const walrusClient: WalrusClient
    const batchSize: nat

    constructor (storage: InMemoryStorage, walrusClient: WalrusClient, configuredBatch: nat)
      ensures this.storage == storage && this.walrusClient == walrusClient
      ensures batchSize == Min(configuredBatch, 666)
    {
      this.storage := storage;
      this.walrusClient := walrusClient;
      this.batchSize := Min(configuredBatch, 666);
    }

    /** The second phase: one patch per message that serialises, in the target status. */
    static method BuildPatches(messages: seq<Message>, to: SyncStatus, skipped: set<MessageId>) returns (patches: seq<Patch>)
      ensures patches == PatchesOf(messages, to, skipped)
    {
      patches := [];
      for i := 0 to |messages|
        invariant patches + PatchesOf(messages[i..], to, skipped) == PatchesOf(messages, to, skipped)
      {
        assert messages[i..][1..] == messages[i + 1..];
        if messages[i].id !in skipped {
          patches := patches + [PatchOf(messages[i], to)];
        }
      }
    }

    /** The last phase: mark every message the response answers for. */
    method MarkMessages(messages: seq<Message>, to: SyncStatus, answers: map<string, PatchId>, clock: nat -> int)
      requires WellFormed(storage.State())
      modifies storage
      ensures WellFormed(storage.State()) && storage.State() == MarkAll(old(storage.State()), messages, to, answers, clock, 0)
    {
      for i := 0 to |messages|
        invariant MarkAll(storage.State(), messages, to, answers, clock, i)
               == MarkAll(old(storage.State()), messages, to, answers, clock, 0)
        invariant WellFormed(storage.State())
      {
        var identifier := Identifier(messages[i].id);
        if identifier in answers {
          var _ := storage.UpdateSyncStatus(messages[i].id, to, Some(answers[identifier]), clock(i));
        }
      }
    }

    /** One pass; `batch` is whatever the store's iteration order put first. */
    method SyncMessages(from: SyncStatus, skipped: set<MessageId>, reply: Reply, checkpoint: nat, clock: nat -> int)
      returns (ok: bool, ghost batch: seq<Message>)
      requires IsPending(from) && WellFormed(storage.State())
      modifies storage, walrusClient
      ensures WellFormed(storage.State())
      ensures IsBatch(batch, old(storage.messages), from, batchSize)
      ensures PassResult(storage.State(), walrusClient.archive, ok)
           == Pass(old(storage.State()), old(walrusClient.archive), batch, Target(from), skipped, reply, checkpoint, clock)
    {
      var to := Target(from);
      var messages := storage.GetMessagesBySyncStatus(from, batchSize);
      batch := messages;
      if messages == [] {
        return true, batch;
      }

      var patches := BuildPatches(messages, to, skipped);
      if patches == [] {
        return true, batch;
      }

      var response := walrusClient.StoreQuilt(patches, reply, checkpoint);
      if response.None? {
        return false, batch;
      }
      MarkMessages(messages, to, response.value, clock);
      ok := true;
    }

    /** One cycle: the three passes in turn, errors being logged only. */
    method SyncCycle(c1: Circumstances, c2: Circumstances, c3: Circumstances)
      requires WellFormed(storage.State())
      modifies storage, walrusClient
      ensures WellFormed(storage.State())
      ensures CycleIn(c1, c2, c3, old(storage.State()), old(walrusClient.archive), batchSize, storage.State(), walrusClient.archive)
    {
      ghost var s0, a0 := storage.State(), walrusClient.archive;
      var _, b0 := SyncMessages(SyncPending, c1.skipped, c1.reply, c1.checkpoint, c1.clock);
      ghost var s1, a1 := storage.State(), walrusClient.archive;
      assert PassIn(c1, s0, a0, batchSize, SyncPending, s1, a1);
      var _, b1 := SyncMessages(UpdatePending, c2.skipped, c2.reply, c2.checkpoint, c2.clock);
      ghost var s2, a2 := storage.State(), walrusClient.archive;
      assert PassIn(c2, s1, a1, batchSize, UpdatePending, s2, a2);
      var _, b2 := SyncMessages(DeletePending, c3.skipped, c3.reply, c3.checkpoint, c3.clock);
      assert PassIn(c3, s2, a2, batchSize, DeletePending, storage.State(), walrusClient.archive);
    }
  }

  // ---------------------------------------------------------------- the pass is a run of the step machine

  /** Some sequence of enabled worker steps leads from `s` to `t`. */
  least predicate Reaches(s: System, t: System) {
    s == t || exists a :: Enabled(s, a) && (a.Fetch? || a.Upload? || a.UploadFails? || a.Mark?) && Reaches(Apply(s, a), t)
  }

  lemma {:induction false} MarksReach(s: System, clock: nat -> int)
    requires s.worker.Marking? && s.worker.next < |s.worker.batch|
    ensures var w := s.worker;
      Reaches(s, s.(worker := Idle, store := MarkAll(s.store, w.batch, w.to, w.answers, clock, w.next)))
    decreases |s.worker.batch| - s.worker.next
  {
    var w := s.worker;
    var a := Mark(clock(w.next));
    var s' := Apply(s, a);
    var t := s.(worker := Idle, store := MarkAll(s.store, w.batch, w.to, w.answers, clock, w.next));
    assert MarkAll(s.store, w.batch, w.to, w.answers, clock, w.next)
        == MarkAll(s'.store, w.batch, w.to, w.answers, clock, w.next + 1);
    if w.next + 1 == |w.batch| {
      assert s' == t;
      assert Reaches(s', t);
    } else {
      MarksReach(s', clock);
    }
    assert Enabled(s, a) && Reaches(Apply(s, a), t);
  }

  /** What is found is a patch of that very upload, and exactly the identifiers the response names are found. */
  lemma {:induction false} AnswersAreTruthful(patches: seq<Patch>, quilt: nat, unanswered: set<string>, i: nat)
    requires i <= |patches|
    ensures Truthful(AnswersOf(patches, quilt, unanswered, i), quilt, patches)
    ensures forall ident :: ident in AnswersOf(patches, quilt, unanswered, i)
                       <==> ident !in unanswered && exists k :: i <= k < |patches| && patches[k].identifier == ident
    decreases |patches| - i
  {
    if i == |patches| {
    } else {
      AnswersAreTruthful(patches, quilt, unanswered, i + 1);
    }
  }

  // ---------------------------------------------------------------- what a pass leaves behind

  /** The message is in the batch, serialises, and the response names its patch. */
  predicate Answered(m: Message, batch: seq<Message>, skipped: set<MessageId>, reply: Reply) {
    m in batch && m.id !in skipped && reply.Accept? && Identifier(m.id) !in reply.unanswered
  }

  lemma {:induction false} PatchesAreOf(batch: seq<Message>, to: SyncStatus, skipped: set<MessageId>, p: Patch)
    ensures p in PatchesOf(batch, to, skipped) <==> exists m :: m in batch && m.id !in skipped && p == PatchOf(m, to)
  {
    if batch == [] {
    } else {
      PatchesAreOf(batch[1..], to, skipped, p);
      assert batch == [batch[0]] + batch[1..];
    }
  }

  /** Marking from position `i` on writes messages only, and leaves alone what it does not find answered. */
  lemma {:induction false} MarkAllLeaves(store: Store, batch: seq<Message>, to: SyncStatus, answers: map<string, PatchId>,
                                         clock: nat -> int, i: nat, id: MessageId)
    requires i <= |batch| && id in store.messages
    ensures var s' := MarkAll(store, batch, to, answers, clock, i);
      && s'.messages.Keys == store.messages.Keys && s'.groupOrders == store.groupOrders && s'.nonces == store.nonces
      && (Identifier(id) !in answers || (forall j | i <= j < |batch| :: batch[j].id != id) ==>
            s'.messages[id] == store.messages[id])
    decreases |batch| - i
  {
    if i == |batch| {
    } else {
      MarkAllLeaves(MarkOne(store, batch[i], to, answers, clock(i)), batch, to, answers, clock, i + 1, id);
    }
  }

  /** An answered message at position `j` is marked at its own time. */
  lemma {:induction false} MarkAllWrites(store: Store, batch: seq<Message>, to: SyncStatus, answers: map<string, PatchId>,
                                         clock: nat -> int, i: nat, j: nat)
    requires i <= j < |batch| && DistinctIds(batch) && batch[j].id in store.messages && Identifier(batch[j].id) in answers
    ensures var id, s' := batch[j].id, MarkAll(store, batch, to, answers, clock, i);
      && id in s'.messages
      && s'.messages[id] == store.messages[id].(syncStatus := to, updatedAt := clock(j), quiltPatchId := Some(answers[Identifier(id)]))
    decreases |batch| - i
  {
    var s1 := MarkOne(store, batch[i], to, answers, clock(i));
    if i == j {
      MarkAllLeaves(s1, batch, to, answers, clock, i + 1, batch[j].id);
    } else {
      MarkAllWrites(s1, batch, to, answers, clock, i + 1, j);
    }
  }

  /**
    What one pass does to a stored message: if it is in the batch, serialises and is answered for, it
    gets the target status and the id of the patch made from it; otherwise it is left exactly as it was.
   */
  lemma PassMarksExactly(store: Store, archive: seq<Quilt>, batch: seq<Message>, from: SyncStatus, limit: nat,
                         skipped: set<MessageId>, reply: Reply, checkpoint: nat, clock: nat -> int, id: MessageId)
    requires KeyedById(store.messages) && IsPending(from) && IsBatch(batch, store.messages, from, limit) && id in store.messages
    ensures var r := Pass(store, archive, batch, Target(from), skipped, reply, checkpoint, clock);
      && r.store.messages.Keys == store.messages.Keys && r.store.groupOrders == store.groupOrders && r.store.nonces == store.nonces
      && var m, m' := store.messages[id], r.store.messages[id];
         if Answered(m, batch, skipped, reply)
         then m'.quiltPatchId.Some? && ValidPatch(r.archive, m'.quiltPatchId.value)
              && m'.quiltPatchId.value.quilt == |archive| && PatchAt(r.archive, m'.quiltPatchId.value) == PatchOf(m, Target(from))
              && exists j | 0 <= j < |batch| :: batch[j] == m
                   && m' == m.(syncStatus := Target(from), updatedAt := clock(j), quiltPatchId := m'.quiltPatchId)
         else m' == m
  {
    var m, to := store.messages[id], Target(from);
    var patches := PatchesOf(batch, to, skipped);
    if patches != [] && reply.Accept? {
      var answers := AnswersOf(patches, |archive|, reply.unanswered, 0);
      AnswersAreTruthful(patches, |archive|, reply.unanswered, 0);
      MarkAllLeaves(store, batch, to, answers, clock, 0, id);
      AnsweredIff(batch, to, skipped, reply, |archive|, m);
      if Answered(m, batch, skipped, reply) {
        var j :| 0 <= j < |batch| && batch[j] == m;
        MarkAllWrites(store, batch, to, answers, clock, 0, j);
      }
    } else {
      PatchesAreOf(batch, to, skipped, PatchOf(m, to));
    }
  }

  /** Exactly the answered messages of a batch are found in the response, each under its own patch. */
  lemma AnsweredIff(batch: seq<Message>, to: SyncStatus, skipped: set<MessageId>, reply: Reply, quilt: nat, m: Message)
    requires DistinctIds(batch) && reply.Accept? && forall b | b in batch && b.id == m.id :: b == m
    ensures var patches := PatchesOf(batch, to, skipped);
      var answers := AnswersOf(patches, quilt, reply.unanswered, 0);
      && (Identifier(m.id) in answers <==> Answered(m, batch, skipped, reply))
      && (Identifier(m.id) in answers ==>
            answers[Identifier(m.id)].quilt == quilt && answers[Identifier(m.id)].index < |patches|
            && patches[answers[Identifier(m.id)].index] == PatchOf(m, to))
  {
    var patches := PatchesOf(batch, to, skipped);
    AnswersAreTruthful(patches, quilt, reply.unanswered, 0);
    forall k | 0 <= k < |patches| && patches[k].identifier == Identifier(m.id)
      ensures patches[k] == PatchOf(m, to) && m in batch && m.id !in skipped
    {
      PatchesAreOf(batch, to, skipped, patches[k]);
      var b :| b in batch && b.id !in skipped && patches[k] == PatchOf(b, to);
      IdentifierInjective(b.id, m.id);
    }
    if m in batch && m.id !in skipped {
      PatchesAreOf(batch, to, skipped, PatchOf(m, to));
      var k :| 0 <= k < |patches| && patches[k] == PatchOf(m, to);
    }
  }

  /** What one pass does to the archive: nothing, or one quilt with a patch for each message that serialises. */
  lemma PassUploads(store: Store, archive: seq<Quilt>, batch: seq<Message>, to: SyncStatus, skipped: set<MessageId>,
                    reply: Reply, checkpoint: nat, clock: nat -> int)
    ensures var r := Pass(store, archive, batch, to, skipped, reply, checkpoint, clock);
      if reply == Reject(false) || (forall m | m in batch :: m.id in skipped) then r.archive == archive
      else
        && |r.archive| == |archive| + 1 && r.archive[..|archive|] == archive && r.archive[|archive|].checkpoint == checkpoint
        && forall p :: p in r.archive[|archive|].patches <==> exists m :: m in batch && m.id !in skipped && p == PatchOf(m, to)
    ensures var r := Pass(store, archive, batch, to, skipped, reply, checkpoint, clock);
      r.ok <==> reply.Accept? || forall m | m in batch :: m.id in skipped
  {
    var patches := PatchesOf(batch, to, skipped);
    forall p ensures p in patches <==> exists m :: m in batch && m.id !in skipped && p == PatchOf(m, to) {
      PatchesAreOf(batch, to, skipped, p);
    }
    if patches == [] {
      forall m | m in batch ensures m.id in skipped { assert PatchOf(m, to) !in patches; }
    } else {
      assert patches[0] in patches;
    }
  }

  /** What the service does in one call is what its fetch, upload and mark steps do when nothing intervenes. */
  lemma PassIsWorkerSteps(s: System, from: SyncStatus, batch: seq<Message>, skipped: set<MessageId>,
                          reply: Reply, checkpoint: nat, clock: nat -> int)
    requires s.worker.Idle? && IsPending(from) && IsBatch(batch, s.store.messages, from, s.batchSize)
    ensures var r := Pass(s.store, s.archive, batch, Target(from), skipped, reply, checkpoint, clock);
      Reaches(s, s.(store := r.store, archive := r.archive))
  {
    var r := Pass(s.store, s.archive, batch, Target(from), skipped, reply, checkpoint, clock);
    var t := s.(store := r.store, archive := r.archive);
    if batch == [] {
      assert t == s;
    } else {
      var patches := PatchesOf(batch, Target(from), skipped);
      var s1 := Apply(s, Fetch(from, batch));
      var upload := match reply
        case Reject(kept) => UploadFails(skipped, kept, checkpoint)
        case Accept(unanswered) => Upload(skipped, AnswersOf(patches, |s.archive|, unanswered, 0), checkpoint);
      if reply.Accept? { AnswersAreTruthful(patches, |s.archive|, reply.unanswered, 0); }
      var s2 := Apply(s1, upload);
      if s2.worker.Marking? {
        MarksReach(s2, clock);
      } else {
        assert s2 == t;
      }
      assert Reaches(s2, t);
      assert Enabled(s1, upload) && Reaches(Apply(s1, upload), t);
      assert Reaches(s1, t);
      assert Enabled(s, Fetch(from, batch)) && Reaches(Apply(s, Fetch(from, batch)), t);
    }
  }

  // ---------------------------------------------------------------- triggers

  datatype Trigger = Tick | Notify | Closed

  /** The notifications in `triggers[i..j]`. */
  function Notifications(triggers: seq<Trigger>, i: nat, j: nat): nat
    requires i <= j <= |triggers|
  {
    if i == j then 0 else Notifications(triggers, i, j - 1) + if triggers[j - 1].Notify? then 1 else 0
  }

  ghost function NotifiedIn(triggers: seq<Trigger>, i: nat, j: nat): set<nat>
    requires i <= j <= |triggers|
  {
    set k: nat | i <= k < j && triggers[k].Notify?
  }

  lemma {:induction false} NotificationsCount(triggers: seq<Trigger>, i: nat, j: nat)
    requires i <= j <= |triggers|
    ensures Notifications(triggers, i, j) == |NotifiedIn(triggers, i, j)|
  {
    if i == j {
      assert NotifiedIn(triggers, i, j) == {};
    } else {
      NotificationsCount(triggers, i, j - 1);
      assert NotifiedIn(triggers, i, j) == NotifiedIn(triggers, i, j - 1) + if triggers[j - 1].Notify? then {j - 1} else {};
    }
  }

  /** The position after the last of the cycles that came before `k`. */
  function SinceLast(cycles: seq<nat>, k: nat): (i: nat)
    ensures i <= k && (i > 0 ==> i - 1 in cycles)
    ensures forall c | i <= c < k :: c !in cycles
  {
    if k == 0 then 0 else if k - 1 in cycles then k else SinceLast(cycles, k - 1)
  }

  /** Later cycles do not matter to what came before them. */
  lemma {:induction false} SinceLastKept(cycles: seq<nat>, n: nat, k: nat)
    requires k <= n
    ensures SinceLast(cycles + [n], k) == SinceLast(cycles, k)
  {
    if k > 0 {
      SinceLastKept(cycles, n, k - 1);
    }
  }

  /** The channel has not been closed up to and including trigger `k`. */
  ghost predicate OpenAt(triggers: seq<Trigger>, k: int) {
    forall j | 0 <= j <= k && j < |triggers| :: !triggers[j].Closed?
  }

  /** The notifications since the last cycle, trigger `k` included, reach the threshold just now. */
  ghost predicate Completes(triggers: seq<Trigger>, threshold: nat, cycles: seq<nat>, k: nat)
    requires k < |triggers|
  {
    threshold > 0 && Notifications(triggers, SinceLast(cycles, k), k + 1) == threshold
  }

  /** Of the first `n` triggers every tick has started a cycle, and every notification that completed the threshold. */
  ghost predicate SyncsOnTime(triggers: seq<Trigger>, threshold: nat, cycles: seq<nat>, n: nat)
    requires n <= |triggers|
  {
    && (forall k | 0 <= k < n && triggers[k].Tick? :: k in cycles)
    && (forall k {:trigger Completes(triggers, threshold, cycles, k)} | 0 <= k < n && triggers[k].Notify? ::
          k in cycles <==> Completes(triggers, threshold, cycles, k))
  }

  lemma OneMoreCycle(triggers: seq<Trigger>, threshold: nat, cycles: seq<nat>, n: nat)
    requires n < |triggers| && SyncsOnTime(triggers, threshold, cycles, n) && n !in cycles
    requires triggers[n].Notify? ==> Completes(triggers, threshold, cycles, n)
    ensures SyncsOnTime(triggers, threshold, cycles + [n], n + 1)
    ensures Notifications(triggers, SinceLast(cycles + [n], n + 1), n + 1) == 0
  {
    forall k: nat | k <= n ensures Completes(triggers, threshold, cycles + [n], k) <==> Completes(triggers, threshold, cycles, k) {
      SinceLastKept(cycles, n, k);
    }
  }

  lemma NoCycleYet(triggers: seq<Trigger>, threshold: nat, cycles: seq<nat>, n: nat)
    requires n < |triggers| && SyncsOnTime(triggers, threshold, cycles, n) && n !in cycles
    requires triggers[n].Notify? && !Completes(triggers, threshold, cycles, n)
    ensures SyncsOnTime(triggers, threshold, cycles, n + 1)
    ensures Notifications(triggers, SinceLast(cycles, n + 1), n + 1) == Notifications(triggers, SinceLast(cycles, n), n) + 1
  {
  }

  lemma StopsAt(triggers: seq<Trigger>, n: nat)
    requires n < |triggers| && triggers[n].Closed?
    ensures Closed in triggers && forall k | n <= k < |triggers| :: !OpenAt(triggers, k)
  {
    assert triggers[n] in triggers;
  }

  /**
    The worker's loop over the triggers it receives; `cycles` are the positions at which it syncs: at
    every tick, and at the notification that completes the threshold since the last cycle.
   */
  method Run(triggers: seq<Trigger>, threshold: nat) returns (cycles: seq<nat>, stopped: bool)
    ensures stopped <==> Closed in triggers
    ensures forall k | k in cycles :: k < |triggers| && OpenAt(triggers, k)
    ensures forall i, j | 0 <= i < j < |cycles| :: cycles[i] < cycles[j]
    ensures forall k | 0 <= k < |triggers| && OpenAt(triggers, k) && triggers[k].Tick? :: k in cycles
    ensures forall k {:trigger Completes(triggers, threshold, cycles, k)}
      | 0 <= k < |triggers| && OpenAt(triggers, k) && triggers[k].Notify? ::
      k in cycles <==> Completes(triggers, threshold, cycles, k)
  {
    cycles := [];
    var messageCount := 0;
    for n := 0 to |triggers|
      invariant OpenAt(triggers, n - 1) && SyncsOnTime(triggers, threshold, cycles, n)
      invariant messageCount == Notifications(triggers, SinceLast(cycles, n), n)
      invariant threshold > 0 ==> messageCount < threshold
      invariant forall i | 0 <= i < |cycles| :: cycles[i] < n
      invariant forall i, j | 0 <= i < j < |cycles| :: cycles[i] < cycles[j]
    {
      match triggers[n] {
        case Tick =>
        case Notify =>
          messageCount := messageCount + 1;
          if threshold == 0 || messageCount < threshold {
            NoCycleYet(triggers, threshold, cycles, n);
            continue;
          }
        case Closed =>
          StopsAt(triggers, n);
          return cycles, true;
      }
      OneMoreCycle(triggers, threshold, cycles, n);
      cycles := cycles + [n];
      messageCount := 0;
    }
    stopped := false;
  }

  /**
    What this means, counting from the last cycle: with a threshold fewer than that many new messages
    ever wait, and the notification that would make them as many starts a cycle; without one, ticks alone do.
   */
  lemma {:induction false} ThresholdBoundsWaiting(triggers: seq<Trigger>, threshold: nat, cycles: seq<nat>, k: nat)
    requires k <= |triggers| && OpenAt(triggers, k - 1) && SyncsOnTime(triggers, threshold, cycles, k)
    ensures threshold > 0 ==> Notifications(triggers, SinceLast(cycles, k), k) < threshold
    ensures k > 0 && triggers[k - 1].Notify? ==>
      (k - 1 in cycles <==> threshold > 0 && Notifications(triggers, SinceLast(cycles, k - 1), k) == threshold)
    ensures threshold == 0 ==> forall j | 0 <= j < k :: j in cycles <==> triggers[j].Tick?
  {
    if k == 0 {
    } else {
      ThresholdBoundsWaiting(triggers, threshold, cycles, k - 1);
      assert triggers[k - 1].Notify? ==> (k - 1 in cycles <==> Completes(triggers, threshold, cycles, k - 1));
    }
  }
}
