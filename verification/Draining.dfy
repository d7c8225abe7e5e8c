/**
  Left alone, the worker drains: with no client writes and an archive that answers for every patch,
  each cycle finishes a full batch of every pending status, and each message is uploaded once.
 */
module Draining {
  import opened Messages
  import opened Relayer
  import opened Sequences
  import opened Storage
  import opened WalrusSync

  ghost function Ids(batch: seq<Message>): set<MessageId> {
    set m | m in batch :: m.id
  }

  lemma IdsFrom(batch: seq<Message>, i: nat)
    requires i < |batch|
    ensures Ids(batch[i..]) == {batch[i].id} + Ids(batch[i + 1..])
  {
    assert batch[i..] == [batch[i]] + batch[i + 1..];
    forall id ensures id in Ids(batch[i..]) <==> id in {batch[i].id} + Ids(batch[i + 1..]) {}
  }

  lemma {:induction false} MarkAllFinishes(s: Store, batch: seq<Message>, to: SyncStatus, answers: map<string, PatchId>,
                                           clock: nat -> int, i: nat)
    requires i <= |batch| && forall m | m in batch :: m.id in s.messages && Identifier(m.id) in answers
    ensures var s' := MarkAll(s, batch, to, answers, clock, i);
      && s'.messages.Keys == s.messages.Keys && s'.groupOrders == s.groupOrders && s'.nonces == s.nonces
      && (forall id | id in s.messages && id !in Ids(batch[i..]) :: s'.messages[id] == s.messages[id])
      && (forall id | id in Ids(batch[i..]) ::
            && id in s.messages && s'.messages[id].syncStatus == to
            && s'.messages[id].id == s.messages[id].id
            && s'.messages[id].content == s.messages[id].content)
    decreases |batch| - i
  {
    if i == |batch| {
    } else {
      var m := batch[i];
      assert m in batch;
      var s1 := MarkOne(s, m, to, answers, clock(i));
      MarkAllFinishes(s1, batch, to, answers, clock, i + 1);
      IdsFrom(batch, i);
    }
  }

  lemma {:induction false} AllPatched(batch: seq<Message>, to: SyncStatus)
    ensures |PatchesOf(batch, to, {})| == |batch|
    ensures forall k | 0 <= k < |batch| :: PatchesOf(batch, to, {})[k] == PatchOf(batch[k], to)
  {
    if batch == [] {
    } else {
      AllPatched(batch[1..], to);
    }
  }

  // ---------------------------------------------------------------- counting uploads

  function CountPatches(patches: seq<Patch>, id: MessageId): nat {
    if patches == [] then 0 else CountPatches(patches[1..], id) + if patches[0].body.id == id then 1 else 0
  }

  /** How many uploaded patches carry the message. */
  function Uploads(archive: seq<Quilt>, id: MessageId): nat {
    if archive == [] then 0
    else Uploads(archive[..|archive| - 1], id) + CountPatches(archive[|archive| - 1].patches, id)
  }

  lemma IdsSplit(batch: seq<Message>)
    requires DistinctIds(batch) && batch != []
    ensures Ids(batch) == {batch[0].id} + Ids(batch[1..]) && batch[0].id !in Ids(batch[1..]) && DistinctIds(batch[1..])
  {
  }

  lemma {:induction false} BatchPatchedOnce(batch: seq<Message>, to: SyncStatus, id: MessageId)
    requires DistinctIds(batch)
    ensures CountPatches(PatchesOf(batch, to, {}), id) == if id in Ids(batch) then 1 else 0
  {
    if batch == [] {
    } else {
      IdsSplit(batch);
      BatchPatchedOnce(batch[1..], to, id);
      assert PatchesOf(batch, to, {})[1..] == PatchesOf(batch[1..], to, {});
    }
  }

  lemma IdsCardinality(batch: seq<Message>)
    requires DistinctIds(batch)
    ensures |Ids(batch)| == |batch|
  {
    var ids := seq(|batch|, i requires 0 <= i < |batch| => batch[i].id);
    forall x ensures x in ids <==> x in Ids(batch) {
      if x in Ids(batch) {
        var i :| 0 <= i < |batch| && batch[i].id == x;
        assert ids[i] == x;
      }
    }
    DistinctCardinality(ids, Ids(batch));
  }

  /** Between the two archives exactly the messages in `done` were uploaded, once each. */
  ghost predicate UploadedOnce(archive: seq<Quilt>, archive': seq<Quilt>, done: set<MessageId>) {
    forall id {:trigger Uploads(archive', id)} ::
      Uploads(archive', id) == Uploads(archive, id) + if id in done then 1 else 0
  }

  lemma UploadedOnceTwice(a: seq<Quilt>, b: seq<Quilt>, c: seq<Quilt>, done1: set<MessageId>, done2: set<MessageId>)
    requires UploadedOnce(a, b, done1) && UploadedOnce(b, c, done2) && done1 !! done2
    ensures UploadedOnce(a, c, done1 + done2)
  {
  }

  // ---------------------------------------------------------------- one pass

  lemma BatchUploadedOnce(batch: seq<Message>, archive: seq<Quilt>, to: SyncStatus, checkpoint: nat)
    requires DistinctIds(batch)
    ensures UploadedOnce(archive, archive + [Quilt(PatchesOf(batch, to, {}), checkpoint)], Ids(batch))
  {
    var archive' := archive + [Quilt(PatchesOf(batch, to, {}), checkpoint)];
    assert archive'[..|archive|] == archive;
    forall id ensures Uploads(archive', id) == Uploads(archive, id) + if id in Ids(batch) then 1 else 0 {
      BatchPatchedOnce(batch, to, id);
    }
  }

  lemma AllAnswered(batch: seq<Message>, to: SyncStatus, quilt: nat)
    ensures forall m: Message | m in batch :: Identifier(m.id) in AnswersOf(PatchesOf(batch, to, {}), quilt, {}, 0)
  {
    var patches := PatchesOf(batch, to, {});
    AllPatched(batch, to);
    AnswersAreTruthful(patches, quilt, {}, 0);
    forall m: Message | m in batch ensures Identifier(m.id) in AnswersOf(patches, quilt, {}, 0) {
      var k :| 0 <= k < |batch| && batch[k] == m;
      assert patches[k].identifier == Identifier(m.id);
    }
  }

  /** Marking a batch in full takes exactly its messages out of the pending status. */
  lemma MarkedBatch(s: Store, batch: seq<Message>, from: SyncStatus, limit: nat, answers: map<string, PatchId>, clock: nat -> int)
    requires KeyedById(s.messages) && IsPending(from) && IsBatch(batch, s.messages, from, limit)
    requires forall m: Message | m in batch :: Identifier(m.id) in answers
    ensures var s' := MarkAll(s, batch, Target(from), answers, clock, 0);
      && KeyedById(s'.messages) && Ids(batch) <= WithStatus(s.messages, from)
      && forall st | IsPending(st) :: WithStatus(s'.messages, st) == WithStatus(s.messages, st) - (if st == from then Ids(batch) else {})
  {
    MarkAllFinishes(s, batch, Target(from), answers, clock, 0);
    assert batch[0..] == batch;
    FinishedLeave(s, MarkAll(s, batch, Target(from), answers, clock, 0), Ids(batch), from);
  }

  lemma FinishedLeave(s: Store, s': Store, ids: set<MessageId>, from: SyncStatus)
    requires IsPending(from) && ids <= WithStatus(s.messages, from) && s'.messages.Keys == s.messages.Keys
    requires forall id | id in s.messages ::
      if id in ids then s'.messages[id].syncStatus == Target(from) else s'.messages[id] == s.messages[id]
    ensures forall st | IsPending(st) :: WithStatus(s'.messages, st) == WithStatus(s.messages, st) - (if st == from then ids else {})
  {
  }

  /** A full pass takes min(limit, n) messages out of its pending status and uploads exactly those, once. */
  lemma FullPassProgress(s: Store, archive: seq<Quilt>, limit: nat, from: SyncStatus, s': Store, archive': seq<Quilt>)
    returns (done: set<MessageId>)
    requires KeyedById(s.messages) && IsPending(from) && FullPass(s, archive, limit, from, s', archive')
    ensures KeyedById(s'.messages) && UploadedOnce(archive, archive', done)
    ensures done <= WithStatus(s.messages, from) && |done| == Min(limit, |WithStatus(s.messages, from)|)
    ensures WithStatus(s'.messages, from) == WithStatus(s.messages, from) - done
    ensures forall other | IsPending(other) && other != from :: WithStatus(s'.messages, other) == WithStatus(s.messages, other)
  {
    var batch, checkpoint, clock :| IsBatch(batch, s.messages, from, limit)
      && PassResult(s', archive', true) == Pass(s, archive, batch, Target(from), {}, Accept({}), checkpoint, clock);
    var to := Target(from);
    done := Ids(batch);
    AllPatched(batch, to);
    IdsCardinality(batch);
    AllAnswered(batch, to, |archive|);
    MarkedBatch(s, batch, from, limit, AnswersOf(PatchesOf(batch, to, {}), |archive|, {}, 0), clock);
    BatchUploadedOnce(batch, archive, to, checkpoint);
  }

  // ---------------------------------------------------------------- whole cycles

  ghost function PendingIds(s: Store): set<MessageId> {
    set id | id in s.messages && IsPending(s.messages[id].syncStatus)
  }

  lemma PendingByStatus(s: Store)
    ensures PendingIds(s) == WithStatus(s.messages, SyncPending) + WithStatus(s.messages, UpdatePending) + WithStatus(s.messages, DeletePending)
  {
  }

  /** Removing messages from each pending status removes their union from the pending ones. */
  lemma PendingAfter(s: Store, s': Store, created: set<MessageId>, edited: set<MessageId>, deleted: set<MessageId>)
    requires created <= WithStatus(s.messages, SyncPending) && edited <= WithStatus(s.messages, UpdatePending)
    requires deleted <= WithStatus(s.messages, DeletePending)
    requires WithStatus(s'.messages, SyncPending) == WithStatus(s.messages, SyncPending) - created
    requires WithStatus(s'.messages, UpdatePending) == WithStatus(s.messages, UpdatePending) - edited
    requires WithStatus(s'.messages, DeletePending) == WithStatus(s.messages, DeletePending) - deleted
    ensures created !! edited && (created + edited) !! deleted
    ensures PendingIds(s') <= PendingIds(s) && PendingIds(s) - PendingIds(s') == created + edited + deleted
  {
    PendingByStatus(s);
    PendingByStatus(s');
    forall id ensures id in PendingIds(s) - PendingIds(s') <==> id in created + edited + deleted {}
  }

  ghost predicate Drops(s: Store, s': Store, limit: nat, st: SyncStatus) {
    |WithStatus(s'.messages, st)| == |WithStatus(s.messages, st)| - Min(limit, |WithStatus(s.messages, st)|)
  }

  lemma ThreePasses(s: Store, archive: seq<Quilt>, limit: nat, s1: Store, a1: seq<Quilt>, s2: Store, a2: seq<Quilt>,
                    s': Store, archive': seq<Quilt>)
    returns (created: set<MessageId>, edited: set<MessageId>, deleted: set<MessageId>)
    requires KeyedById(s.messages) && FullPass(s, archive, limit, SyncPending, s1, a1)
    requires FullPass(s1, a1, limit, UpdatePending, s2, a2) && FullPass(s2, a2, limit, DeletePending, s', archive')
    ensures KeyedById(s'.messages)
    ensures created <= WithStatus(s.messages, SyncPending) && |created| == Min(limit, |WithStatus(s.messages, SyncPending)|)
    ensures edited <= WithStatus(s.messages, UpdatePending) && |edited| == Min(limit, |WithStatus(s.messages, UpdatePending)|)
    ensures deleted <= WithStatus(s.messages, DeletePending) && |deleted| == Min(limit, |WithStatus(s.messages, DeletePending)|)
    ensures WithStatus(s'.messages, SyncPending) == WithStatus(s.messages, SyncPending) - created
    ensures WithStatus(s'.messages, UpdatePending) == WithStatus(s.messages, UpdatePending) - edited
    ensures WithStatus(s'.messages, DeletePending) == WithStatus(s.messages, DeletePending) - deleted
    ensures UploadedOnce(archive, a1, created) && UploadedOnce(a1, a2, edited) && UploadedOnce(a2, archive', deleted)
  {
    created := FullPassProgress(s, archive, limit, SyncPending, s1, a1);
    edited := FullPassProgress(s1, a1, limit, UpdatePending, s2, a2);
    deleted := FullPassProgress(s2, a2, limit, DeletePending, s', archive');
  }

  lemma CycleProgress(s: Store, archive: seq<Quilt>, limit: nat, s': Store, archive': seq<Quilt>)
    requires KeyedById(s.messages) && FullCycle(s, archive, limit, s', archive')
    ensures KeyedById(s'.messages) && PendingIds(s') <= PendingIds(s)
    ensures Drops(s, s', limit, SyncPending) && Drops(s, s', limit, UpdatePending) && Drops(s, s', limit, DeletePending)
    ensures UploadedOnce(archive, archive', PendingIds(s) - PendingIds(s'))
  {
    var s1, a1, s2, a2 :| FullPass(s, archive, limit, SyncPending, s1, a1)
      && FullPass(s1, a1, limit, UpdatePending, s2, a2) && FullPass(s2, a2, limit, DeletePending, s', archive');
    var created, edited, deleted := ThreePasses(s, archive, limit, s1, a1, s2, a2, s', archive');
    PendingAfter(s, s', created, edited, deleted);
    UploadedOnceTwice(archive, a1, a2, created, edited);
    UploadedOnceTwice(archive, a2, archive', created + edited, deleted);
  }

  ghost predicate Cycles(stores: seq<Store>, archives: seq<seq<Quilt>>, limit: nat) {
    && 0 < |stores| == |archives|
    && forall k | 0 <= k < |stores| - 1 :: FullCycle(stores[k], archives[k], limit, stores[k + 1], archives[k + 1])
  }

  function Remaining(n: nat, limit: nat, cycles: nat): nat {
    if n <= cycles * limit then 0 else n - cycles * limit
  }

  ghost predicate Drained(stores: seq<Store>, limit: nat, k: nat, st: SyncStatus)
    requires k < |stores|
  {
    |WithStatus(stores[k].messages, st)| == Remaining(|WithStatus(stores[0].messages, st)|, limit, k)
  }

  lemma DrainedStep(stores: seq<Store>, limit: nat, k: nat, st: SyncStatus)
    requires 0 < k < |stores| && Drained(stores, limit, k - 1, st) && Drops(stores[k - 1], stores[k], limit, st)
    ensures Drained(stores, limit, k, st)
  {
  }

  /**
    After k cycles every pending status has lost k full batches, and the messages no longer pending
    have been uploaded exactly once each, the others not at all.
   */
  lemma {:induction false} CyclesDrain(stores: seq<Store>, archives: seq<seq<Quilt>>, limit: nat, k: nat)
    requires Cycles(stores, archives, limit) && k < |stores| && KeyedById(stores[0].messages)
    ensures KeyedById(stores[k].messages) && PendingIds(stores[k]) <= PendingIds(stores[0])
    ensures Drained(stores, limit, k, SyncPending) && Drained(stores, limit, k, UpdatePending) && Drained(stores, limit, k, DeletePending)
    ensures UploadedOnce(archives[0], archives[k], PendingIds(stores[0]) - PendingIds(stores[k]))
  {
    if k == 0 {
    } else {
      CyclesDrain(stores, archives, limit, k - 1);
      CycleProgress(stores[k - 1], archives[k - 1], limit, stores[k], archives[k]);
      DrainedStep(stores, limit, k, SyncPending);
      DrainedStep(stores, limit, k, UpdatePending);
      DrainedStep(stores, limit, k, DeletePending);
      var p0, p1, p2 := PendingIds(stores[0]), PendingIds(stores[k - 1]), PendingIds(stores[k]);
      UploadedOnceTwice(archives[0], archives[k - 1], archives[k], p0 - p1, p1 - p2);
      assert (p0 - p1) + (p1 - p2) == p0 - p2;
    }
  }

  /** Enough cycles for the fullest status leave nothing pending, every message uploaded exactly once. */
  lemma DrainedAfterEnoughCycles(stores: seq<Store>, archives: seq<seq<Quilt>>, limit: nat, k: nat)
    requires Cycles(stores, archives, limit) && k < |stores| && KeyedById(stores[0].messages)
    requires forall st | IsPending(st) :: |WithStatus(stores[0].messages, st)| <= k * limit
    ensures PendingIds(stores[k]) == {}
    ensures UploadedOnce(archives[0], archives[k], PendingIds(stores[0]))
  {
    CyclesDrain(stores, archives, limit, k);
    PendingByStatus(stores[k]);
    assert |WithStatus(stores[k].messages, SyncPending)| == 0;
    assert |WithStatus(stores[k].messages, UpdatePending)| == 0;
    assert |WithStatus(stores[k].messages, DeletePending)| == 0;
    assert PendingIds(stores[0]) - PendingIds(stores[k]) == PendingIds(stores[0]);
  }
}
