/**
  The relayer's in-memory message store (relayer/src/storage/memory.rs): three coupled maps.

  The functions on `Store` say what one critical section does; `InMemoryStorage` is the object that
  updates its maps in place and is proved to do exactly that.
 */
module Storage {
  import opened Encoding
  import opened Messages
  import opened Sequences
  import opened Sorting
  import opened Wrappers

  datatype StorageError = NotFound(id: MessageId) | DuplicateId(id: MessageId) | DuplicateNonce

  datatype Store = Store(messages: map<MessageId, Message>, groupOrders: map<GroupId, int>, nonces: set<Bytes>)

  datatype Outcome = Outcome(store: Store, result: Result<Message, StorageError>)

  const EMPTY_STORE := Store(map[], map[], {})

  // ---------------------------------------------------------------- critical sections

  /** `next_order`: one more than the highest order handed out for the group. */
  function FollowingOrder(s: Store, groupId: GroupId): int {
    if groupId in s.groupOrders then s.groupOrders[groupId] + 1 else 1
  }

  function ReserveOrder(s: Store, groupId: GroupId): Store {
    s.(groupOrders := s.groupOrders[groupId := FollowingOrder(s, groupId)])
  }

  /** The part of `create_message` that runs under the message lock, after the order was reserved. */
  function Insert(s: Store, m: Message): Outcome {
    if m.id in s.messages then Outcome(s, Failure(DuplicateId(m.id)))
    else if m.content.nonce in s.nonces then Outcome(s, Failure(DuplicateNonce))
    else Outcome(s.(messages := s.messages[m.id := m], nonces := s.nonces + {m.content.nonce}), Success(m))
  }

  /** `create_message` run without interruption. */
  function Create(s: Store, draft: Message): Outcome {
    Insert(ReserveOrder(s, draft.groupId), draft.(order := Some(FollowingOrder(s, draft.groupId))))
  }

  function Update(s: Store, id: MessageId, content: Content, now: int): Outcome {
    if id !in s.messages then Outcome(s, Failure(NotFound(id)))
    else
      var m := s.messages[id];
      if m.content.nonce != content.nonce && content.nonce in s.nonces then Outcome(s, Failure(DuplicateNonce))
      else
        var m' := UpdateContent(m, content, now);
        Outcome(s.(messages := s.messages[id := m'], nonces := s.nonces - {m.content.nonce} + {content.nonce}),
                Success(m'))
  }

  function Delete(s: Store, id: MessageId, now: int): Outcome {
    if id !in s.messages then Outcome(s, Failure(NotFound(id)))
    else
      var m' := MarkForDeletion(s.messages[id], now);
      Outcome(s.(messages := s.messages[id := m']), Success(m'))
  }

  /** The status is overwritten whatever it was, and the update time moves. */
  function SetSyncStatus(s: Store, id: MessageId, status: SyncStatus, patch: Option<PatchId>, now: int): Outcome {
    if id !in s.messages then Outcome(s, Failure(NotFound(id)))
    else
      var m := s.messages[id].(syncStatus := status, updatedAt := now);
      var m' := if patch.Some? then m.(quiltPatchId := patch) else m;
      Outcome(s.(messages := s.messages[id := m']), Success(m'))
  }

  // ---------------------------------------------------------------- the store invariant

  ghost predicate KeyedById(ms: map<MessageId, Message>) {
    forall id | id in ms :: ms[id].id == id
  }

  ghost function StoredNonces(ms: map<MessageId, Message>): set<Bytes> {
    set id | id in ms :: ms[id].content.nonce
  }

  ghost predicate SharedNonce(ms: map<MessageId, Message>, a: MessageId, b: MessageId) {
    a in ms && b in ms && a != b && ms[a].content.nonce == ms[b].content.nonce
  }

  /** The nonce set is the set of stored nonces, and no two messages share one. */
  ghost predicate NonceIndex(s: Store) {
    s.nonces == StoredNonces(s.messages) && forall a, b {:trigger SharedNonce(s.messages, a, b)} :: !SharedNonce(s.messages, a, b)
  }

  /** `m` carries an order its group's counter has already handed out. */
  ghost predicate Numbered(m: Message, counters: map<GroupId, int>) {
    m.order.Some? && m.groupId in counters && 1 <= m.order.value <= counters[m.groupId]
  }

  ghost predicate SameSlot(a: Message, b: Message) {
    a.groupId == b.groupId && a.order == b.order
  }

  ghost predicate SharedOrder(ms: map<MessageId, Message>, a: MessageId, b: MessageId) {
    a in ms && b in ms && a != b && SameSlot(ms[a], ms[b])
  }

  ghost predicate OrdersDistinct(ms: map<MessageId, Message>) {
    forall a, b {:trigger SharedOrder(ms, a, b)} :: !SharedOrder(ms, a, b)
  }

  ghost predicate AllNumbered(s: Store) {
    && (forall g | g in s.groupOrders :: 1 <= s.groupOrders[g])
    && (forall id | id in s.messages :: Numbered(s.messages[id], s.groupOrders))
  }

  ghost predicate WellFormed(s: Store) {
    KeyedById(s.messages) && NonceIndex(s) && AllNumbered(s) && OrdersDistinct(s.messages)
  }

  /** A message survives with its identity, and its patch id is not lost. */
  ghost predicate Succeeds(m: Message, m': Message) {
    IdentityOf(m') == IdentityOf(m) && (m.quiltPatchId.Some? ==> m'.quiltPatchId.Some?)
  }

  ghost predicate Retains(before: map<MessageId, Message>, after: map<MessageId, Message>) {
    forall id | id in before :: id in after && Succeeds(before[id], after[id])
  }

  /** Every write stores one message and exchanges its nonce. */
  ghost function Put(s: Store, m: Message): Store {
    var released := if m.id in s.messages then {s.messages[m.id].content.nonce} else {};
    s.(messages := s.messages[m.id := m], nonces := s.nonces - released + {m.content.nonce})
  }

  ghost predicate NonceFree(s: Store, m: Message) {
    forall other | other in s.messages && other != m.id :: s.messages[other].content.nonce != m.content.nonce
  }

  lemma PutKeepsNonceIndex(s: Store, m: Message)
    requires KeyedById(s.messages) && NonceIndex(s) && NonceFree(s, m)
    ensures KeyedById(Put(s, m).messages) && NonceIndex(Put(s, m))
  {
    var s' := Put(s, m);
    forall a, b ensures !SharedNonce(s'.messages, a, b) {
      assert !SharedNonce(s.messages, a, b);
    }
    forall n ensures n in s'.nonces <==> n in StoredNonces(s'.messages) {
      if n in s'.nonces {
        if n == m.content.nonce {
          assert m.id in s'.messages;
        } else {
          var id :| id in s.messages && s.messages[id].content.nonce == n;
          assert id in s'.messages && s'.messages[id].content.nonce == n;
        }
      }
      if n in StoredNonces(s'.messages) {
        var id :| id in s'.messages && s'.messages[id].content.nonce == n;
        assert !SharedNonce(s.messages, id, m.id);
      }
    }
  }

  /** A nonce is refused exactly when another message holds it. */
  lemma NonceFreeIff(s: Store, m: Message)
    requires KeyedById(s.messages) && NonceIndex(s)
    ensures m.id !in s.messages ==> (NonceFree(s, m) <==> m.content.nonce !in s.nonces)
    ensures m.id in s.messages ==>
      (NonceFree(s, m) <==> s.messages[m.id].content.nonce == m.content.nonce || m.content.nonce !in s.nonces)
  {
    if m.content.nonce in s.nonces {
      var owner :| owner in s.messages && s.messages[owner].content.nonce == m.content.nonce;
    }
    if m.id in s.messages && s.messages[m.id].content.nonce == m.content.nonce {
      forall other | other in s.messages && other != m.id
        ensures s.messages[other].content.nonce != m.content.nonce
      {
        assert !SharedNonce(s.messages, other, m.id);
      }
    }
  }

  /** Replacing a stored message by one with the same identity keeps the numbering. */
  lemma PutKeepsWellFormed(s: Store, m: Message)
    requires WellFormed(s) && NonceFree(s, m)
    requires m.id in s.messages && Succeeds(s.messages[m.id], m)
    ensures WellFormed(Put(s, m)) && Retains(s.messages, Put(s, m).messages)
  {
    var s' := Put(s, m);
    PutKeepsNonceIndex(s, m);
    forall id | id in s'.messages ensures Numbered(s'.messages[id], s'.groupOrders) {
      assert Numbered(s.messages[id], s.groupOrders);
      assert IdentityOf(s'.messages[id]) == IdentityOf(s.messages[id]);
    }
    forall a, b ensures !SharedOrder(s'.messages, a, b) {
      assert !SharedOrder(s.messages, a, b);
      assert a in s.messages ==> IdentityOf(s'.messages[a]) == IdentityOf(s.messages[a]);
      assert b in s.messages ==> IdentityOf(s'.messages[b]) == IdentityOf(s.messages[b]);
    }
  }

  /** Storing a new message under an order nobody holds keeps the store well formed. */
  lemma PutNewKeepsWellFormed(s: Store, m: Message)
    requires WellFormed(s) && NonceFree(s, m) && m.id !in s.messages && Numbered(m, s.groupOrders)
    requires forall id | id in s.messages :: !SameSlot(s.messages[id], m)
    ensures WellFormed(Put(s, m)) && Retains(s.messages, Put(s, m).messages)
  {
    var s' := Put(s, m);
    PutKeepsNonceIndex(s, m);
    forall a, b ensures !SharedOrder(s'.messages, a, b) {
      assert !SharedOrder(s.messages, a, b);
      if a in s.messages { assert !SameSlot(s.messages[a], m); }
      if b in s.messages { assert !SameSlot(s.messages[b], m); }
    }
  }

  lemma ReserveKeepsWellFormed(s: Store, groupId: GroupId)
    requires WellFormed(s)
    ensures WellFormed(ReserveOrder(s, groupId))
  {
  }

  /** A create that is not interrupted keeps the invariant; a rejected one only burns an order. */
  lemma CreateKeepsWellFormed(s: Store, draft: Message)
    requires WellFormed(s)
    ensures WellFormed(Create(s, draft).store)
    ensures Retains(s.messages, Create(s, draft).store.messages)
    ensures Create(s, draft).result.Failure? ==> Create(s, draft).store == ReserveOrder(s, draft.groupId)
    ensures Create(s, draft).result.Success? <==>
              draft.id !in s.messages && forall id | id in s.messages :: s.messages[id].content.nonce != draft.content.nonce
    ensures Create(s, draft).result.Failure? ==>
              Create(s, draft).result.error == if draft.id in s.messages then DuplicateId(draft.id) else DuplicateNonce
  {
    var reserved := ReserveOrder(s, draft.groupId);
    var m := draft.(order := Some(FollowingOrder(s, draft.groupId)));
    ReserveKeepsWellFormed(s, draft.groupId);
    NonceFreeIff(reserved, m);
    if Create(s, draft).result.Success? {
      forall id | id in reserved.messages ensures !SameSlot(reserved.messages[id], m) {
        assert Numbered(s.messages[id], s.groupOrders);
      }
      PutNewKeepsWellFormed(reserved, m);
      assert Create(s, draft).store == Put(reserved, m);
    }
  }

  /** An edit is refused exactly when the message is unknown or another message holds the nonce. */
  lemma UpdateKeepsWellFormed(s: Store, id: MessageId, content: Content, now: int)
    requires WellFormed(s)
    ensures WellFormed(Update(s, id, content, now).store)
    ensures Retains(s.messages, Update(s, id, content, now).store.messages)
    ensures Update(s, id, content, now).result.Failure? ==> Update(s, id, content, now).store == s
    ensures Update(s, id, content, now).result.Success? <==>
              id in s.messages && forall other | other in s.messages && other != id ::
                s.messages[other].content.nonce != content.nonce
    ensures Update(s, id, content, now).result.Failure? ==>
              Update(s, id, content, now).result.error == if id in s.messages then DuplicateNonce else NotFound(id)
  {
    if id in s.messages {
      var m' := UpdateContent(s.messages[id], content, now);
      NonceFreeIff(s, m');
      if Update(s, id, content, now).result.Success? {
        PutKeepsWellFormed(s, m');
        assert Update(s, id, content, now).store == Put(s, m');
      }
    }
  }

  lemma StatusWritesKeepWellFormed(s: Store, id: MessageId, status: SyncStatus, patch: Option<PatchId>, now: int)
    requires WellFormed(s)
    ensures WellFormed(Delete(s, id, now).store)
    ensures Retains(s.messages, Delete(s, id, now).store.messages)
    ensures WellFormed(SetSyncStatus(s, id, status, patch, now).store)
    ensures Retains(s.messages, SetSyncStatus(s, id, status, patch, now).store.messages)
    ensures id !in s.messages ==> Delete(s, id, now) == Outcome(s, Failure(NotFound(id))) == SetSyncStatus(s, id, status, patch, now)
    ensures id in s.messages ==> Delete(s, id, now).result.Success? && SetSyncStatus(s, id, status, patch, now).result.Success?
  {
    if id in s.messages {
      var deleted := Delete(s, id, now).result.value;
      NonceFreeIff(s, deleted);
      PutKeepsWellFormed(s, deleted);
      assert Delete(s, id, now).store == Put(s, deleted);
      var marked := SetSyncStatus(s, id, status, patch, now).result.value;
      NonceFreeIff(s, marked);
      PutKeepsWellFormed(s, marked);
      assert SetSyncStatus(s, id, status, patch, now).store == Put(s, marked);
    }
  }

  // ---------------------------------------------------------------- queries

  predicate InRange(order: int, after: Option<int>, before: Option<int>) {
    (after.Some? ==> order > after.value) && (before.Some? ==> order < before.value)
  }

  predicate Matches(m: Message, groupId: GroupId, after: Option<int>, before: Option<int>) {
    m.groupId == groupId && InRange(OrderOf(m), after, before)
  }

  /** The messages a query for the group and bounds is about. */
  ghost function Matching(ms: map<MessageId, Message>, groupId: GroupId, after: Option<int>, before: Option<int>): set<Message> {
    set id | id in ms && Matches(ms[id], groupId, after, before) :: ms[id]
  }

  /** `r` lists exactly the messages in `ms`, by strictly increasing order. */
  ghost predicate Lists(r: seq<Message>, ms: set<Message>) {
    StrictlySortedBy(OrderOf, r) && forall m :: m in r <==> m in ms
  }

  ghost predicate DistinctIds(ms: seq<Message>) {
    forall i, j | 0 <= i < j < |ms| :: ms[i].id != ms[j].id
  }

  /** `vs` lists the values of the map once each; a hash map does so in no particular order. */
  ghost predicate Enumerates(vs: seq<Message>, ms: map<MessageId, Message>) {
    DistinctIds(vs) && forall m :: m in vs <==> m.id in ms && ms[m.id] == m
  }

  /** The page is the first `limit` entries of the listing of all matching messages. */
  ghost predicate IsPage(r: seq<Message>, s: Store, groupId: GroupId, after: Option<int>, before: Option<int>, limit: nat) {
    exists all :: Lists(all, Matching(s.messages, groupId, after, before)) && r == Take(all, limit)
  }

  lemma PageUnique(r: seq<Message>, all: seq<Message>, s: Store, groupId: GroupId, after: Option<int>, before: Option<int>, limit: nat)
    requires IsPage(r, s, groupId, after, before, limit)
    requires Lists(all, Matching(s.messages, groupId, after, before))
    ensures r == Take(all, limit)
  {
    var all' :| Lists(all', Matching(s.messages, groupId, after, before)) && r == Take(all', limit);
    StrictlySortedUnique(OrderOf, all, all');
  }

  /** Sorting the filtered values gives the listing, whatever the map's iteration order. */
  lemma SortedValuesList(vs: seq<Message>, s: Store, groupId: GroupId, after: Option<int>, before: Option<int>)
    requires WellFormed(s) && Enumerates(vs, s.messages)
    ensures Lists(SortBy(OrderOf, Filter((m: Message) => Matches(m, groupId, after, before), vs)),
                  Matching(s.messages, groupId, after, before))
  {
    var p := (m: Message) => Matches(m, groupId, after, before);
    var f := Filter(p, vs);
    FilterMembers(p, vs);
    FilterKeepsPairs(p, (a: Message, b: Message) => a.id != b.id, vs);
    forall i, j | 0 <= i < j < |f| ensures OrderOf(f[i]) != OrderOf(f[j]) {
      assert f[i] in f && f[j] in f;
      assert Numbered(s.messages[f[i].id], s.groupOrders) && Numbered(s.messages[f[j].id], s.groupOrders);
      assert !SharedOrder(s.messages, f[i].id, f[j].id);
    }
    SortByStrict(OrderOf, f);
  }

  /** A well-formed store lists every query. */
  lemma ListingExists(s: Store, groupId: GroupId, after: Option<int>, before: Option<int>) returns (all: seq<Message>)
    requires WellFormed(s)
    ensures Lists(all, Matching(s.messages, groupId, after, before))
  {
    var vs := EnumerationExists(s.messages);
    SortedValuesList(vs, s, groupId, after, before);
    all := SortBy(OrderOf, Filter((m: Message) => Matches(m, groupId, after, before), vs));
  }

  lemma {:induction false} KeysListed(ids: set<MessageId>) returns (listed: seq<MessageId>)
    ensures Distinct(listed) && forall id :: id in listed <==> id in ids
  {
    if ids == {} {
      listed := [];
    } else {
      var id :| id in ids;
      var rest := KeysListed(ids - {id});
      listed := [id] + rest;
    }
  }

  lemma EnumerationExists(ms: map<MessageId, Message>) returns (vs: seq<Message>)
    requires KeyedById(ms)
    ensures Enumerates(vs, ms)
  {
    var ids := KeysListed(ms.Keys);
    vs := seq(|ids|, i requires 0 <= i < |ids| && ids[i] in ms => ms[ids[i]]);
    forall m ensures m in vs <==> m.id in ms && ms[m.id] == m {
      if m.id in ms && ms[m.id] == m {
        var i :| 0 <= i < |ids| && ids[i] == m.id;
        assert vs[i] == m;
      }
    }
  }

  ghost function WithStatus(ms: map<MessageId, Message>, status: SyncStatus): set<MessageId> {
    set id | id in ms && ms[id].syncStatus == status
  }

  /** Any `limit` of the messages with the status, or all of them when there are fewer. */
  ghost predicate IsBatch(batch: seq<Message>, ms: map<MessageId, Message>, status: SyncStatus, limit: nat) {
    && DistinctIds(batch)
    && (forall m | m in batch :: m.id in ms && ms[m.id] == m && m.syncStatus == status)
    && |batch| == Min(limit, |WithStatus(ms, status)|)
  }

  lemma StatusCount(f: seq<Message>, ms: map<MessageId, Message>, status: SyncStatus)
    requires KeyedById(ms) && DistinctIds(f) && forall m :: m in f <==> m.id in ms && ms[m.id] == m && m.syncStatus == status
    ensures |f| == |WithStatus(ms, status)|
  {
    var ids := seq(|f|, i requires 0 <= i < |f| => f[i].id);
    forall x ensures x in ids <==> x in WithStatus(ms, status) {
      if x in WithStatus(ms, status) {
        assert ms[x] in f;
        var i :| 0 <= i < |f| && f[i] == ms[x];
        assert ids[i] == x;
      }
      if x in ids {
        var i :| 0 <= i < |ids| && ids[i] == x;
        assert f[i] in f;
      }
    }
    DistinctCardinality(ids, WithStatus(ms, status));
  }

  lemma TakenBatch(vs: seq<Message>, ms: map<MessageId, Message>, status: SyncStatus, limit: nat)
    requires KeyedById(ms) && Enumerates(vs, ms)
    ensures IsBatch(Take(Filter((m: Message) => m.syncStatus == status, vs), limit), ms, status, limit)
  {
    var p := (m: Message) => m.syncStatus == status;
    var f := Filter(p, vs);
    FilterMembers(p, vs);
    FilterKeepsPairs(p, (a: Message, b: Message) => a.id != b.id, vs);
    StatusCount(f, ms, status);
    forall m | m in Take(f, limit) ensures m in f {}
  }

  // ---------------------------------------------------------------- the object

  /** `HashMap::values`: the values once each, in an order the caller cannot choose. */
  method Values(ms: map<MessageId, Message>) returns (vs: seq<Message>)
    requires KeyedById(ms)
    ensures Enumerates(vs, ms)
  {
    vs := [];
    var rest := ms.Keys;
    while rest != {}
      invariant rest <= ms.Keys
      invariant DistinctIds(vs)
      invariant forall m :: m in vs <==> m.id in ms.Keys - rest && ms[m.id] == m
      decreases rest
    {
      var id :| id in rest;
      rest := rest - {id};
      vs := vs + [ms[id]];
    }
  }

  class InMemoryStorage {
    var messages: map<MessageId, Message>
    var groupOrders: map<GroupId, int>
    var nonces: set<Bytes>

    ghost function State(): Store
      reads this
    {
      Store(messages, groupOrders, nonces)
    }

    constructor ()
      ensures State() == EMPTY_STORE && WellFormed(State())
    {
      messages, groupOrders, nonces := map[], map[], {};
    }

    method NextOrder(groupId: GroupId) returns (order: int)
      modifies this`groupOrders
      ensures order == FollowingOrder(old(State()), groupId)
      ensures State() == ReserveOrder(old(State()), groupId)
    {
      order := if groupId in groupOrders then groupOrders[groupId] + 1 else 1;
      groupOrders := groupOrders[groupId := order];
    }

    method CreateMessage(draft: Message) returns (r: Result<Message, StorageError>)
      modifies this
      ensures Outcome(State(), r) == Create(old(State()), draft)
      ensures old(WellFormed(State())) ==> WellFormed(State())
    {
      if WellFormed(State()) { CreateKeepsWellFormed(State(), draft); }
      var order := NextOrder(draft.groupId);
      var message := draft.(order := Some(order));
      if message.id in messages {
        return Failure(DuplicateId(message.id));
      }
      if message.content.nonce in nonces {
        return Failure(DuplicateNonce);
      }
      nonces := nonces + {message.content.nonce};
      messages := messages[message.id := message];
      r := Success(message);
    }

    method UpdateMessage(id: MessageId, content: Content, now: int) returns (r: Result<Message, StorageError>)
      modifies this
      ensures Outcome(State(), r) == Update(old(State()), id, content, now)
      ensures old(WellFormed(State())) ==> WellFormed(State())
    {
      if WellFormed(State()) { UpdateKeepsWellFormed(State(), id, content, now); }
      if id !in messages {
        return Failure(NotFound(id));
      }
      var message := messages[id];
      if message.content.nonce != content.nonce && content.nonce in nonces {
        return Failure(DuplicateNonce);
      }
      nonces := nonces - {message.content.nonce};
      nonces := nonces + {content.nonce};
      message := UpdateContent(message, content, now);
      messages := messages[id := message];
      r := Success(message);
    }

    method DeleteMessage(id: MessageId, now: int) returns (r: Result<Message, StorageError>)
      modifies this`messages
      ensures Outcome(State(), r) == Delete(old(State()), id, now)
      ensures old(WellFormed(State())) ==> WellFormed(State())
    {
      if WellFormed(State()) { StatusWritesKeepWellFormed(State(), id, Deleted, None, now); }
      if id !in messages {
        return Failure(NotFound(id));
      }
      var message := MarkForDeletion(messages[id], now);
      messages := messages[id := message];
      r := Success(message);
    }

    method UpdateSyncStatus(id: MessageId, status: SyncStatus, patch: Option<PatchId>, now: int)
      returns (r: Result<Message, StorageError>)
      modifies this`messages
      ensures Outcome(State(), r) == SetSyncStatus(old(State()), id, status, patch, now)
      ensures old(WellFormed(State())) ==> WellFormed(State())
    {
      if WellFormed(State()) { StatusWritesKeepWellFormed(State(), id, status, patch, now); }
      if id !in messages {
        return Failure(NotFound(id));
      }
      var message := messages[id].(syncStatus := status, updatedAt := now);
      if patch.Some? {
        message := message.(quiltPatchId := patch);
      }
      messages := messages[id := message];
      r := Success(message);
    }

    method GetMessage(id: MessageId) returns (r: Result<Message, StorageError>)
      ensures r == if id in messages then Success(messages[id]) else Failure(NotFound(id))
    {
      r := if id in messages then Success(messages[id]) else Failure(NotFound(id));
    }

    method GetMessagesByGroup(groupId: GroupId, after: Option<int>, before: Option<int>, limit: nat)
      returns (page: seq<Message>)
      requires WellFormed(State())
      ensures IsPage(page, State(), groupId, after, before, limit)
    {
      var values := Values(messages);
      SortedValuesList(values, State(), groupId, after, before);
      var filtered := Filter((m: Message) => Matches(m, groupId, after, before), values);
      filtered := SortBy(OrderOf, filtered);
      page := Take(filtered, limit);
    }

    method GetMessagesBySyncStatus(status: SyncStatus, limit: nat) returns (batch: seq<Message>)
      requires WellFormed(State())
      ensures IsBatch(batch, messages, status, limit)
    {
      var values := Values(messages);
      TakenBatch(values, messages, status, limit);
      batch := Take(Filter((m: Message) => m.syncStatus == status, values), limit);
    }
  }
}
