/**
  The SDK's polling subscription (ts-sdks/packages/sui-stack-messaging/src/relayer/http-transport.ts:372-402)
  against a relayer that other clients and the sync worker keep changing.
 */
module Subscription {
  import opened Messages
  import opened Paging
  import opened Relayer
  import opened Sequences
  import opened Sorting
  import opened Storage
  import opened Wrappers

  /** `buffer` is the part of the last page not yet handed to the consumer. */
  datatype Subscriber = Subscriber(
    groupId: GroupId, start: Option<int>, limit: nat,
    lastOrder: Option<int>, buffer: seq<Message>, yielded: seq<Message>)

  datatype Feed = Feed(relayer: System, sub: Subscriber)

  datatype FeedAction =
    | Relay(a: Action)
    | Poll(page: seq<Message>)
    | PollFails
    | Deliver

  ghost predicate Enabled(f: Feed, a: FeedAction) {
    match a
    case Relay(ra) => Relayer.Enabled(f.relayer, ra)
    case Poll(page) =>
      f.sub.buffer == [] && IsPage(page, f.relayer.store, f.sub.groupId, f.sub.lastOrder, None, f.sub.limit)
    case PollFails => f.sub.buffer == []
    case Deliver => f.sub.buffer != []
  }

  function Apply(f: Feed, a: FeedAction): Feed {
    match a
    case Relay(ra) => f.(relayer := Relayer.Apply(f.relayer, ra))
    case Poll(page) => f.(sub := f.sub.(buffer := page))
    case PollFails => f
    case Deliver => f.(sub := DeliverOne(f.sub))
  }

  function DeliverOne(sub: Subscriber): Subscriber {
    if sub.buffer == [] then sub
    else
      var m := sub.buffer[0];
      sub.(lastOrder := Some(OrderOf(m)), buffer := sub.buffer[1..], yielded := sub.yielded + [m])
  }

  ghost predicate Step(f: Feed, a: FeedAction, f': Feed) {
    Enabled(f, a) && f' == Apply(f, a)
  }

  function Subscribe(relayer: System, groupId: GroupId, start: Option<int>, limit: nat): Feed {
    Feed(relayer, Subscriber(groupId, start, limit, start, [], []))
  }

  /** A run that subscribes at an arbitrary reachable relayer state. */
  ghost predicate IsFeed(feeds: seq<Feed>, acts: seq<FeedAction>) {
    && |feeds| == |acts| + 1
    && SystemInv(feeds[0].relayer)
    && feeds[0] == Subscribe(feeds[0].relayer, feeds[0].sub.groupId, feeds[0].sub.start, feeds[0].sub.limit)
    && forall i | 0 <= i < |acts| :: Step(feeds[i], acts[i], feeds[i + 1])
  }

  /** Everything fetched so far, delivered or about to be. */
  function Seen(sub: Subscriber): seq<Message> {
    sub.yielded + sub.buffer
  }

  /** The highest order fetched so far: the subscriber never looks at or below it again. */
  function Frontier(sub: Subscriber): Option<int> {
    if sub.buffer == [] then sub.lastOrder else Some(OrderOf(sub.buffer[|sub.buffer| - 1]))
  }

  function Covers(sub: Subscriber, order: int): bool {
    (sub.start.Some? ==> order > sub.start.value) && Frontier(sub).Some? && order <= Frontier(sub).value
  }

  ghost function SeenIds(sub: Subscriber): set<MessageId> {
    set m | m in Seen(sub) :: m.id
  }

  // ---------------------------------------------------------------- increasing orders, no duplicates

  ghost predicate SeenInv(f: Feed) {
    var sub, ms := f.sub, f.relayer.store.messages;
    && StrictlySortedBy(OrderOf, Seen(sub))
    && (forall m | m in Seen(sub) ::
          m.id in ms && IdentityOf(ms[m.id]) == IdentityOf(m) && m.groupId == sub.groupId && Covers(sub, OrderOf(m)))
    && (sub.yielded == [] ==> sub.lastOrder == sub.start)
    && (sub.yielded != [] ==> sub.lastOrder == Some(OrderOf(sub.yielded[|sub.yielded| - 1])))
  }

  ghost predicate FeedInv(f: Feed) {
    SystemInv(f.relayer) && SeenInv(f)
  }

  /** A page holds stored messages of the group above the last order, the last one highest. */
  lemma PageMembers(f: Feed, page: seq<Message>)
    requires KeyedById(f.relayer.store.messages) && Enabled(f, Poll(page))
    ensures StrictlySortedBy(OrderOf, page)
    ensures forall m | m in page ::
      && m in Matching(f.relayer.store.messages, f.sub.groupId, f.sub.lastOrder, None)
      && m.id in f.relayer.store.messages && f.relayer.store.messages[m.id] == m && m.groupId == f.sub.groupId
      && (f.sub.lastOrder.Some? ==> OrderOf(m) > f.sub.lastOrder.value)
      && OrderOf(m) <= OrderOf(page[|page| - 1])
  {
    var ms, sub := f.relayer.store.messages, f.sub;
    var all :| Lists(all, Matching(ms, sub.groupId, sub.lastOrder, None)) && page == Take(all, sub.limit);
    forall m | m in page
      ensures m in Matching(ms, sub.groupId, sub.lastOrder, None)
      ensures m.id in ms && ms[m.id] == m && OrderOf(m) <= OrderOf(page[|page| - 1])
    {
      var i :| 0 <= i < |page| && page[i] == m;
      assert all[i] == m && all[i] in all;
    }
  }

  lemma PollKeepsSeen(f: Feed, page: seq<Message>)
    requires SeenInv(f) && KeyedById(f.relayer.store.messages) && Enabled(f, Poll(page))
    ensures SeenInv(Apply(f, Poll(page))) && Seen(Apply(f, Poll(page)).sub) == Seen(f.sub) + page
  {
    var sub, f' := f.sub, Apply(f, Poll(page));
    PageMembers(f, page);
    assert Seen(sub) == sub.yielded;
    assert page != [] ==> page[|page| - 1] in page;
    forall x, y | x in sub.yielded && y in page ensures OrderOf(x) < OrderOf(y) {
      assert x in Seen(sub) && Covers(sub, OrderOf(x));
    }
    StrictlySortedConcat(OrderOf, sub.yielded, page);
    forall m | m in Seen(f'.sub) ensures m.id in f.relayer.store.messages
      && IdentityOf(f.relayer.store.messages[m.id]) == IdentityOf(m) && m.groupId == sub.groupId && Covers(f'.sub, OrderOf(m))
    {
      if m !in page {
        assert m in Seen(sub) && Covers(sub, OrderOf(m));
        assert page != [] ==> OrderOf(page[|page| - 1]) > sub.lastOrder.value;
      }
    }
  }

  lemma DeliverKeepsSeen(f: Feed)
    requires SeenInv(f) && Enabled(f, Deliver)
    ensures SeenInv(Apply(f, Deliver)) && Seen(Apply(f, Deliver).sub) == Seen(f.sub)
    ensures Frontier(Apply(f, Deliver).sub) == Frontier(f.sub)
  {
    assert f.sub.buffer == [f.sub.buffer[0]] + f.sub.buffer[1..];
    assert Seen(Apply(f, Deliver).sub) == Seen(f.sub);
  }

  lemma FeedStepKeepsInv(f: Feed, a: FeedAction, f': Feed)
    requires FeedInv(f) && Step(f, a, f')
    ensures FeedInv(f')
  {
    match a
    case Relay(ra) =>
      StepKeepsInv(f.relayer, ra, f'.relayer);
      forall m | m in Seen(f.sub) ensures m.id in f'.relayer.store.messages
        && IdentityOf(f'.relayer.store.messages[m.id]) == IdentityOf(m)
      {
        assert Succeeds(f.relayer.store.messages[m.id], f'.relayer.store.messages[m.id]);
      }
    case Poll(page) => PollKeepsSeen(f, page);
    case PollFails =>
    case Deliver => DeliverKeepsSeen(f);
  }

  lemma {:induction false} FeedKeepsInv(feeds: seq<Feed>, acts: seq<FeedAction>, n: nat)
    requires IsFeed(feeds, acts) && n < |feeds|
    ensures FeedInv(feeds[n])
    ensures feeds[n].sub.groupId == feeds[0].sub.groupId && feeds[n].sub.start == feeds[0].sub.start
    ensures feeds[n].sub.limit == feeds[0].sub.limit
  {
    if n == 0 {
    } else {
      FeedKeepsInv(feeds, acts, n - 1);
      assert Step(feeds[n - 1], acts[n - 1], feeds[n]);
      FeedStepKeepsInv(feeds[n - 1], acts[n - 1], feeds[n]);
    }
  }

  /** In every run the consumer sees strictly increasing orders, so no message twice, and only real messages of the group. */
  lemma YieldsAreIncreasing(feeds: seq<Feed>, acts: seq<FeedAction>, n: nat)
    requires IsFeed(feeds, acts) && n < |feeds|
    ensures StrictlySortedBy(OrderOf, feeds[n].sub.yielded)
    ensures forall m | m in feeds[n].sub.yielded ::
      m.id in feeds[n].relayer.store.messages && IdentityOf(feeds[n].relayer.store.messages[m.id]) == IdentityOf(m)
      && m.groupId == feeds[0].sub.groupId && (feeds[0].sub.start.Some? ==> OrderOf(m) > feeds[0].sub.start.value)
  {
    FeedKeepsInv(feeds, acts, n);
    var sub := feeds[n].sub;
    forall i | 0 <= i < |sub.yielded| ensures sub.yielded[i] == Seen(sub)[i] {}
    forall m | m in sub.yielded ensures m in Seen(sub) {}
  }

  // ---------------------------------------------------------------- the loop

  function DeliverMany(sub: Subscriber, k: nat): Subscriber {
    if k == 0 then sub else DeliverOne(DeliverMany(sub, k - 1))
  }

  /** The generator's variables between polls. */
  class SubscribeLoop {
    const groupId: GroupId
    const start: Option<int>
    const limit: nat
    var lastOrder: Option<int>
    var yielded: seq<Message>

    constructor (groupId: GroupId, afterOrder: Option<int>, limit: nat)
      ensures State([]) == Subscriber(groupId, afterOrder, limit, afterOrder, [], [])
    {
      this.groupId, this.start, this.limit := groupId, afterOrder, limit;
      lastOrder, yielded := afterOrder, [];
    }

    ghost function State(buffer: seq<Message>): Subscriber
      reads this
    {
      Subscriber(groupId, start, limit, lastOrder, buffer, yielded)
    }

    /** One page handed to the consumer, who aborts or disconnects after `takes` of its messages, or not. */
    method HandlePage(page: seq<Message>, takes: nat) returns (stopped: bool)
      modifies this`lastOrder, this`yielded
      ensures stopped <==> takes < |page|
      ensures var k := if stopped then takes else |page|;
        State(page[k..]) == DeliverMany(old(State(page)), k)
    {
      assert page[0..] == page;
      for i := 0 to |page|
        invariant i <= takes && State(page[i..]) == DeliverMany(old(State(page)), i)
      {
        if i == takes { return true; }
        assert page[i..][0] == page[i] && page[i..][1..] == page[i + 1..];
        yielded := yielded + [page[i]];
        lastOrder := Some(OrderOf(page[i]));
      }
      stopped := false;
    }
  }

  // ---------------------------------------------------------------- what is missed

  /** Step `i` made message `id` visible at or below what the subscriber had already passed. */
  ghost predicate InsertedBehind(feeds: seq<Feed>, acts: seq<FeedAction>, i: nat, id: MessageId)
    requires i < |acts| && |feeds| == |acts| + 1
  {
    && acts[i].Relay? && acts[i].a.Insert?
    && id !in feeds[i].relayer.store.messages && id in feeds[i + 1].relayer.store.messages
    && Covers(feeds[i].sub, OrderOf(feeds[i + 1].relayer.store.messages[id]))
  }

  ghost predicate MissedBy(feeds: seq<Feed>, acts: seq<FeedAction>, n: nat, id: MessageId)
    requires n < |feeds| && |feeds| == |acts| + 1
  {
    exists i | 0 <= i < n :: InsertedBehind(feeds, acts, i, id)
  }

  /** A stored message the subscriber has passed was seen, unless it was inserted behind; never both. */
  ghost predicate ExactInv(feeds: seq<Feed>, acts: seq<FeedAction>, n: nat)
    requires n < |feeds| && |feeds| == |acts| + 1
  {
    var f := feeds[n];
    forall id | id in f.relayer.store.messages && f.relayer.store.messages[id].groupId == f.sub.groupId
                && Covers(f.sub, OrderOf(f.relayer.store.messages[id])) ::
      id in SeenIds(f.sub) <==> !MissedBy(feeds, acts, n, id)
  }

  /** The subscriber has not passed the message. */
  ghost predicate Ahead(f: Feed, id: MessageId) {
    id in f.relayer.store.messages ==> !Covers(f.sub, OrderOf(f.relayer.store.messages[id]))
  }

  lemma AheadBefore(f: Feed, a: FeedAction, f': Feed, id: MessageId)
    requires FeedInv(f) && Step(f, a, f') && Ahead(f', id)
    ensures Ahead(f, id)
  {
    FrontierGrows(f, a, f');
    if a.Relay? && id in f.relayer.store.messages {
      StepKeepsInv(f.relayer, a.a, f'.relayer);
      assert Succeeds(f.relayer.store.messages[id], f'.relayer.store.messages[id]);
    }
  }

  lemma AheadIsNotInserted(feeds: seq<Feed>, acts: seq<FeedAction>, i: nat, id: MessageId)
    requires |feeds| == |acts| + 1 && i < |acts| && Ahead(feeds[i + 1], id) && Step(feeds[i], acts[i], feeds[i + 1])
    ensures !InsertedBehind(feeds, acts, i, id)
  {
  }

  /** A message not covered yet cannot have been inserted behind. */
  lemma {:induction false} UncoveredIsNotMissed(feeds: seq<Feed>, acts: seq<FeedAction>, n: nat, id: MessageId)
    requires IsFeed(feeds, acts) && n < |feeds| && Ahead(feeds[n], id)
    ensures !MissedBy(feeds, acts, n, id)
  {
    if n == 0 {
    } else {
      FeedKeepsInv(feeds, acts, n - 1);
      assert Step(feeds[n - 1], acts[n - 1], feeds[n]);
      AheadBefore(feeds[n - 1], acts[n - 1], feeds[n], id);
      AheadIsNotInserted(feeds, acts, n - 1, id);
      UncoveredIsNotMissed(feeds, acts, n - 1, id);
    }
  }

  lemma FrontierGrows(f: Feed, a: FeedAction, f': Feed)
    requires FeedInv(f) && Step(f, a, f')
    ensures forall order | Covers(f.sub, order) :: Covers(f'.sub, order)
  {
    if a.Poll? {
      PageMembers(f, a.page);
      assert a.page != [] ==> a.page[|a.page| - 1] in a.page;
    } else if a.Deliver? {
      DeliverKeepsSeen(f);
    }
  }

  /** A poll fetches every stored message between the old and the new frontier. */
  lemma PollCovers(f: Feed, page: seq<Message>, id: MessageId)
    requires FeedInv(f) && Enabled(f, Poll(page))
    requires id in f.relayer.store.messages && f.relayer.store.messages[id].groupId == f.sub.groupId
    requires Covers(Apply(f, Poll(page)).sub, OrderOf(f.relayer.store.messages[id]))
    requires !Covers(f.sub, OrderOf(f.relayer.store.messages[id]))
    ensures f.relayer.store.messages[id] in page
  {
    var ms := f.relayer.store.messages;
    var all :| Lists(all, Matching(ms, f.sub.groupId, f.sub.lastOrder, None)) && page == Take(all, f.sub.limit);
    var m, last := ms[id], page[|page| - 1];
    assert m in Matching(ms, f.sub.groupId, f.sub.lastOrder, None);
    forall k | |page| <= k < |all| ensures OrderOf(last) < OrderOf(all[k]) {
      assert all[|page| - 1] == last;
    }
    var i :| 0 <= i < |all| && all[i] == m;
    assert page[i] == m;
  }

  lemma PollStaysExact(feeds: seq<Feed>, acts: seq<FeedAction>, n: nat)
    requires IsFeed(feeds, acts) && 0 < n < |feeds| && acts[n - 1].Poll?
    requires ExactInv(feeds, acts, n - 1)
    ensures ExactInv(feeds, acts, n)
  {
    var f, page, f' := feeds[n - 1], acts[n - 1].page, feeds[n];
    FeedKeepsInv(feeds, acts, n - 1);
    assert Step(f, Poll(page), f');
    var ms := f.relayer.store.messages;
    forall id | id in ms && ms[id].groupId == f.sub.groupId && Covers(f'.sub, OrderOf(ms[id]))
      ensures id in SeenIds(f'.sub) <==> !MissedBy(feeds, acts, n, id)
    {
      PollSees(f, page, id);
      assert !InsertedBehind(feeds, acts, n - 1, id);
      assert MissedBy(feeds, acts, n, id) <==> MissedBy(feeds, acts, n - 1, id);
      if !Covers(f.sub, OrderOf(ms[id])) {
        UncoveredIsNotMissed(feeds, acts, n - 1, id);
      }
    }
  }

  lemma PollSees(f: Feed, page: seq<Message>, id: MessageId)
    requires FeedInv(f) && Enabled(f, Poll(page))
    requires id in f.relayer.store.messages && f.relayer.store.messages[id].groupId == f.sub.groupId
    requires Covers(Apply(f, Poll(page)).sub, OrderOf(f.relayer.store.messages[id]))
    ensures id in SeenIds(Apply(f, Poll(page)).sub) <==> id in SeenIds(f.sub) || !Covers(f.sub, OrderOf(f.relayer.store.messages[id]))
  {
    var m, f' := f.relayer.store.messages[id], Apply(f, Poll(page));
    PollKeepsSeen(f, page);
    PageMembers(f, page);
    if Covers(f.sub, OrderOf(m)) {
      assert forall x :: x in Seen(f'.sub) <==> x in Seen(f.sub) || x in page;
    } else {
      PollCovers(f, page, id);
      assert m in Seen(f'.sub);
    }
  }

  /** A message that was there before is missed after a relayer step exactly if it was before. */
  lemma RelayMissesNoOther(feeds: seq<Feed>, acts: seq<FeedAction>, n: nat, id: MessageId)
    requires |feeds| == |acts| + 1 && 0 < n < |feeds| && id in feeds[n - 1].relayer.store.messages
    ensures MissedBy(feeds, acts, n, id) <==> MissedBy(feeds, acts, n - 1, id)
  {
  }

  lemma RelayStaysExact(feeds: seq<Feed>, acts: seq<FeedAction>, n: nat)
    requires IsFeed(feeds, acts) && 0 < n < |feeds| && acts[n - 1].Relay?
    requires ExactInv(feeds, acts, n - 1)
    ensures ExactInv(feeds, acts, n)
  {
    var f, a, f' := feeds[n - 1], acts[n - 1].a, feeds[n];
    FeedKeepsInv(feeds, acts, n - 1);
    assert Step(f, acts[n - 1], f');
    StepKeepsInv(f.relayer, a, f'.relayer);
    var ms, ms' := f.relayer.store.messages, f'.relayer.store.messages;
    forall id | id in ms' && ms'[id].groupId == f.sub.groupId && Covers(f'.sub, OrderOf(ms'[id]))
      ensures id in SeenIds(f'.sub) <==> !MissedBy(feeds, acts, n, id)
    {
      if id in ms {
        assert Succeeds(ms[id], ms'[id]);
        RelayMissesNoOther(feeds, acts, n, id);
      } else {
        assert InsertedBehind(feeds, acts, n - 1, id) by { OnlyInsertsAdd(f.relayer, a, id); }
        assert id !in SeenIds(f.sub);
      }
    }
  }

  lemma OnlyInsertsAdd(s: System, a: Action, id: MessageId)
    requires id !in s.store.messages && id in Relayer.Apply(s, a).store.messages
    ensures a.Insert?
  {
  }

  /**
    The exact account of two-step creates: of the stored messages the subscriber has passed, those it
    never saw are precisely those whose insert came after the subscriber had passed their order.
   */
  lemma {:induction false} SeenUnlessInsertedBehind(feeds: seq<Feed>, acts: seq<FeedAction>, n: nat)
    requires IsFeed(feeds, acts) && n < |feeds|
    ensures ExactInv(feeds, acts, n)
  {
    if n > 0 {
      SeenUnlessInsertedBehind(feeds, acts, n - 1);
      FeedKeepsInv(feeds, acts, n - 1);
      var f, a, f' := feeds[n - 1], acts[n - 1], feeds[n];
      assert Step(f, a, f');
      match a
      case Relay(_) => RelayStaysExact(feeds, acts, n);
      case Poll(_) => PollStaysExact(feeds, acts, n);
      case _ =>
        if a.Deliver? { DeliverKeepsSeen(f); }
        forall id ensures MissedBy(feeds, acts, n, id) <==> MissedBy(feeds, acts, n - 1, id) {}
    } else {
      var f := feeds[0];
      forall id | id in f.relayer.store.messages ensures !Covers(f.sub, OrderOf(f.relayer.store.messages[id])) {}
    }
  }

  // ---------------------------------------------------------------- atomic creates

  /** Every insert directly follows the reservation of its own order. */
  ghost predicate CreatesAreAtomic(acts: seq<FeedAction>) {
    forall i | 0 <= i < |acts| && acts[i].Relay? && acts[i].a.Insert? ::
      i > 0 && acts[i - 1].Relay? && acts[i - 1].a.Reserve? && acts[i - 1].a.token == acts[i].a.token
  }

  /** The next order of the group lies above everything fetched. */
  lemma NextOrderIsAhead(f: Feed)
    requires FeedInv(f)
    ensures !Covers(f.sub, FollowingOrder(f.relayer.store, f.sub.groupId))
  {
  }

  /** A reservation directly followed by its insert stores its message under the next order. */
  lemma AtomicCreateTakesNextOrder(s0: System, s1: System, s2: System, token: nat, draft: Message, id: MessageId)
    requires Relayer.Step(s0, Reserve(token, draft), s1) && Relayer.Step(s1, Insert(token), s2)
    requires id !in s1.store.messages && id in s2.store.messages
    ensures OrderOf(s2.store.messages[id]) == FollowingOrder(s0.store, s2.store.messages[id].groupId)
  {
  }

  lemma AtomicInsertsAreAhead(feeds: seq<Feed>, acts: seq<FeedAction>, i: nat, id: MessageId)
    requires IsFeed(feeds, acts) && CreatesAreAtomic(acts) && i < |acts|
    requires id in feeds[i + 1].relayer.store.messages
      && feeds[i + 1].relayer.store.messages[id].groupId == feeds[0].sub.groupId
    ensures !InsertedBehind(feeds, acts, i, id)
  {
    var f, f' := feeds[i], feeds[i + 1];
    if acts[i].Relay? && acts[i].a.Insert? && id !in f.relayer.store.messages {
      var f0 := feeds[i - 1];
      FeedKeepsInv(feeds, acts, i - 1);
      assert Step(f, acts[i], f') && Step(f0, acts[i - 1], f);
      AtomicCreateTakesNextOrder(f0.relayer, f.relayer, f'.relayer, acts[i].a.token, acts[i - 1].a.draft, id);
      NextOrderIsAhead(f0);
    }
  }

  /** What is fetched and up to the last order delivered has been yielded: the buffer lies above it. */
  lemma YieldedUpToLastOrder(f: Feed, m: Message)
    requires SeenInv(f) && m in Seen(f.sub)
    ensures m in f.sub.yielded <==> f.sub.yielded != [] && f.sub.lastOrder.Some? && OrderOf(m) <= f.sub.lastOrder.value
  {
    var sub := f.sub;
    var seen, k := Seen(sub), |sub.yielded|;
    var i :| 0 <= i < |seen| && seen[i] == m;
    assert k > 0 ==> seen[k - 1] == sub.yielded[k - 1];
    if i < k { assert sub.yielded[i] == m; }
    if m in sub.yielded {
      var j :| 0 <= j < k && sub.yielded[j] == m;
      assert seen[j] == m;
    }
  }

  lemma MissedNever(feeds: seq<Feed>, acts: seq<FeedAction>, n: nat, id: MessageId)
    requires IsFeed(feeds, acts) && CreatesAreAtomic(acts) && n < |feeds|
    requires id in feeds[n].relayer.store.messages && feeds[n].relayer.store.messages[id].groupId == feeds[n].sub.groupId
    ensures !MissedBy(feeds, acts, n, id)
  {
    FeedKeepsInv(feeds, acts, n);
    forall i | 0 <= i < n ensures !InsertedBehind(feeds, acts, i, id) {
      if id in feeds[i + 1].relayer.store.messages {
        IdentityLater(feeds, acts, i + 1, n, id);
        AtomicInsertsAreAhead(feeds, acts, i, id);
      }
    }
  }

  /**
    With uninterrupted creates, at every moment, inside a page too, what was yielded is exactly the
    group's stored messages above the start and up to the last order yielded.
   */
  lemma AtomicCreatesMissNothing(feeds: seq<Feed>, acts: seq<FeedAction>, n: nat, id: MessageId)
    requires IsFeed(feeds, acts) && CreatesAreAtomic(acts) && n < |feeds|
    requires id in feeds[n].relayer.store.messages
    ensures var f, m := feeds[n], feeds[n].relayer.store.messages[id];
      (exists y :: y in f.sub.yielded && y.id == id)
      <==> m.groupId == f.sub.groupId && (f.sub.start.Some? ==> OrderOf(m) > f.sub.start.value)
           && f.sub.lastOrder.Some? && OrderOf(m) <= f.sub.lastOrder.value
  {
    var f, m := feeds[n], feeds[n].relayer.store.messages[id];
    FeedKeepsInv(feeds, acts, n);
    if y :| y in f.sub.yielded && y.id == id {
      assert y in Seen(f.sub);
      YieldedUpToLastOrder(f, y);
    }
    if m.groupId == f.sub.groupId && (f.sub.start.Some? ==> OrderOf(m) > f.sub.start.value)
       && f.sub.lastOrder.Some? && OrderOf(m) <= f.sub.lastOrder.value {
      FrontierIsLast(f);
      SeenUnlessInsertedBehind(feeds, acts, n);
      MissedNever(feeds, acts, n, id);
      var y :| y in Seen(f.sub) && y.id == id;
      YieldedUpToLastOrder(f, y);
    }
  }

  /** The frontier is never below the last order delivered. */
  lemma FrontierIsLast(f: Feed)
    requires SeenInv(f) && f.sub.lastOrder.Some?
    ensures Frontier(f.sub).Some? && f.sub.lastOrder.value <= Frontier(f.sub).value
  {
    var sub := f.sub;
    if sub.buffer != [] {
      var seen := Seen(sub);
      assert seen[|seen| - 1] == sub.buffer[|sub.buffer| - 1] && seen[|seen| - 1] in seen;
      assert sub.yielded != [] ==> seen[|sub.yielded| - 1] == sub.yielded[|sub.yielded| - 1];
    }
  }

  lemma FeedRetains(feeds: seq<Feed>, acts: seq<FeedAction>, n: nat)
    requires IsFeed(feeds, acts) && n < |acts|
    ensures Retains(feeds[n].relayer.store.messages, feeds[n + 1].relayer.store.messages)
  {
    FeedKeepsInv(feeds, acts, n);
    assert Step(feeds[n], acts[n], feeds[n + 1]);
    if acts[n].Relay? { StepKeepsInv(feeds[n].relayer, acts[n].a, feeds[n + 1].relayer); }
  }

  lemma {:induction false} IdentityLater(feeds: seq<Feed>, acts: seq<FeedAction>, i: nat, n: nat, id: MessageId)
    requires IsFeed(feeds, acts) && i <= n < |feeds| && id in feeds[i].relayer.store.messages
    ensures id in feeds[n].relayer.store.messages
    ensures IdentityOf(feeds[n].relayer.store.messages[id]) == IdentityOf(feeds[i].relayer.store.messages[id])
  {
    if i == n {
    } else {
      IdentityLater(feeds, acts, i, n - 1, id);
      FeedRetains(feeds, acts, n - 1);
      assert Succeeds(feeds[n - 1].relayer.store.messages[id], feeds[n].relayer.store.messages[id]);
    }
  }

  // ---------------------------------------------------------------- progress

  /** The group's stored messages the subscriber has still to fetch. */
  ghost function Undelivered(f: Feed): set<Message> {
    Matching(f.relayer.store.messages, f.sub.groupId, Frontier(f.sub), None)
  }

  /** A poll takes exactly its page off the undelivered messages, and finds one whenever there is one. */
  lemma PollMakesProgress(f: Feed, page: seq<Message>)
    requires FeedInv(f) && Enabled(f, Poll(page)) && f.sub.limit >= 1
    ensures |Undelivered(Apply(f, Poll(page)))| == |Undelivered(f)| - |page|
    ensures page == [] <==> Undelivered(f) == {}
  {
    var ms, sub := f.relayer.store.messages, f.sub;
    var all :| Lists(all, Matching(ms, sub.groupId, sub.lastOrder, None)) && page == Take(all, sub.limit);
    ListingSize(all, Undelivered(f));
    if page != [] {
      RestAfterPage(f.relayer.store, sub.groupId, sub.lastOrder, all, |page|);
      ListingSize(all[|page|..], Undelivered(Apply(f, Poll(page))));
    }
    if Undelivered(f) != {} {
      var m :| m in Undelivered(f);
      assert m in all;
    }
  }

  // ---------------------------------------------------------------- the hypothesis is needed

  function Draft(id: MessageId, content: Content): Message {
    NewMessage(id, "g", "s", content, 0)
  }

  function Ordered(id: MessageId, content: Content, order: int): Message {
    Draft(id, content).(order := Some(order))
  }

  /** `b` is stored while `a`, which reserved the lower order, is still in flight. */
  lemma LaterOrderStoredFirst(first: Content, second: Content) returns (s1: System, s2: System, s3: System)
    ensures Relayer.Step(Init(10), Reserve(0, Draft("a", first)), s1) && Relayer.Step(s1, Reserve(1, Draft("b", second)), s2)
    ensures Relayer.Step(s2, Insert(1), s3)
    ensures s3.store == Store(map["b" := Ordered("b", second, 2)], map["g" := 2], {second.nonce})
    ensures s3.inFlight == map[0 := Ordered("a", first, 1)]
  {
    s1 := Relayer.Apply(Init(10), Reserve(0, Draft("a", first)));
    assert s1.store == Store(map[], map["g" := 1], {}) && s1.inFlight == map[0 := Ordered("a", first, 1)];
    s2 := Relayer.Apply(s1, Reserve(1, Draft("b", second)));
    assert s2.store == Store(map[], map["g" := 2], {})
        && s2.inFlight == map[0 := Ordered("a", first, 1), 1 := Ordered("b", second, 2)];
    s3 := Relayer.Apply(s2, Insert(1));
  }

  lemma InitInv(batchSize: nat)
    ensures SystemInv(Init(batchSize))
  {
  }

  /** Two creates in flight, with any contents, the later order stored first and read: the earlier one is never delivered. */
  lemma InterleavedCreatesCanBeMissed(first: Content, second: Content) returns (feeds: seq<Feed>, acts: seq<FeedAction>)
    requires first.nonce != second.nonce
    ensures IsFeed(feeds, acts) && |feeds| == 7
    ensures var f := feeds[6];
      && f.sub.start == None && f.sub.buffer == [] && "a" in f.relayer.store.messages
      && f.relayer.store.messages["a"] == Ordered("a", first, 1) && f.relayer.store.messages["a"].groupId == f.sub.groupId
      && f.sub.lastOrder == Some(2) && "a" !in SeenIds(f.sub)
  {
    InitInv(10);
    var a, b := Ordered("a", first, 1), Ordered("b", second, 2);
    var s1, s2, s3 := LaterOrderStoredFirst(first, second);
    var f0 := Subscribe(Init(10), "g", None, 50);
    var f3 := f0.(relayer := s3);
    var f4, f5 := ReadsTheLater(f3, b);
    var f6 := Apply(f5, Relay(Insert(0)));
    assert f6.relayer.store.messages == map["b" := b, "a" := a];
    assert Seen(f6.sub) == [b];
    acts := [Relay(Reserve(0, Draft("a", first))), Relay(Reserve(1, Draft("b", second))), Relay(Insert(1)), Poll([b]), Deliver, Relay(Insert(0))];
    feeds := [f0, f0.(relayer := s1), f0.(relayer := s2), f3, f4, f5, f6];
  }

  lemma ReadsTheLater(f: Feed, b: Message) returns (polled: Feed, delivered: Feed)
    requires f.sub == Subscriber("g", None, 50, None, [], []) && f.relayer.store.messages == map["b" := b]
    requires b.groupId == "g"
    ensures Step(f, Poll([b]), polled) && Step(polled, Deliver, delivered)
    ensures delivered == Feed(f.relayer, Subscriber("g", None, 50, Some(OrderOf(b)), [], [b]))
  {
    assert Matches(f.relayer.store.messages["b"], "g", None, None);
    assert Matching(f.relayer.store.messages, "g", None, None) == {b};
    assert Lists([b], {b}) && Take([b], 50) == [b];
    polled := Apply(f, Poll([b]));
    delivered := Apply(polled, Deliver);
  }
}
