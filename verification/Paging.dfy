/**
  Reading a group page by page (relayer/src/handlers/messages/handlers.rs:90-141 over
  relayer/src/storage/memory.rs:98-135): what one page means, and what following the pages yields.
 */
module Paging {
  import opened Messages
  import opened Sequences
  import opened Sorting
  import opened Storage
  import opened Wrappers

  const DEFAULT_PAGE_LIMIT := 50
  const MAX_PAGE_LIMIT := 100

  function PageLimit(requested: Option<nat>): nat {
    Min(requested.GetOr(DEFAULT_PAGE_LIMIT), MAX_PAGE_LIMIT)
  }

  /** The page and its flag as the reader should understand them. */
  ghost predicate Serves(s: Store, groupId: GroupId, after: Option<int>, before: Option<int>, limit: nat,
                         page: seq<Message>, hasNext: bool)
  {
    IsPage(page, s, groupId, after, before, limit)
    && (hasNext <==> |Matching(s.messages, groupId, after, before)| > limit)
  }

  lemma ListingSize(all: seq<Message>, ms: set<Message>)
    requires Lists(all, ms)
    ensures |all| == |ms|
  {
    DistinctCardinality(all, ms);
  }

  /** One message too many is fetched to learn whether more follow. */
  method FetchPage(storage: InMemoryStorage, groupId: GroupId, after: Option<int>, before: Option<int>, requested: Option<nat>)
    returns (page: seq<Message>, hasNext: bool)
    requires WellFormed(storage.State())
    ensures Serves(storage.State(), groupId, after, before, PageLimit(requested), page, hasNext)
    ensures var n := |Matching(storage.messages, groupId, after, before)|;
      && |page| == (if requested.None? then Min(n, 50) else Min(n, Min(requested.value, 100)))
      && (hasNext <==> |page| < n)
  {
    var limit := Min(requested.GetOr(DEFAULT_PAGE_LIMIT), MAX_PAGE_LIMIT);
    var messages := storage.GetMessagesByGroup(groupId, after, before, limit + 1);
    hasNext := |messages| > limit;
    page := Take(messages, limit);
    ghost var all := ListingExists(storage.State(), groupId, after, before);
    PageUnique(messages, all, storage.State(), groupId, after, before, limit + 1);
    ListingSize(all, Matching(storage.messages, groupId, after, before));
    assert page == Take(all, limit);
  }

  /** Both bounds are exclusive and independent: below, at and above an order is a partition of the group. */
  lemma BoundsPartition(ms: map<MessageId, Message>, groupId: GroupId, order: int)
    ensures var below, above := Matching(ms, groupId, None, Some(order)), Matching(ms, groupId, Some(order), None);
      var there := set id | id in ms && ms[id].groupId == groupId && OrderOf(ms[id]) == order :: ms[id];
      && below + there + above == Matching(ms, groupId, None, None)
      && below !! there && below !! above && there !! above
    ensures forall after, before ::
      Matching(ms, groupId, Some(after), Some(before)) == Matching(ms, groupId, Some(after), None) * Matching(ms, groupId, None, Some(before))
  {
  }

  // ---------------------------------------------------------------- forward

  /** Pages obtained by asking again after the last order seen, until the flag says there are no more. */
  ghost predicate FollowsForward(s: Store, groupId: GroupId, after: Option<int>, limit: nat, pages: seq<seq<Message>>)
    decreases |pages|
  {
    && pages != []
    && Serves(s, groupId, after, None, limit, pages[0], |pages| > 1)
    && (|pages| > 1 ==>
          && pages[0] != []
          && FollowsForward(s, groupId, Some(OrderOf(pages[0][|pages[0]| - 1])), limit, pages[1..]))
  }

  function Flatten<T>(pages: seq<seq<T>>): seq<T> {
    if pages == [] then [] else pages[0] + Flatten(pages[1..])
  }

  /** What matches after the last order of a page is what the page left over. */
  lemma RestAfterPage(s: Store, groupId: GroupId, after: Option<int>, all: seq<Message>, k: nat)
    requires Lists(all, Matching(s.messages, groupId, after, None)) && 0 < k <= |all|
    ensures Lists(all[k..], Matching(s.messages, groupId, Some(OrderOf(all[k - 1])), None))
  {
    var last := OrderOf(all[k - 1]);
    assert all[k - 1] in all;
    forall m ensures m in all[k..] <==> m in Matching(s.messages, groupId, Some(last), None) {
      if m in all[k..] {
        var i :| 0 <= i < |all| - k && all[k..][i] == m;
        assert all[k + i] == m && OrderOf(all[k - 1]) < OrderOf(all[k + i]);
        assert m in all;
      }
      if m in Matching(s.messages, groupId, Some(last), None) {
        assert m in Matching(s.messages, groupId, after, None);
        var i :| 0 <= i < |all| && all[i] == m;
        assert i >= k;
        assert all[k..][i - k] == m;
      }
    }
  }

  /** Following the pages yields every matching message exactly once, in order, whatever the page size. */
  lemma {:induction false} ForwardPagingIsExact(s: Store, groupId: GroupId, after: Option<int>, limit: nat, pages: seq<seq<Message>>)
    requires WellFormed(s) && FollowsForward(s, groupId, after, limit, pages)
    ensures Lists(Flatten(pages), Matching(s.messages, groupId, after, None))
    decreases |pages|
  {
    var all := ListingExists(s, groupId, after, None);
    PageUnique(pages[0], all, s, groupId, after, None, limit);
    ListingSize(all, Matching(s.messages, groupId, after, None));
    if |pages| > 1 {
      var last := OrderOf(pages[0][|pages[0]| - 1]);
      ForwardPagingIsExact(s, groupId, Some(last), limit, pages[1..]);
      RestAfterPage(s, groupId, after, all, limit);
      StrictlySortedUnique(OrderOf, Flatten(pages[1..]), all[limit..]);
      assert all == all[..limit] + all[limit..];
    } else {
      assert Flatten(pages[1..]) == [];
    }
  }

  /** With a positive page size the pages come to an end. */
  lemma {:induction false} ForwardPagingEnds(s: Store, groupId: GroupId, after: Option<int>, limit: nat) returns (pages: seq<seq<Message>>)
    requires WellFormed(s) && limit >= 1
    ensures FollowsForward(s, groupId, after, limit, pages)
    decreases |Matching(s.messages, groupId, after, None)|
  {
    var all := ListingExists(s, groupId, after, None);
    ListingSize(all, Matching(s.messages, groupId, after, None));
    if |all| <= limit {
      pages := [all];
      assert all == Take(all, limit);
    } else {
      var first := Take(all, limit);
      var last := Some(OrderOf(all[limit - 1]));
      RestAfterPage(s, groupId, after, all, limit);
      ListingSize(all[limit..], Matching(s.messages, groupId, last, None));
      var rest := ForwardPagingEnds(s, groupId, last, limit);
      pages := [first] + rest;
      assert pages[1..] == rest;
    }
  }

  /** A page size of zero is served as an empty page that may claim more messages forever. */
  lemma ZeroLimitServesNothing(s: Store, groupId: GroupId, after: Option<int>, page: seq<Message>, hasNext: bool)
    requires WellFormed(s) && Serves(s, groupId, after, None, 0, page, hasNext)
    ensures page == [] && (hasNext <==> Matching(s.messages, groupId, after, None) != {})
  {
  }

  // ---------------------------------------------------------------- backward

  /**
    A query without a lower bound is documented to return the most recent messages; it returns the
    oldest ones.  The two coincide exactly when the page is wide enough for everything that matches,
    or asks for nothing.
   */
  lemma PageIsMostRecentIff(s: Store, groupId: GroupId, before: Option<int>, limit: nat, page: seq<Message>, all: seq<Message>)
    requires IsPage(page, s, groupId, None, before, limit)
    requires Lists(all, Matching(s.messages, groupId, None, before))
    ensures page == all[|all| - Min(limit, |all|)..] <==> |Matching(s.messages, groupId, None, before)| <= limit || limit == 0
  {
    PageUnique(page, all, s, groupId, None, before, limit);
    ListingSize(all, Matching(s.messages, groupId, None, before));
    if limit == 0 {
      assert page == [] == all[|all|..];
    } else if |all| > limit {
      assert OrderOf(all[0]) < OrderOf(all[|all| - limit]);
      assert page[0] == all[0] && all[|all| - limit..][0] == all[|all| - limit];
    }
  }
}
