/** The list operations the three code bases chain together: filter, take, and their bookkeeping. */
module Sequences {
  import opened Wrappers

  function Min(a: int, b: int): int {
    if a <= b then a else b
  }

  function Filter<T>(p: T -> bool, s: seq<T>): seq<T> {
    if s == [] then []
    else if p(s[0]) then [s[0]] + Filter(p, s[1..])
    else Filter(p, s[1..])
  }

  /** The results of `f`, without those it fails on. */
  function FilterMap<T, U>(f: T -> Option<U>, s: seq<T>): seq<U> {
    if s == [] then []
    else
      match f(s[0])
      case None => FilterMap(f, s[1..])
      case Some(u) => [u] + FilterMap(f, s[1..])
  }

  function Take<T>(s: seq<T>, n: nat): seq<T> {
    if |s| <= n then s else s[..n]
  }

  /** JavaScript's `slice(0, limit)`: a negative limit drops that many from the end. */
  function SliceTo<T>(s: seq<T>, limit: int): seq<T> {
    if limit >= 0 then Take(s, limit) else if |s| + limit > 0 then s[..|s| + limit] else []
  }

  ghost predicate Distinct<T(!new)>(s: seq<T>) {
    forall i, j | 0 <= i < j < |s| :: s[i] != s[j]
  }

  lemma {:induction false} FilterMembers<T(!new)>(p: T -> bool, s: seq<T>)
    ensures forall x :: x in Filter(p, s) <==> x in s && p(x)
    ensures |Filter(p, s)| <= |s|
  {
    if s == [] {
    } else {
      FilterMembers(p, s[1..]);
      assert s == [s[0]] + s[1..];
    }
  }

  lemma {:induction false} FilterAppend<T>(p: T -> bool, a: seq<T>, b: seq<T>)
    ensures Filter(p, a + b) == Filter(p, a) + Filter(p, b)
  {
    if a == [] {
      assert a + b == b;
    } else {
      FilterAppend(p, a[1..], b);
      assert (a + b)[1..] == a[1..] + b;
    }
  }

  lemma {:induction false} FilterMapAppend<T, U>(f: T -> Option<U>, a: seq<T>, b: seq<T>)
    ensures FilterMap(f, a + b) == FilterMap(f, a) + FilterMap(f, b)
  {
    if a == [] {
      assert a + b == b;
    } else {
      FilterMapAppend(f, a[1..], b);
      assert (a + b)[1..] == a[1..] + b;
    }
  }

  /** Filtering keeps any property of ordered pairs: distinctness, sortedness. */
  lemma {:induction false} FilterKeepsPairs<T(!new)>(p: T -> bool, r: (T, T) -> bool, s: seq<T>)
    requires forall i, j | 0 <= i < j < |s| :: r(s[i], s[j])
    ensures forall i, j | 0 <= i < j < |Filter(p, s)| :: r(Filter(p, s)[i], Filter(p, s)[j])
  {
    if s == [] {
    } else {
      FilterKeepsPairs(p, r, s[1..]);
      var f := Filter(p, s[1..]);
      FilterMembers(p, s[1..]);
      forall x | x in f ensures r(s[0], x) {
        assert x in s[1..];
      }
    }
  }

  lemma {:induction false} DistinctCardinality<T(!new)>(s: seq<T>, elements: set<T>)
    requires Distinct(s) && forall x :: x in s <==> x in elements
    ensures |s| == |elements|
  {
    if s == [] {
      assert elements == {};
    } else {
      var x := s[0];
      assert x in s;
      forall y ensures y in s[1..] <==> y in elements - {x} {
        assert s == [x] + s[1..];
      }
      DistinctCardinality(s[1..], elements - {x});
    }
  }

  /** The subset of a finite set no larger than another has no more elements. */
  lemma {:induction false} SubsetCardinality<T(!new)>(a: set<T>, b: set<T>)
    requires a <= b
    ensures |a| <= |b|
    ensures |a| == |b| ==> a == b
  {
    if a == {} {
    } else {
      var x :| x in a;
      SubsetCardinality(a - {x}, b - {x});
    }
  }
}
