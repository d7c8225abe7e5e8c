/**
  Sorting by an integer key.

  The relayer, the indexer and the recovery transport all sort by message order with their
  language's library sort.  `SortBy` stands for those calls; the lemmas say that once the keys are
  distinct the result depends on the set of elements alone, whatever order they arrived in.
 */
module Sorting {

  ghost predicate SortedBy<T(!new)>(key: T -> int, s: seq<T>) {
    forall i, j | 0 <= i < j < |s| :: key(s[i]) <= key(s[j])
  }

  ghost predicate StrictlySortedBy<T(!new)>(key: T -> int, s: seq<T>) {
    forall i, j | 0 <= i < j < |s| :: key(s[i]) < key(s[j])
  }

  /** No two positions carry the same key. */
  ghost predicate DistinctKeys<T(!new), K>(key: T -> K, s: seq<T>) {
    forall i, j | 0 <= i < j < |s| :: key(s[i]) != key(s[j])
  }

  /** `a` and `b` have the same elements. */
  ghost predicate SameElements<T(!new)>(a: seq<T>, b: seq<T>) {
    forall x :: x in a <==> x in b
  }

  function SortBy<T>(key: T -> int, s: seq<T>): seq<T> {
    if s == [] then [] else InsertBy(key, s[0], SortBy(key, s[1..]))
  }

  function InsertBy<T>(key: T -> int, x: T, s: seq<T>): seq<T> {
    if s == [] then [x]
    else if key(x) <= key(s[0]) then [x] + s
    else [s[0]] + InsertBy(key, x, s[1..])
  }

  lemma {:induction false} InsertByPermutes<T(!new)>(key: T -> int, x: T, s: seq<T>)
    ensures multiset(InsertBy(key, x, s)) == multiset{x} + multiset(s)
  {
    if s == [] || key(x) <= key(s[0]) {
    } else {
      InsertByPermutes(key, x, s[1..]);
      assert s == [s[0]] + s[1..];
    }
  }

  lemma {:induction false} InsertBySorted<T(!new)>(key: T -> int, x: T, s: seq<T>)
    requires SortedBy(key, s)
    ensures SortedBy(key, InsertBy(key, x, s))
  {
    if s == [] || key(x) <= key(s[0]) {
    } else {
      var r := InsertBy(key, x, s[1..]);
      InsertBySorted(key, x, s[1..]);
      InsertByPermutes(key, x, s[1..]);
      forall y | y in r ensures key(s[0]) <= key(y) {
        assert y in multiset(r);
        assert y == x || y in s[1..];
      }
    }
  }

  /** The result is sorted and is a permutation of the input. */
  lemma {:induction false} SortBySorts<T(!new)>(key: T -> int, s: seq<T>)
    ensures SortedBy(key, SortBy(key, s))
    ensures multiset(SortBy(key, s)) == multiset(s)
    ensures |SortBy(key, s)| == |s|
    ensures SameElements(SortBy(key, s), s)
  {
    if s == [] {
    } else {
      SortBySorts(key, s[1..]);
      InsertByPermutes(key, s[0], SortBy(key, s[1..]));
      InsertBySorted(key, s[0], SortBy(key, s[1..]));
      assert s == [s[0]] + s[1..];
    }
    MultisetGivesElements(SortBy(key, s), s);
  }

  lemma MultisetGivesElements<T(!new)>(a: seq<T>, b: seq<T>)
    requires multiset(a) == multiset(b)
    ensures SameElements(a, b)
    ensures |a| == |b|
  {
    assert |multiset(a)| == |multiset(b)|;
    forall x ensures x in a <==> x in b {
      assert x in a <==> x in multiset(a);
      assert x in b <==> x in multiset(b);
    }
  }

  /** Distinct keys survive a permutation, and make a sorted sequence strictly sorted. */
  lemma SortByStrict<T(!new)>(key: T -> int, s: seq<T>)
    requires DistinctKeys(key, s)
    ensures StrictlySortedBy(key, SortBy(key, s))
    ensures SameElements(SortBy(key, s), s)
    ensures |SortBy(key, s)| == |s|
  {
    SortBySorts(key, s);
    var r := SortBy(key, s);
    forall i, j | 0 <= i < j < |r| ensures key(r[i]) != key(r[j]) {
      DistinctUnderPermutation(key, s, r, i, j);
    }
  }

  lemma DistinctUnderPermutation<T(!new), K>(key: T -> K, s: seq<T>, r: seq<T>, i: nat, j: nat)
    requires DistinctKeys(key, s) && multiset(r) == multiset(s) && i < j < |r|
    ensures key(r[i]) != key(r[j])
  {
    if key(r[i]) == key(r[j]) {
      assert r[i] in multiset(s) && r[j] in multiset(s);
      var a :| 0 <= a < |s| && s[a] == r[i];
      var b :| 0 <= b < |s| && s[b] == r[j];
      assert a == b;
      var x := r[i];
      assert r == r[..i] + [x] + r[i + 1..j] + [x] + r[j + 1..];
      assert multiset(r)[x] >= 2;
      OccursOnce(key, s, a);
    }
  }

  lemma OccursOnce<T(!new), K>(key: T -> K, s: seq<T>, a: nat)
    requires DistinctKeys(key, s) && a < |s|
    ensures multiset(s)[s[a]] == 1
  {
    assert s == s[..a] + [s[a]] + s[a + 1..];
    assert s[a] !in s[..a] && s[a] !in s[a + 1..];
  }

  /** A strictly sorted sequence is determined by its elements. */
  lemma {:induction false} StrictlySortedUnique<T(!new)>(key: T -> int, a: seq<T>, b: seq<T>)
    requires StrictlySortedBy(key, a) && StrictlySortedBy(key, b)
    requires SameElements(a, b)
    ensures a == b
  {
    assert b != [] ==> b[0] in a;
    if a == [] {
    } else {
      assert a[0] in b;
      assert b[0] in a;
      assert a[0] == b[0];
      forall x ensures x in a[1..] <==> x in b[1..] {
        if x in a[1..] { assert x in a && x in b; assert x != a[0]; }
        if x in b[1..] { assert x in b && x in a; assert x != b[0]; }
      }
      StrictlySortedUnique(key, a[1..], b[1..]);
      assert a == [a[0]] + a[1..] && b == [b[0]] + b[1..];
    }
  }

  lemma StrictlySortedConcat<T(!new)>(key: T -> int, a: seq<T>, b: seq<T>)
    requires StrictlySortedBy(key, a) && StrictlySortedBy(key, b)
    requires forall x, y | x in a && y in b :: key(x) < key(y)
    ensures StrictlySortedBy(key, a + b)
  {
  }

  /** A sorted permutation of a strictly sorted sequence is that sequence. */
  lemma SortedPermutation<T(!new)>(key: T -> int, a: seq<T>, b: seq<T>)
    requires SortedBy(key, a) && StrictlySortedBy(key, b) && multiset(a) == multiset(b)
    ensures a == b
  {
    MultisetGivesElements(a, b);
    forall i, j | 0 <= i < j < |a| ensures key(a[i]) < key(a[j]) {
      DistinctUnderPermutation(key, b, a, i, j);
    }
    StrictlySortedUnique(key, a, b);
  }

  lemma SplitAround<T(!new)>(s: seq<T>, x: T) returns (before: seq<T>, after: seq<T>)
    requires x in multiset(s)
    ensures s == before + [x] + after
    ensures multiset(before + after) == multiset(s) - multiset{x}
  {
    var i :| 0 <= i < |s| && s[i] == x;
    before, after := s[..i], s[i + 1..];
    assert s == before + [x] + after;
  }
}
