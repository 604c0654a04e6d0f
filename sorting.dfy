/**
 * Python's `sorted(...)`, `list.sort()` and `sorted(series.unique())` over integer ids,
 * modelled as insertion into an ordered sequence.
 */
module Sorting {

  /** Non-decreasing order, what `list.sort()` produces. */
  predicate Ascending(xs: seq<int>) {
    forall i, j :: 0 <= i < j < |xs| ==> xs[i] <= xs[j]
  }

  /** Increasing order without repetitions, what `sorted(unique(...))` produces. */
  predicate StrictlyAscending(xs: seq<int>) {
    forall i, j :: 0 <= i < j < |xs| ==> xs[i] < xs[j]
  }

  /** Inserts `x` into an ascending sequence, keeping duplicates. */
  function Insert(x: int, xs: seq<int>): (r: seq<int>)
    requires Ascending(xs)
    ensures Ascending(r)
    ensures multiset(r) == multiset(xs) + multiset{x}
  {
    if xs == [] || x <= xs[0] then
      [x] + xs
    else
      var tail := xs[1..];
      var rest := Insert(x, tail);
      assert xs == [xs[0]] + tail;
      assert forall k :: 0 <= k < |tail| ==> xs[0] <= tail[k] by {
        forall k | 0 <= k < |tail| ensures xs[0] <= tail[k] {
          assert tail[k] == xs[k + 1];
        }
      }
      LowerBoundOfInsert(xs[0], rest, tail, x);
      [xs[0]] + rest
  }

  /** A bound below `x` and below every element of `tail` is below every element of a permutation of both. */
  lemma LowerBoundOfInsert(lo: int, rest: seq<int>, tail: seq<int>, x: int)
    requires multiset(rest) == multiset(tail) + multiset{x}
    requires lo <= x
    requires forall k :: 0 <= k < |tail| ==> lo <= tail[k]
    ensures forall k :: 0 <= k < |rest| ==> lo <= rest[k]
  {
    forall k | 0 <= k < |rest| ensures lo <= rest[k] {
      assert rest[k] in multiset(rest);
      if rest[k] != x {
        assert rest[k] in multiset(tail);
        var m :| 0 <= m < |tail| && tail[m] == rest[k];
      }
    }
  }

  /** A stable sort of integers: ascending and a permutation of its input. */
  function Sort(xs: seq<int>): (r: seq<int>)
    ensures Ascending(r)
    ensures multiset(r) == multiset(xs)
  {
    if xs == [] then []
    else
      assert xs == [xs[0]] + xs[1..];
      Insert(xs[0], Sort(xs[1..]))
  }

  /** Sorting a list that is already in ascending order leaves it as it is. */
  lemma {:induction false} SortOfAscending(xs: seq<int>)
    requires Ascending(xs)
    ensures Sort(xs) == xs
  {
    if xs != [] {
      SortOfAscending(xs[1..]);
    }
  }

  /** Inserts `x` into a strictly ascending sequence unless it is already there. */
  function InsertUnique(x: int, xs: seq<int>): (r: seq<int>)
    requires StrictlyAscending(xs)
    ensures StrictlyAscending(r)
    ensures forall y :: y in r <==> y in xs || y == x
  {
    if xs == [] || x < xs[0] then
      [x] + xs
    else if x == xs[0] then
      xs
    else
      var tail := xs[1..];
      var rest := InsertUnique(x, tail);
      assert forall y :: y in xs <==> y == xs[0] || y in tail;
      assert forall k :: 0 <= k < |rest| ==> xs[0] < rest[k] by {
        forall k | 0 <= k < |rest| ensures xs[0] < rest[k] {
          assert rest[k] in rest;
          if rest[k] != x {
            var m :| 0 <= m < |tail| && tail[m] == rest[k];
            assert xs[m + 1] == rest[k];
          }
        }
      }
      [xs[0]] + rest
  }

  /** The ascending sequence of the distinct values of `xs`. */
  function SortedUnique(xs: seq<int>): (r: seq<int>)
    ensures StrictlyAscending(r)
    ensures forall y :: y in r <==> y in xs
  {
    if xs == [] then []
    else
      assert forall y :: y in xs <==> y == xs[0] || y in xs[1..];
      InsertUnique(xs[0], SortedUnique(xs[1..]))
  }

  /** A strictly ascending list is ascending. */
  lemma StrictlyAscendingIsAscending(xs: seq<int>)
    requires StrictlyAscending(xs)
    ensures Ascending(xs)
  {
  }
}
