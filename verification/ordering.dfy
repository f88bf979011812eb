/** The ordering side of the buddy list: the comparator taken as an abstract
    strict weak order, what it means for a list to be sorted under it, the
    lower-bound binary search that places a new element, and insertion at
    that place. Everything here is generic in the element type. */
module Ordering {

  /** `less` is a strict weak order: irreflexive, transitive, and whenever
      a < c, any b is either above a or below c (incomparability is transitive). */
  ghost predicate StrictWeakOrder<T(!new)>(less: (T, T) -> bool) {
    && (forall a :: !less(a, a))
    && (forall a, b, c :: less(a, b) && less(b, c) ==> less(a, c))
    && (forall a, b, c :: less(a, c) ==> less(a, b) || less(b, c))
  }

  /** No element is strictly below an element that precedes it. */
  ghost predicate Sorted<T>(less: (T, T) -> bool, s: seq<T>) {
    forall i, j :: 0 <= i < j < |s| ==> !less(s[j], s[i])
  }

  /** The elements below `x` form a prefix of `s`: what a lower-bound search
      for `x` needs of its range. */
  ghost predicate Partitioned<T>(less: (T, T) -> bool, s: seq<T>, x: T) {
    forall i, j :: 0 <= i < j < |s| && less(s[j], x) ==> less(s[i], x)
  }

  /** The lower-bound binary search on the window of `n` elements starting
      at `lo`: halve the window, keep the upper part when its first element
      is below `x`, otherwise the lower part. */
  function BinarySearch<T>(less: (T, T) -> bool, s: seq<T>, x: T, lo: nat, n: nat): (k: nat)
    requires lo + n <= |s|
    ensures lo <= k <= lo + n
    decreases n
  {
    if n == 0 then lo
    else
      var half := n / 2;
      if less(s[lo + half], x) then BinarySearch(less, s, x, lo + half + 1, n - half - 1)
      else BinarySearch(less, s, x, lo, half)
  }

  /** The index the lower-bound search returns on the whole of `s`. */
  function LowerBoundIndex<T>(less: (T, T) -> bool, s: seq<T>, x: T): (k: nat)
    ensures k <= |s|
  {
    BinarySearch(less, s, x, 0, |s|)
  }

  /** On a partitioned range the search lands exactly on the partition point,
      provided everything left of the window is below `x` and nothing right
      of it is. */
  lemma {:induction false} BinarySearchSplits<T>(less: (T, T) -> bool, s: seq<T>, x: T, lo: nat, n: nat)
    requires lo + n <= |s|
    requires Partitioned(less, s, x)
    requires forall i :: 0 <= i < lo ==> less(s[i], x)
    requires forall i :: lo + n <= i < |s| ==> !less(s[i], x)
    ensures forall i :: 0 <= i < BinarySearch(less, s, x, lo, n) ==> less(s[i], x)
    ensures forall i :: BinarySearch(less, s, x, lo, n) <= i < |s| ==> !less(s[i], x)
    decreases n
  {
    if n > 0 {
      var half := n / 2;
      if less(s[lo + half], x) {
        BinarySearchSplits(less, s, x, lo + half + 1, n - half - 1);
      } else {
        BinarySearchSplits(less, s, x, lo, half);
      }
    }
  }

  /** The lower bound of `x` in a partitioned `s`: everything before it is
      below `x`, nothing from it on is. */
  lemma LowerBoundSplits<T>(less: (T, T) -> bool, s: seq<T>, x: T)
    requires Partitioned(less, s, x)
    ensures forall i :: 0 <= i < LowerBoundIndex(less, s, x) ==> less(s[i], x)
    ensures forall i :: LowerBoundIndex(less, s, x) <= i < |s| ==> !less(s[i], x)
  {
    BinarySearchSplits(less, s, x, 0, |s|);
  }

  /** A list sorted under a strict weak order is partitioned for every key. */
  lemma SortedIsPartitioned<T(!new)>(less: (T, T) -> bool, s: seq<T>, x: T)
    requires StrictWeakOrder(less)
    requires Sorted(less, s)
    ensures Partitioned(less, s, x)
  {
    forall i, j | 0 <= i < j < |s| && less(s[j], x)
      ensures less(s[i], x)
    {
      assert !less(s[j], s[i]);
    }
  }

  /** The lower-bound binary search over the whole list, as the sorted
      insertion runs it. */
  method LowerBound<T>(less: (T, T) -> bool, s: seq<T>, x: T) returns (k: nat)
    ensures k == LowerBoundIndex(less, s, x)
    ensures Partitioned(less, s, x) ==>
      (forall i :: 0 <= i < k ==> less(s[i], x)) && (forall i :: k <= i < |s| ==> !less(s[i], x))
  {
    var begin: nat, n: nat := 0, |s|;
    while n > 0
      invariant begin + n <= |s|
      invariant BinarySearch(less, s, x, begin, n) == LowerBoundIndex(less, s, x)
      decreases n
    {
      var half := n / 2;
      var middle := begin + half;
      if less(s[middle], x) {
        begin := middle + 1;
        n := n - half - 1;
      } else {
        n := half;
      }
    }
    k := begin;
    if Partitioned(less, s, x) {
      LowerBoundSplits(less, s, x);
    }
  }

  /** `s` with `x` inserted at its lower bound. */
  function InsertSorted<T>(less: (T, T) -> bool, s: seq<T>, x: T): (r: seq<T>)
    ensures |r| == |s| + 1
    ensures multiset(r) == multiset(s) + multiset{x}
  {
    var k := LowerBoundIndex(less, s, x);
    assert s == s[..k] + s[k..];
    s[..k] + [x] + s[k..]
  }

  /** Inserts `x` into `s` at the index the lower-bound search returns. */
  method InsertAtLowerBound<T>(less: (T, T) -> bool, s: seq<T>, x: T) returns (r: seq<T>)
    ensures r == InsertSorted(less, s, x)
  {
    var index := LowerBound(less, s, x);
    r := s[..index] + [x] + s[index..];
  }

  /** Where the inserted element ends up: at the lower-bound index, with the
      old elements in their old order around it; on a partitioned list every
      element before it is below it and none after it is. */
  lemma InsertSortedPlaces<T>(less: (T, T) -> bool, s: seq<T>, x: T)
    ensures var k := LowerBoundIndex(less, s, x);
      var r := InsertSorted(less, s, x);
      && r[k] == x
      && r[..k] + r[k + 1..] == s
      && (forall i :: 0 <= i < k ==> r[i] == s[i])
      && (forall i :: k < i < |r| ==> r[i] == s[i - 1])
    ensures Partitioned(less, s, x) ==>
      var k := LowerBoundIndex(less, s, x);
      var r := InsertSorted(less, s, x);
      && (forall i :: 0 <= i < k ==> less(r[i], x))
      && (forall i :: k < i < |r| ==> !less(r[i], x))
  {
    var k := LowerBoundIndex(less, s, x);
    var r := InsertSorted(less, s, x);
    assert r[..k] == s[..k];
    assert r[k + 1..] == s[k..];
    if Partitioned(less, s, x) {
      LowerBoundSplits(less, s, x);
      forall i | k < i < |r| ensures !less(r[i], x) {
        assert r[i] == s[i - 1];
      }
    }
  }

  /** Inserting at the lower bound keeps a sorted list sorted. */
  lemma InsertSortedKeepsSorted<T(!new)>(less: (T, T) -> bool, s: seq<T>, x: T)
    requires StrictWeakOrder(less)
    requires Sorted(less, s)
    ensures Sorted(less, InsertSorted(less, s, x))
  {
    var k := LowerBoundIndex(less, s, x);
    var r := InsertSorted(less, s, x);
    SortedIsPartitioned(less, s, x);
    InsertSortedPlaces(less, s, x);
    forall i, j | 0 <= i < j < |r|
      ensures !less(r[j], r[i])
    {
      if i < k && j == k {
        assert less(r[i], x);
      } else if i == k && k < j {
        assert !less(r[j], x);
      } else {
        var i' := if i < k then i else i - 1;
        var j' := if j < k then j else j - 1;
        assert !less(s[j'], s[i']);
      }
    }
  }

  /** Removing one element keeps a sorted list sorted. */
  lemma RemoveAtKeepsSorted<T>(less: (T, T) -> bool, s: seq<T>, k: nat)
    requires k < |s|
    requires Sorted(less, s)
    ensures Sorted(less, s[..k] + s[k + 1..])
  {
    var r := s[..k] + s[k + 1..];
    forall i, j | 0 <= i < j < |r|
      ensures !less(r[j], r[i])
    {
      var i' := if i < k then i else i + 1;
      var j' := if j < k then j else j + 1;
      assert r[i] == s[i'] && r[j] == s[j'] && i' < j';
    }
  }

  /** The list built by inserting the elements of `s`, first to last, each
      at its lower bound, starting from the empty list. */
  function InsertAll<T>(less: (T, T) -> bool, s: seq<T>): (r: seq<T>)
    ensures multiset(r) == multiset(s)
    decreases |s|
  {
    if s == [] then []
    else
      assert s == s[..|s| - 1] + [s[|s| - 1]];
      InsertSorted(less, InsertAll(less, s[..|s| - 1]), s[|s| - 1])
  }

  /** Sorted insertion of any elements under a strict weak order yields a
      sorted list. */
  lemma {:induction false} InsertAllSorted<T(!new)>(less: (T, T) -> bool, s: seq<T>)
    requires StrictWeakOrder(less)
    ensures Sorted(less, InsertAll(less, s))
    decreases |s|
  {
    if s != [] {
      InsertAllSorted(less, s[..|s| - 1]);
      InsertSortedKeepsSorted(less, InsertAll(less, s[..|s| - 1]), s[|s| - 1]);
    }
  }
}
