/** The ascending in-place sort that `sort_max2` applies to its vector
    (`sorted.sort()` at src/lib.rs:13). Only what the caller relies on is
    specified: afterwards the array is in ascending order and holds the same
    values, each as often as before. */
module Sorting {

  /** Every element is at most every element to its right. */
  ghost predicate Sorted(s: seq<int>) {
    forall i, j | 0 <= i < j < |s| :: s[i] <= s[j]
  }

  /** Sorts `a` ascending by insertion: the prefix `a[..i]` is sorted, and each
      step inserts `a[i]` into it. */
  method SortInPlace(a: array<int>)
    modifies a
    ensures Sorted(a[..])
    ensures multiset(a[..]) == old(multiset(a[..]))
  {
    for i := 0 to a.Length
      invariant Sorted(a[..i])
      invariant multiset(a[..]) == old(multiset(a[..]))
    {
      InsertAt(a, i);
    }
  }

  /** Moves `a[i]` leftwards into the sorted prefix `a[..i]`, swapping it with
      its left neighbour while that neighbour is larger. */
  method InsertAt(a: array<int>, i: int)
    requires 0 <= i < a.Length
    requires Sorted(a[..i])
    modifies a
    ensures Sorted(a[..i + 1])
    ensures a[i + 1..] == old(a[i + 1..])
    ensures multiset(a[..]) == old(multiset(a[..]))
  {
    var j := i;
    while 0 < j && a[j] < a[j - 1]
      invariant 0 <= j <= i
      // a[..i+1] is in order except around the element being moved, at j,
      invariant forall k, l | 0 <= k < l <= i && k != j && l != j :: a[k] <= a[l]
      // which is no larger than anything it has already been moved past
      invariant forall l | j < l <= i :: a[j] <= a[l]
      invariant a[i + 1..] == old(a[i + 1..])
      invariant multiset(a[..]) == old(multiset(a[..]))
    {
      SwapWithLeft(a, j);
      j := j - 1;
    }
  }

  /** Exchanges `a[j - 1]` and `a[j]`. */
  method SwapWithLeft(a: array<int>, j: int)
    requires 0 < j < a.Length
    modifies a
    ensures a[..] == old(a[..])[j - 1 := old(a[j])][j := old(a[j - 1])]
    ensures multiset(a[..]) == old(multiset(a[..]))
  {
    a[j - 1], a[j] := a[j], a[j - 1];
  }
}
