/**
 The search panel: a left-to-right linear scan and a binary search over the
 array after it has been put in ascending order. The per-cell DOM elements
 are taken to exist for every index, so neither loop skips a cell.
 */
module Searching {
  import Sorting

  /** Scan from the left; the first index holding `target`, or -1. The
      array is only read. */
  method LinearSearch(a: seq<int>, target: int) returns (r: int)
    ensures -1 <= r < |a|
    ensures r == -1 <==> target !in a
    ensures r >= 0 ==> a[r] == target && target !in a[..r]
  {
    var i := 0;
    while i < |a|
      invariant 0 <= i <= |a|
      invariant target !in a[..i]
    {
      if a[i] == target {
        return i;
      }
      assert a[..i + 1] == a[..i] + [a[i]];
      i := i + 1;
    }
    assert a[..i] == a;
    return -1;
  }

  /** Halving search on an ascending array with inclusive bounds
      `left..right` and midpoint `(left + right) / 2` rounded down. Besides
      the answer it reports the probed midpoints in order. */
  method BinarySearch(a: seq<int>, target: int) returns (r: int, probes: seq<int>)
    requires Sorting.Sorted(a)
    ensures forall k :: 0 <= k < |probes| ==> 0 <= probes[k] < |a|
    ensures -1 <= r < |a|
    ensures r == -1 <==> target !in a
    ensures r != -1 ==> a[r] == target && |probes| > 0 && probes[|probes| - 1] == r
  {
    var left := 0;
    var right := |a| - 1;
    probes := [];
    while left <= right
      invariant 0 <= left <= right + 1 <= |a|
      invariant forall k :: 0 <= k < left ==> a[k] != target
      invariant forall k :: right < k < |a| ==> a[k] != target
      invariant forall k :: 0 <= k < |probes| ==> 0 <= probes[k] < |a|
      decreases right - left + 1
    {
      var mid := (left + right) / 2;
      probes := probes + [mid];
      if a[mid] == target {
        return mid, probes;
      }
      if a[mid] < target {
        left := mid + 1;
      } else {
        right := mid - 1;
      }
    }
    assert forall k :: 0 <= k < |a| ==> a[k] != target;
    return -1, probes;
  }

  /** The search button: `"linear"` scans the array as it is; any other
      selector value first sorts the array ascending, keeps it sorted, and
      binary-searches it. Returns the result index and the array afterwards. */
  method StartSearch(algorithm: string, a: seq<int>, target: int) returns (r: int, after: seq<int>)
    ensures multiset(after) == multiset(a) && -1 <= r < |after|
    ensures r == -1 <==> target !in a
    ensures r != -1 ==> after[r] == target
    ensures algorithm == "linear" ==> after == a && (r >= 0 ==> target !in a[..r])
    ensures algorithm != "linear" ==> after == Sorting.SortSpec(a)
  {
    if algorithm == "linear" {
      after := a;
      r := LinearSearch(a, target);
    } else {
      after := Sorting.MergeSort(a, 0, |a| - 1);
      assert Sorting.SortedRange(after, 0, |a|);
      Sorting.IsSortSpec(a, after);
      assert target in a <==> target in multiset(after);
      var probes;
      r, probes := BinarySearch(after, target);
    }
  }
}
