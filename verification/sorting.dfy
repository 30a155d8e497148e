/**
 The sorting engine: the six in-place sorts of the visualizer, with the
 highlighting, delays and pause polling erased. Each sort works on a value
 `seq<int>` and returns the rearranged sequence; the ranged sorts (merge and
 quick) keep the script's inclusive `left..right` bounds and leave every cell
 outside that range alone.
 */
module Sorting {

  /** Ascending order over the whole sequence. */
  predicate Sorted(s: seq<int>) {
    forall p, q :: 0 <= p < q < |s| ==> s[p] <= s[q]
  }

  /** Ascending order over the half-open index range [lo, hi). */
  predicate SortedRange(s: seq<int>, lo: int, hi: int) {
    0 <= lo <= hi <= |s| && forall p, q :: lo <= p < q < hi ==> s[p] <= s[q]
  }

  /** `a` and `b` agree on every index outside the half-open range [lo, hi). */
  predicate SameOutside(a: seq<int>, b: seq<int>, lo: int, hi: int) {
    |a| == |b| && forall k :: 0 <= k < |a| && !(lo <= k < hi) ==> a[k] == b[k]
  }

  /** Exchange of two cells, the `[x, y] = [y, x]` of the script. */
  function Swap(s: seq<int>, i: int, j: int): (r: seq<int>)
    requires 0 <= i < |s| && 0 <= j < |s|
    ensures |r| == |s| && r[i] == s[j] && r[j] == s[i]
    ensures forall k :: 0 <= k < |s| && k != i && k != j ==> r[k] == s[k]
    ensures multiset(r) == multiset(s)
  {
    s[i := s[j]][j := s[i]]
  }

  /** A rearrangement that keeps the outside of [lo, hi) keeps the multiset of
      the inside too, so every value now inside came from inside. */
  lemma PermutedRange(a: seq<int>, b: seq<int>, lo: int, hi: int)
    requires 0 <= lo <= hi <= |a|
    requires SameOutside(a, b, lo, hi) && multiset(a) == multiset(b)
    ensures multiset(a[lo..hi]) == multiset(b[lo..hi])
    ensures forall k :: lo <= k < hi ==> exists k' :: lo <= k' < hi && b[k] == a[k']
  {
    SliceMultiset(a, b, lo, hi);
    forall k | lo <= k < hi
      ensures exists k' :: lo <= k' < hi && b[k] == a[k']
    {
      var mid, mid' := a[lo..hi], b[lo..hi];
      assert mid'[k - lo] == b[k];
      assert b[k] in multiset(mid');
      assert b[k] in mid;
      var m :| 0 <= m < hi - lo && mid[m] == b[k];
      assert a[lo + m] == b[k];
    }
  }

  lemma SliceMultiset(a: seq<int>, b: seq<int>, lo: int, hi: int)
    requires 0 <= lo <= hi <= |a|
    requires SameOutside(a, b, lo, hi) && multiset(a) == multiset(b)
    ensures multiset(a[lo..hi]) == multiset(b[lo..hi])
  {
    ThreeParts(a, lo, hi);
    ThreeParts(b, lo, hi);
    assert a[..lo] == b[..lo];
    assert a[hi..] == b[hi..];
    var mid, mid' := multiset(a[lo..hi]), multiset(b[lo..hi]);
    forall x
      ensures mid[x] == mid'[x]
    {
      assert multiset(a)[x] == multiset(a[..lo])[x] + mid[x] + multiset(a[hi..])[x];
      assert multiset(b)[x] == multiset(b[..lo])[x] + mid'[x] + multiset(b[hi..])[x];
    }
  }

  /** Cutting a sequence at `lo` and `hi` splits its multiset in three. */
  lemma ThreeParts(s: seq<int>, lo: int, hi: int)
    requires 0 <= lo <= hi <= |s|
    ensures multiset(s) == multiset(s[..lo]) + multiset(s[lo..hi]) + multiset(s[hi..])
  {
    assert s == s[..lo] + s[lo..hi] + s[hi..];
  }

  /** Bubble sort (strict `>` swap of adjacent cells); after pass `i` the last
      `i + 1` cells are settled. */
  method BubbleSort(a0: seq<int>) returns (a: seq<int>)
    ensures Sorted(a)
    ensures multiset(a) == multiset(a0)
  {
    a := a0;
    var n := |a|;
    var i := 0;
    while i < n - 1
      invariant 0 <= i <= n
      invariant |a| == n && multiset(a) == multiset(a0)
      invariant SortedRange(a, n - i, n)
      invariant forall p, q :: 0 <= p < n - i <= q < n ==> a[p] <= a[q]
    {
      var j := 0;
      while j < n - i - 1
        invariant 0 <= j <= n - i - 1
        invariant |a| == n && multiset(a) == multiset(a0)
        invariant SortedRange(a, n - i, n)
        invariant forall p, q :: 0 <= p < n - i <= q < n ==> a[p] <= a[q]
        invariant forall k :: 0 <= k <= j ==> a[k] <= a[j]
      {
        if a[j] > a[j + 1] {
          a := Swap(a, j, j + 1);
        }
        j := j + 1;
      }
      i := i + 1;
    }
  }

  /** Selection sort: the scan keeps the first index of a minimum (strict `<`),
      and a swap happens only when that index moved. */
  method SelectionSort(a0: seq<int>) returns (a: seq<int>)
    ensures Sorted(a)
    ensures multiset(a) == multiset(a0)
  {
    a := a0;
    var n := |a|;
    var i := 0;
    while i < n - 1
      invariant 0 <= i <= n
      invariant |a| == n && multiset(a) == multiset(a0)
      invariant SortedRange(a, 0, i)
      invariant forall p, q :: 0 <= p < i <= q < n ==> a[p] <= a[q]
    {
      var minIdx := i;
      var j := i + 1;
      while j < n
        invariant i <= minIdx < j <= n
        invariant forall k :: i <= k < j ==> a[minIdx] <= a[k]
      {
        if a[j] < a[minIdx] {
          minIdx := j;
        }
        j := j + 1;
      }
      if minIdx != i {
        a := Swap(a, i, minIdx);
      }
      i := i + 1;
    }
  }

  /** One round of insertion sort: `b[..i]` was sorted, the cells of
      `b[j + 1..i]` (all greater than `key == b[i]`) moved one place right and
      the key landed at `j + 1`, above a cell no greater than it. */
  lemma InsertStep(b: seq<int>, a: seq<int>, i: int, j: int, key: int)
    requires 0 <= i < |b| && -1 <= j <= i - 1 && |a| == |b| && key == b[i]
    requires SortedRange(b, 0, i)
    requires forall k :: 0 <= k <= j ==> a[k] == b[k]
    requires a[j + 1] == key
    requires forall k :: j + 1 < k <= i ==> a[k] == b[k - 1] && a[k] > key
    requires forall k :: i < k < |a| ==> a[k] == b[k]
    requires j >= 0 ==> b[j] <= key
    ensures SortedRange(a, 0, i + 1)
  {
    forall p, q | 0 <= p < q < i + 1
      ensures a[p] <= a[q]
    {
      if q <= j {
        assert a[p] == b[p] && a[q] == b[q];
      } else if q == j + 1 {
        assert a[p] == b[p] <= b[j];
      } else if p <= j {
        assert a[p] == b[p] && a[q] == b[q - 1];
      } else if p > j + 1 {
        assert a[p] == b[p - 1] && a[q] == b[q - 1];
      }
    }
  }

  /** Moving the hole left by one (copying `a[j]` up) does not change the
      multiset of the sequence with the key put in the hole. */
  lemma ShiftKeepsMultiset(a: seq<int>, j: int, key: int)
    requires 0 <= j && j + 1 < |a|
    ensures multiset(a[j + 1 := a[j]][j := key]) == multiset(a[j + 1 := key])
  {
    assert a[j + 1 := a[j]][j := key] == Swap(a[j + 1 := key], j, j + 1);
  }

  /** One outer round of insertion sort: the key `a[i]` is inserted into the
      sorted prefix `a[..i]`; cells after `i` are not touched. */
  method InsertKey(a0: seq<int>, i: int) returns (a: seq<int>)
    requires 0 <= i < |a0| && SortedRange(a0, 0, i)
    ensures |a| == |a0| && SortedRange(a, 0, i + 1)
    ensures multiset(a) == multiset(a0)
    ensures forall k :: i < k < |a| ==> a[k] == a0[k]
  {
    a := a0;
    var key := a[i];
    var j := i - 1;
    assert a[i := key] == a0;
    while j >= 0 && a[j] > key
      invariant ShiftInv(a0, a, i, j, key)
    {
      ShiftStep(a0, a, i, j, key);
      a := a[j + 1 := a[j]];
      j := j - 1;
    }
    ShiftDone(a0, a, i, j, key);
    a := a[j + 1 := key];
  }

  /** The state of the shifting loop of insertion sort: cells up to `j` are
      untouched, cells `j + 2 ..= i` hold the old cells one to their left,
      all above the key, and the gap at `j + 1` awaits the key. */
  predicate ShiftInv(a0: seq<int>, a: seq<int>, i: int, j: int, key: int) {
    0 <= i < |a0| && -1 <= j <= i - 1 && |a| == |a0|
    && (forall k :: 0 <= k <= j ==> a[k] == a0[k])
    && (forall k :: j + 1 < k <= i ==> a[k] == a0[k - 1] && a[k] > key)
    && (forall k :: i < k < |a| ==> a[k] == a0[k])
    && multiset(a[j + 1 := key]) == multiset(a0)
  }

  /** Shifting `a[j]`, larger than the key, one place right. */
  lemma ShiftStep(a0: seq<int>, a: seq<int>, i: int, j: int, key: int)
    requires ShiftInv(a0, a, i, j, key) && j >= 0 && a[j] > key
    ensures ShiftInv(a0, a[j + 1 := a[j]], i, j - 1, key)
  {
    ShiftKeepsMultiset(a, j, key);
  }

  /** When the shifting stops, dropping the key into the gap orders the
      prefix through `i`. */
  lemma ShiftDone(a0: seq<int>, a: seq<int>, i: int, j: int, key: int)
    requires ShiftInv(a0, a, i, j, key) && !(j >= 0 && a[j] > key)
    requires SortedRange(a0, 0, i) && key == a0[i]
    ensures |a[j + 1 := key]| == |a0| && SortedRange(a[j + 1 := key], 0, i + 1)
    ensures multiset(a[j + 1 := key]) == multiset(a0)
    ensures forall k :: i < k < |a0| ==> a[j + 1 := key][k] == a0[k]
  {
    assert j >= 0 ==> a0[j] <= key;
    InsertStep(a0, a[j + 1 := key], i, j, key);
  }

  /** Insertion sort: cells strictly greater than the key shift one place to
      the right, and the key drops into the gap. */
  method InsertionSort(a0: seq<int>) returns (a: seq<int>)
    ensures Sorted(a)
    ensures multiset(a) == multiset(a0)
  {
    a := a0;
    var n := |a|;
    var i := 1;
    while i < n
      invariant 1 <= i && (n == 0 || i <= n)
      invariant |a| == n && multiset(a) == multiset(a0)
      invariant n > 0 ==> SortedRange(a, 0, i)
    {
      a := InsertKey(a, i);
      i := i + 1;
    }
  }

  /** Ascending order stated on neighbouring cells only. */
  predicate Chained(s: seq<int>) {
    forall p :: 0 < p < |s| ==> s[p - 1] <= s[p]
  }

  lemma {:induction false} ChainedIsSorted(s: seq<int>)
    requires Chained(s)
    ensures Sorted(s)
  {
    if |s| > 1 {
      var init := s[..|s| - 1];
      assert Chained(init);
      ChainedIsSorted(init);
      forall p, q | 0 <= p < q < |s|
        ensures s[p] <= s[q]
      {
        if q < |s| - 1 {
          assert init[p] <= init[q];
        } else if p < q - 1 {
          assert init[p] <= init[q - 1];
        }
      }
    }
  }

  /** Cutting a sequence in two splits its multiset. */
  lemma SplitMultiset(s: seq<int>, i: int)
    requires 0 <= i <= |s|
    ensures multiset(s) == multiset(s[..i]) + multiset(s[i..])
  {
    assert s == s[..i] + s[i..];
  }

  /** Taking the head `run[i]` of a run onto the merged output: the output
      still holds exactly the consumed prefixes and stays in order when the
      head is no smaller than the output's last value. */
  lemma TakeHead(merged: seq<int>, run: seq<int>, i: int, other: multiset<int>)
    requires 0 <= i < |run| && multiset(merged) == multiset(run[..i]) + other
    requires Chained(merged) && (|merged| > 0 ==> merged[|merged| - 1] <= run[i])
    ensures multiset(merged + [run[i]]) == multiset(run[..i + 1]) + other
    ensures Chained(merged + [run[i]])
  {
    assert run[..i + 1] == run[..i] + [run[i]];
  }

  /** The tail loops of the script's merge: the rest `run[i..]` of a run is
      copied out in order. */
  method AppendRest(merged0: seq<int>, run: seq<int>, i0: int) returns (merged: seq<int>)
    requires 0 <= i0 <= |run| && Chained(run) && Chained(merged0)
    requires |merged0| > 0 && i0 < |run| ==> merged0[|merged0| - 1] <= run[i0]
    ensures |merged| == |merged0| + |run| - i0
    ensures merged[..|merged0|] == merged0 && merged[|merged0|..] == run[i0..]
    ensures multiset(merged) == multiset(merged0) + multiset(run[i0..])
    ensures Chained(merged)
  {
    merged := merged0;
    var i := i0;
    while i < |run|
      invariant i0 <= i <= |run| && merged == merged0 + run[i0..i]
      invariant Chained(merged)
      invariant |merged| > 0 && i < |run| ==> merged[|merged| - 1] <= run[i]
    {
      CopyStep(merged0, run, i0, i);
      merged := merged + [run[i]];
      i := i + 1;
    }
    assert run[i0..i] == run[i0..];
    assert merged == merged0 + run[i0..];
  }

  /** Copying `run[i]` onto an ordered output that ends no higher keeps it
      ordered, ending at `run[i]`, which the rest of the run does not go
      below. */
  lemma CopyStep(merged0: seq<int>, run: seq<int>, i0: int, i: int)
    requires 0 <= i0 <= i < |run| && Chained(run)
    requires Chained(merged0 + run[i0..i])
    requires |merged0 + run[i0..i]| > 0 ==> (merged0 + run[i0..i])[|merged0 + run[i0..i]| - 1] <= run[i]
    ensures merged0 + run[i0..i + 1] == (merged0 + run[i0..i]) + [run[i]]
    ensures Chained(merged0 + run[i0..i + 1])
    ensures i + 1 < |run| ==> run[i] <= run[i + 1]
  {
    var m := merged0 + run[i0..i];
    assert run[i0..i + 1] == run[i0..i] + [run[i]];
    var t := m + [run[i]];
    assert forall p :: 0 <= p < |m| ==> t[p] == m[p];
    assert t[|m|] == run[i];
  }

  /** The first loop of the script's merge: the two copied runs are walked in
      step and the smaller head goes first, the left one on a tie (`<=`). It
      stops when either run is used up. */
  method MergeHeads(leftArr: seq<int>, rightArr: seq<int>) returns (merged: seq<int>, i: int, j: int)
    requires Chained(leftArr) && Chained(rightArr)
    ensures 0 <= i <= |leftArr| && 0 <= j <= |rightArr| && |merged| == i + j
    ensures i == |leftArr| || j == |rightArr|
    ensures multiset(merged) == multiset(leftArr[..i]) + multiset(rightArr[..j])
    ensures Chained(merged)
    ensures |merged| > 0 && i < |leftArr| ==> merged[|merged| - 1] <= leftArr[i]
    ensures |merged| > 0 && j < |rightArr| ==> merged[|merged| - 1] <= rightArr[j]
  {
    merged := [];
    i, j := 0, 0;
    while i < |leftArr| && j < |rightArr|
      invariant MergeInv(leftArr, rightArr, merged, i, j)
    {
      if leftArr[i] <= rightArr[j] {
        TakeLeft(leftArr, rightArr, merged, i, j);
        merged := merged + [leftArr[i]];
        i := i + 1;
      } else {
        TakeRight(leftArr, rightArr, merged, i, j);
        merged := merged + [rightArr[j]];
        j := j + 1;
      }
    }
  }

  /** The state of the two-run loop: the output holds exactly the consumed
      prefixes, in order, and no higher than either run's next value. */
  predicate MergeInv(leftArr: seq<int>, rightArr: seq<int>, merged: seq<int>, i: int, j: int) {
    0 <= i <= |leftArr| && 0 <= j <= |rightArr| && |merged| == i + j
    && multiset(merged) == multiset(leftArr[..i]) + multiset(rightArr[..j])
    && Chained(merged)
    && (|merged| > 0 && i < |leftArr| ==> merged[|merged| - 1] <= leftArr[i])
    && (|merged| > 0 && j < |rightArr| ==> merged[|merged| - 1] <= rightArr[j])
  }

  /** Taking the left head when it is no larger than the right one. */
  lemma TakeLeft(leftArr: seq<int>, rightArr: seq<int>, merged: seq<int>, i: int, j: int)
    requires Chained(leftArr) && MergeInv(leftArr, rightArr, merged, i, j)
    requires i < |leftArr| && j < |rightArr| && leftArr[i] <= rightArr[j]
    ensures MergeInv(leftArr, rightArr, merged + [leftArr[i]], i + 1, j)
  {
    TakeHead(merged, leftArr, i, multiset(rightArr[..j]));
    assert (merged + [leftArr[i]])[|merged|] == leftArr[i];
  }

  /** Taking the right head when it is smaller than the left one. */
  lemma TakeRight(leftArr: seq<int>, rightArr: seq<int>, merged: seq<int>, i: int, j: int)
    requires Chained(rightArr) && MergeInv(leftArr, rightArr, merged, i, j)
    requires i < |leftArr| && j < |rightArr| && rightArr[j] < leftArr[i]
    ensures MergeInv(leftArr, rightArr, merged + [rightArr[j]], i, j + 1)
  {
    TakeHead(merged, rightArr, j, multiset(leftArr[..i]));
    assert (merged + [rightArr[j]])[|merged|] == rightArr[j];
  }

  /** The three loops of the script's merge together: heads first, then the
      rest of the left run, then the rest of the right run. */
  method MergeRuns(leftArr: seq<int>, rightArr: seq<int>) returns (merged: seq<int>)
    requires Chained(leftArr) && Chained(rightArr)
    ensures Sorted(merged) && |merged| == |leftArr| + |rightArr|
    ensures multiset(merged) == multiset(leftArr) + multiset(rightArr)
  {
    var heads, i, j := MergeHeads(leftArr, rightArr);
    var withLeft := AppendRest(heads, leftArr, i);
    assert i == |leftArr| ==> withLeft == withLeft[..|heads|] == heads;
    merged := AppendRest(withLeft, rightArr, j);
    RunsCopied(leftArr, rightArr, heads, i, j, withLeft, merged);
  }

  /** The output after the three loops holds both runs in full. */
  lemma RunsCopied(leftArr: seq<int>, rightArr: seq<int>, heads: seq<int>, i: int, j: int, withLeft: seq<int>, merged: seq<int>)
    requires 0 <= i <= |leftArr| && 0 <= j <= |rightArr|
    requires multiset(heads) == multiset(leftArr[..i]) + multiset(rightArr[..j])
    requires multiset(withLeft) == multiset(heads) + multiset(leftArr[i..])
    requires multiset(merged) == multiset(withLeft) + multiset(rightArr[j..])
    requires Chained(merged)
    ensures Sorted(merged)
    ensures multiset(merged) == multiset(leftArr) + multiset(rightArr)
  {
    SplitMultiset(leftArr, i);
    SplitMultiset(rightArr, j);
    ChainedIsSorted(merged);
  }

  /** Merge of the sorted runs `a[left..mid]` and `a[mid + 1..right]`
      (inclusive bounds), written back over `left..right`. */
  method Merge(a: seq<int>, left: int, mid: int, right: int) returns (b: seq<int>)
    requires 0 <= left <= mid + 1 <= right + 1 <= |a|
    requires SortedRange(a, left, mid + 1) && SortedRange(a, mid + 1, right + 1)
    ensures SortedRange(b, left, right + 1)
    ensures SameOutside(a, b, left, right + 1) && multiset(b) == multiset(a)
  {
    var leftArr := a[left..mid + 1];
    var rightArr := a[mid + 1..right + 1];
    var merged := MergeRuns(leftArr, rightArr);
    b := a[..left] + merged + a[right + 1..];
    assert a == a[..left] + (leftArr + rightArr) + a[right + 1..];
    assert b[left..right + 1] == merged;
  }

  /** Top-down merge sort of `a[left..right]` (inclusive), split at
      `floor((left + right) / 2)`; the script's entry call is
      `MergeSort(a, 0, |a| - 1)`. */
  method MergeSort(a: seq<int>, left: int, right: int) returns (b: seq<int>)
    requires 0 <= left <= right + 1 <= |a|
    ensures SortedRange(b, left, right + 1)
    ensures SameOutside(a, b, left, right + 1) && multiset(b) == multiset(a)
    decreases right - left + 1
  {
    if left >= right {
      return a;
    }
    var mid := (left + right) / 2;
    var c := MergeSort(a, left, mid);
    var d := MergeSort(c, mid + 1, right);
    assert SortedRange(d, left, mid + 1) by {
      forall p | left <= p <= mid ensures d[p] == c[p] { }
    }
    b := Merge(d, left, mid, right);
  }

  /** Lomuto partition of `a[low..high]` (inclusive) around the pivot
      `a[high]`: cells strictly below the pivot are swapped down behind the
      boundary `i`, then the pivot is swapped into `i + 1`, which is returned. */
  method Partition(a: seq<int>, low: int, high: int) returns (b: seq<int>, pi: int)
    requires 0 <= low <= high < |a|
    ensures low <= pi <= high
    ensures SameOutside(a, b, low, high + 1) && multiset(b) == multiset(a)
    ensures b[pi] == a[high]
    ensures forall k :: low <= k < pi ==> b[k] < b[pi]
    ensures forall k :: pi < k <= high ==> b[k] >= b[pi]
  {
    var pivot := a[high];
    b := a;
    var i := low - 1;
    var j := low;
    while j < high
      invariant low - 1 <= i < j <= high
      invariant SameOutside(a, b, low, high + 1) && multiset(b) == multiset(a)
      invariant b[high] == pivot
      invariant forall k :: low <= k <= i ==> b[k] < pivot
      invariant forall k :: i < k < j ==> b[k] >= pivot
    {
      if b[j] < pivot {
        i := i + 1;
        if i != j {
          b := Swap(b, i, j);
        }
      }
      j := j + 1;
    }
    b := Swap(b, i + 1, high);
    pi := i + 1;
  }

  /** Values in [lo, hi) all strictly below `x`. */
  predicate AllBelow(s: seq<int>, lo: int, hi: int, x: int) {
    forall k :: lo <= k < hi && 0 <= k < |s| ==> s[k] < x
  }

  /** Values in [lo, hi) all at least `x`. */
  predicate AllAtLeast(s: seq<int>, lo: int, hi: int, x: int) {
    forall k :: lo <= k < hi && 0 <= k < |s| ==> s[k] >= x
  }

  /** Values in [lo, hi) all at most `x`. */
  predicate AllAtMost(s: seq<int>, lo: int, hi: int, x: int) {
    forall k :: lo <= k < hi && 0 <= k < |s| ==> s[k] <= x
  }

  /** Sorting a range in place keeps the bounds its values had. */
  lemma PermutedRangeBounds(a: seq<int>, b: seq<int>, lo: int, hi: int, x: int)
    requires 0 <= lo <= hi <= |a|
    requires SameOutside(a, b, lo, hi) && multiset(a) == multiset(b)
    ensures AllBelow(a, lo, hi, x) ==> AllBelow(b, lo, hi, x)
    ensures AllAtLeast(a, lo, hi, x) ==> AllAtLeast(b, lo, hi, x)
    ensures AllAtMost(a, lo, hi, x) ==> AllAtMost(b, lo, hi, x)
  {
    PermutedRange(a, b, lo, hi);
  }

  /** Quicksort of `a[low..high]` (inclusive) by Lomuto partition; the script's
      entry call is `QuickSort(a, 0, |a| - 1)`. */
  method QuickSort(a: seq<int>, low: int, high: int) returns (b: seq<int>)
    requires 0 <= low <= high + 1 <= |a|
    ensures SortedRange(b, low, high + 1)
    ensures SameOutside(a, b, low, high + 1) && multiset(b) == multiset(a)
    decreases high - low + 1
  {
    b := a;
    if low < high {
      var c, pi := Partition(a, low, high);
      var d := QuickSort(c, low, pi - 1);
      b := QuickSort(d, pi + 1, high);
      QuickGlue(a, c, d, b, low, high, pi);
    }
  }

  /** Sorting the two sides of a partitioned range in turn sorts the whole
      range: the pivot stays put between values below it and values at
      least as large. */
  lemma QuickGlue(a: seq<int>, c: seq<int>, d: seq<int>, b: seq<int>, low: int, high: int, pi: int)
    requires 0 <= low <= pi <= high < |a|
    requires SameOutside(a, c, low, high + 1) && multiset(c) == multiset(a)
    requires AllBelow(c, low, pi, c[pi]) && AllAtLeast(c, pi + 1, high + 1, c[pi])
    requires SortedRange(d, low, pi) && SameOutside(c, d, low, pi) && multiset(d) == multiset(c)
    requires SortedRange(b, pi + 1, high + 1) && SameOutside(d, b, pi + 1, high + 1) && multiset(b) == multiset(d)
    ensures SortedRange(b, low, high + 1)
    ensures SameOutside(a, b, low, high + 1) && multiset(b) == multiset(a)
  {
    var pivot := c[pi];
    PermutedRangeBounds(c, d, low, pi, pivot);
    PermutedRangeBounds(d, b, pi + 1, high + 1, pivot);
    assert AllAtLeast(d, pi + 1, high + 1, pivot);
    assert b[pi] == pivot;
    assert AllBelow(b, low, pi, pivot);
  }

  /** The heap `s[..n]` is max-ordered at every parent index `from` or above:
      each child is at most its parent `(k - 1) / 2`. */
  predicate HeapFrom(s: seq<int>, n: int, from: int)
    requires n <= |s|
  {
    forall k {:trigger s[k]} :: 0 < k < n && (k - 1) / 2 >= from ==> s[(k - 1) / 2] >= s[k]
  }

  /** `j` lies in the heap subtree rooted at `i` (`i` itself included). */
  ghost predicate Desc(i: nat, j: nat)
    decreases j
  {
    j == i || (j > i && Desc(i, (j - 1) / 2))
  }

  lemma {:induction false} DescAtLeast(i: nat, j: nat)
    requires Desc(i, j)
    ensures i <= j
  {
  }

  lemma {:induction false} DescTrans(i: nat, j: nat, k: nat)
    requires Desc(i, j) && Desc(j, k)
    ensures Desc(i, k)
    decreases k
  {
    if k != j {
      DescAtLeast(j, k);
      DescTrans(i, j, (k - 1) / 2);
    }
  }

  /** The root of a whole heap is its maximum. */
  lemma {:induction false} HeapRootMax(s: seq<int>, n: int, k: int)
    requires 0 <= k < n <= |s| && HeapFrom(s, n, 0)
    ensures s[0] >= s[k]
    decreases k
  {
    if k > 0 {
      HeapRootMax(s, n, (k - 1) / 2);
    }
  }

  /** Sift `a[i]` down the heap `a[..n]` whose subtrees below `i` are already
      heaps: the larger child is swapped up and the sift continues there.
      Only cells in the subtree of `i` move, and the new value at `i` is the
      largest of `a[i]` and its children. */
  method Heapify(a: seq<int>, n: int, i: int) returns (b: seq<int>)
    requires 0 <= i < n <= |a| && HeapFrom(a, n, i + 1)
    ensures |b| == |a| && multiset(b) == multiset(a)
    ensures HeapFrom(b, n, i)
    ensures SameOutside(a, b, 0, n)
    ensures forall k :: 0 <= k < |a| && !Desc(i, k) ==> b[k] == a[k]
    ensures b[i] == a[i] || (2 * i + 1 < n && b[i] == a[2 * i + 1]) || (2 * i + 2 < n && b[i] == a[2 * i + 2])
    ensures b[i] >= a[i]
    ensures 2 * i + 1 < n ==> b[i] >= a[2 * i + 1]
    ensures 2 * i + 2 < n ==> b[i] >= a[2 * i + 2]
    decreases n - i, 1
  {
    var largest := i;
    var left := 2 * i + 1;
    var right := 2 * i + 2;
    if left < n && a[left] > a[largest] {
      largest := left;
    }
    if right < n && a[right] > a[largest] {
      largest := right;
    }
    if largest == i {
      b := a;
      return;
    }
    b := SiftChild(a, n, i, largest);
  }

  /** The swapping branch of `Heapify`: `a[largest]`, the larger child of
      `i`, exceeds `a[i]`; swap them and sift on from `largest`. */
  method SiftChild(a: seq<int>, n: int, i: int, largest: int) returns (b: seq<int>)
    requires 0 <= i < n <= |a| && HeapFrom(a, n, i + 1)
    requires largest == 2 * i + 1 || largest == 2 * i + 2
    requires largest < n && a[largest] > a[i]
    requires 2 * i + 1 < n ==> a[largest] >= a[2 * i + 1]
    requires 2 * i + 2 < n ==> a[largest] >= a[2 * i + 2]
    ensures |b| == |a| && multiset(b) == multiset(a)
    ensures HeapFrom(b, n, i)
    ensures SameOutside(a, b, 0, n)
    ensures forall k :: 0 <= k < |a| && !Desc(i, k) ==> b[k] == a[k]
    ensures b[i] == a[largest]
    decreases n - i, 0
  {
    assert n - largest < n - i;
    var c := Swap(a, i, largest);
    HeapAfterSwap(a, c, n, i, largest);
    b := Heapify(c, n, largest);
    HeapAfterSift(a, c, b, n, i, largest);
  }

  /** After swapping `a[i]` with its larger child, the subtrees below that
      child are still heaps. */
  lemma HeapAfterSwap(a: seq<int>, c: seq<int>, n: int, i: int, largest: int)
    requires 0 <= i < n <= |a| && HeapFrom(a, n, i + 1)
    requires largest == 2 * i + 1 || largest == 2 * i + 2
    requires largest < n && c == Swap(a, i, largest)
    ensures HeapFrom(c, n, largest + 1)
  {
  }

  /** Gluing step of `Heapify`: the swap at `i` followed by the sift at
      `largest` leaves a heap from `i` and moves only the subtree of `i`. */
  lemma HeapAfterSift(a: seq<int>, c: seq<int>, b: seq<int>, n: int, i: int, largest: int)
    requires SiftState(a, c, b, n, i, largest) && SameOutside(c, b, 0, n)
    ensures HeapFrom(b, n, i)
    ensures SameOutside(a, b, 0, n)
    ensures b[i] == a[largest]
    ensures forall k :: 0 <= k < |a| && !Desc(i, k) ==> b[k] == a[k]
  {
    assert Desc(i, largest);
    assert !Desc(largest, i);
    forall k | 0 <= k < |a| && !Desc(i, k)
      ensures b[k] == a[k]
    {
      if Desc(largest, k) {
        DescTrans(i, largest, k);
      }
    }
    forall k {:trigger b[k]} | 0 < k < n && (k - 1) / 2 >= i
      ensures b[(k - 1) / 2] >= b[k]
    {
      SiftOrderAt(a, c, b, n, i, largest, k);
    }
  }

  /** The facts `HeapAfterSift` starts from: `c` is `a` with `a[i]` swapped
      with its larger child `largest`, and `b` is `c` sifted from `largest`. */
  ghost predicate SiftState(a: seq<int>, c: seq<int>, b: seq<int>, n: int, i: int, largest: int) {
    0 <= i < n <= |a| && HeapFrom(a, n, i + 1)
    && (largest == 2 * i + 1 || largest == 2 * i + 2)
    && largest < n && c == Swap(a, i, largest)
    && a[largest] > a[i]
    && (2 * i + 1 < n ==> a[largest] >= a[2 * i + 1])
    && (2 * i + 2 < n ==> a[largest] >= a[2 * i + 2])
    && |b| == |c| && HeapFrom(b, n, largest)
    && (forall k :: 0 <= k < |c| && !Desc(largest, k) ==> b[k] == c[k])
    && (b[largest] == c[largest] || (2 * largest + 1 < n && b[largest] == c[2 * largest + 1])
        || (2 * largest + 2 < n && b[largest] == c[2 * largest + 2]))
  }

  /** The heap order at one child `k` below `i` after the swap and sift. */
  lemma SiftOrderAt(a: seq<int>, c: seq<int>, b: seq<int>, n: int, i: int, largest: int, k: int)
    requires SiftState(a, c, b, n, i, largest)
    requires 0 < k < n && (k - 1) / 2 >= i
    ensures b[(k - 1) / 2] >= b[k]
  {
    var p := (k - 1) / 2;
    if Desc(largest, p) {
      DescAtLeast(largest, p);
    } else if p == i {
      SiftOrderAtTop(a, c, b, n, i, largest, k);
    } else {
      SiftOrderOutside(a, c, b, n, i, largest, k);
    }
  }

  /** A child of `i` itself: the new `b[i]` is the old larger child. */
  lemma SiftOrderAtTop(a: seq<int>, c: seq<int>, b: seq<int>, n: int, i: int, largest: int, k: int)
    requires SiftState(a, c, b, n, i, largest)
    requires 0 < k < n && (k - 1) / 2 == i
    ensures b[i] >= b[k]
  {
    assert !Desc(largest, i);
    assert b[i] == a[largest];
    if k == largest {
      assert 2 * largest + 1 < n ==> a[2 * largest + 1] <= a[largest];
      assert 2 * largest + 2 < n ==> a[2 * largest + 2] <= a[largest];
    } else {
      assert !Desc(largest, k);
    }
  }

  /** A parent below `i` outside the sifted subtree: neither cell moved. */
  lemma SiftOrderOutside(a: seq<int>, c: seq<int>, b: seq<int>, n: int, i: int, largest: int, k: int)
    requires SiftState(a, c, b, n, i, largest)
    requires 0 < k < n && (k - 1) / 2 > i && !Desc(largest, (k - 1) / 2)
    ensures b[(k - 1) / 2] >= b[k]
  {
    var p := (k - 1) / 2;
    assert !Desc(largest, k);
    assert b[p] == a[p] && b[k] == a[k];
  }

  /** Heap sort: build a max heap bottom-up, then repeatedly swap the root to
      the end of the shrinking heap and sift the new root down. */
  method HeapSort(a: seq<int>) returns (b: seq<int>)
    ensures Sorted(b) && multiset(b) == multiset(a)
  {
    b := a;
    var n := |a|;
    var i := n / 2 - 1;
    while i >= 0
      invariant -1 <= i <= n / 2 - 1
      invariant |b| == n && multiset(b) == multiset(a)
      invariant HeapFrom(b, n, i + 1)
    {
      b := Heapify(b, n, i);
      i := i - 1;
    }
    i := n - 1;
    while i > 0
      invariant -1 <= i < n && (n > 0 ==> i >= 0)
      invariant |b| == n && multiset(b) == multiset(a)
      invariant HeapFrom(b, i + 1, 0)
      invariant SortedRange(b, i + 1, n)
      invariant forall p, q :: 0 <= p <= i < q < n ==> b[p] <= b[q]
    {
      b := ExtractMax(b, n, i);
      i := i - 1;
    }
  }

  /** One extraction round of `HeapSort`: the root of the heap `b[..i + 1]`
      goes to position `i`, in front of the sorted tail. */
  method ExtractMax(b0: seq<int>, n: int, i: int) returns (b: seq<int>)
    requires 0 < i < n == |b0|
    requires HeapFrom(b0, i + 1, 0) && SortedRange(b0, i + 1, n)
    requires forall p, q :: 0 <= p <= i < q < n ==> b0[p] <= b0[q]
    ensures |b| == n && multiset(b) == multiset(b0)
    ensures HeapFrom(b, i, 0) && SortedRange(b, i, n)
    ensures forall p, q :: 0 <= p < i <= q < n ==> b[p] <= b[q]
  {
    var c := Swap(b0, 0, i);
    SwapRootOut(b0, n, i);
    b := Heapify(c, i, 0);
    SiftKeepsTail(c, b, n, i);
  }

  /** Swapping the root of the heap `b0[..i + 1]` to position `i`: the
      cells before `i` are a heap below the root and no larger than any
      cell from `i` on, which are in order. */
  lemma SwapRootOut(b0: seq<int>, n: int, i: int)
    requires 0 < i < n == |b0|
    requires HeapFrom(b0, i + 1, 0) && SortedRange(b0, i + 1, n)
    requires forall p, q :: 0 <= p <= i < q < n ==> b0[p] <= b0[q]
    ensures HeapFrom(Swap(b0, 0, i), i, 1) && SortedRange(Swap(b0, 0, i), i, n)
    ensures forall p, q :: 0 <= p < i <= q < n ==> Swap(b0, 0, i)[p] <= Swap(b0, 0, i)[q]
  {
    var c := Swap(b0, 0, i);
    forall k | 0 <= k <= i
      ensures b0[k] <= b0[0]
    {
      HeapRootMax(b0, i + 1, k);
    }
    assert forall p :: 0 <= p < i ==> c[p] <= b0[0] == c[i];
  }

  /** Re-heapifying the cells before `i` only permutes them, so each stays
      no larger than every cell of the sorted tail. */
  lemma SiftKeepsTail(c: seq<int>, b: seq<int>, n: int, i: int)
    requires 0 < i < n == |c|
    requires SortedRange(c, i, n) && forall p, q :: 0 <= p < i <= q < n ==> c[p] <= c[q]
    requires SameOutside(c, b, 0, i) && multiset(b) == multiset(c)
    ensures SortedRange(b, i, n) && forall p, q :: 0 <= p < i <= q < n ==> b[p] <= b[q]
  {
    PermutedRange(c, b, 0, i);
  }

  /** Reference definition of the sorted order: insert each element into the
      sorted rest. */
  function InsertSorted(x: int, s: seq<int>): (r: seq<int>)
    requires Sorted(s)
    ensures Sorted(r) && multiset(r) == multiset(s) + multiset{x}
    decreases |s|
  {
    if |s| == 0 || x <= s[0] then
      ConsSorted(x, s);
      [x] + s
    else
      var rest := InsertSorted(x, s[1..]);
      KeepHead(x, s, rest);
      [s[0]] + rest
  }

  /** A value no larger than the head of a sorted sequence can go in front. */
  lemma ConsSorted(x: int, s: seq<int>)
    requires Sorted(s) && (|s| == 0 || x <= s[0])
    ensures Sorted([x] + s) && multiset([x] + s) == multiset(s) + multiset{x}
  {
    var r := [x] + s;
    forall p, q | 0 <= p < q < |r|
      ensures r[p] <= r[q]
    {
      if p > 0 {
        assert r[p] == s[p - 1] && r[q] == s[q - 1];
      } else {
        assert s[0] <= s[q - 1];
      }
    }
  }

  /** Inserting `x`, larger than the head, into the tail leaves the head in
      front. */
  lemma KeepHead(x: int, s: seq<int>, rest: seq<int>)
    requires Sorted(s) && |s| > 0 && x > s[0]
    requires Sorted(rest) && multiset(rest) == multiset(s[1..]) + multiset{x}
    ensures Sorted([s[0]] + rest) && multiset([s[0]] + rest) == multiset(s) + multiset{x}
  {
    assert s == [s[0]] + s[1..];
    forall k | 0 <= k < |rest|
      ensures s[0] <= rest[k]
    {
      assert rest[k] in multiset(rest);
      if rest[k] != x {
        assert rest[k] in multiset(s[1..]);
        var m :| 0 <= m < |s[1..]| && s[1..][m] == rest[k];
        assert s[m + 1] == rest[k];
      }
    }
    var r := [s[0]] + rest;
    forall p, q | 0 <= p < q < |r|
      ensures r[p] <= r[q]
    {
      if p > 0 {
        assert r[p] == rest[p - 1] && r[q] == rest[q - 1];
      } else {
        assert r[q] == rest[q - 1];
      }
    }
  }

  function SortSpec(s: seq<int>): (r: seq<int>)
    ensures Sorted(r) && multiset(r) == multiset(s)
  {
    if |s| == 0 then []
    else
      assert s == [s[0]] + s[1..];
      InsertSorted(s[0], SortSpec(s[1..]))
  }

  /** A sorted sequence is determined by its multiset of values: any two
      sorts of the same input agree. */
  lemma {:induction false} SortedUnique(x: seq<int>, y: seq<int>)
    requires Sorted(x) && Sorted(y) && multiset(x) == multiset(y)
    ensures x == y
    decreases |x|
  {
    if |x| == 0 {
      assert |multiset(y)| == 0;
    } else {
      assert |y| == |multiset(y)| == |x|;
      HeadIsLeast(x, y[0]);
      HeadIsLeast(y, x[0]);
      SplitHead(x);
      SplitHead(y);
      assert x[0] == y[0];
      forall v
        ensures multiset(x[1..])[v] == multiset(y[1..])[v]
      {
        assert multiset(x)[v] == multiset(y)[v];
      }
      assert multiset(x[1..]) == multiset(y[1..]);
      assert Sorted(x[1..]) && Sorted(y[1..]);
      SortedUnique(x[1..], y[1..]);
    }
  }

  lemma HeadIsLeast(s: seq<int>, v: int)
    requires Sorted(s) && v in multiset(s)
    ensures s[0] <= v
  {
    var k :| 0 <= k < |s| && s[k] == v;
  }

  lemma SplitHead(s: seq<int>)
    requires |s| > 0
    ensures multiset(s) == multiset{s[0]} + multiset(s[1..])
    ensures s == [s[0]] + s[1..]
  {
    assert s == [s[0]] + s[1..];
  }

  /** Every sorted permutation of `a` is the reference sort of `a`. */
  lemma IsSortSpec(a: seq<int>, b: seq<int>)
    requires Sorted(b) && multiset(b) == multiset(a)
    ensures b == SortSpec(a)
  {
    SortedUnique(b, SortSpec(a));
  }

  /** The algorithms the sorting panel offers, by their selector value. */
  datatype SortAlgorithm = Bubble | Selection | Insertion | MergeAlg | Quick | Heap

  function AlgorithmNamed(name: string): (r: Option<SortAlgorithm>)
    ensures r.Some? <==> name in ["bubble", "selection", "insertion", "merge", "quick", "heap"]
  {
    match name
    case "bubble" => Some(Bubble)
    case "selection" => Some(Selection)
    case "insertion" => Some(Insertion)
    case "merge" => Some(MergeAlg)
    case "quick" => Some(Quick)
    case "heap" => Some(Heap)
    case _ => None
  }

  datatype Option<T> = None | Some(value: T)

  /** The dispatch of the sort button: a known selector value runs that sort
      (merge and quick over the whole array), an unknown one leaves the
      array as it is. Whichever algorithm runs, the outcome is the same
      reference sort. */
  method RunSort(name: string, a: seq<int>) returns (b: seq<int>)
    ensures AlgorithmNamed(name).Some? ==> b == SortSpec(a)
    ensures AlgorithmNamed(name).None? ==> b == a
  {
    match AlgorithmNamed(name)
    case None => b := a;
    case Some(alg) =>
      b := SortWith(alg, a);
      IsSortSpec(a, b);
  }

  method SortWith(alg: SortAlgorithm, a: seq<int>) returns (b: seq<int>)
    ensures Sorted(b) && multiset(b) == multiset(a)
  {
    match alg
    case Bubble => b := BubbleSort(a);
    case Selection => b := SelectionSort(a);
    case Insertion => b := InsertionSort(a);
    case MergeAlg =>
      b := MergeSort(a, 0, |a| - 1);
      assert SortedRange(b, 0, |a|);
    case Quick =>
      b := QuickSort(a, 0, |a| - 1);
      assert SortedRange(b, 0, |a|);
    case Heap => b := HeapSort(a);
  }
}
