/** The in-place sorting kernel of sort.h: swap, Hoare partition, merge and
    the quick sort and merge sort drivers, single- and multi-threaded.

    Arrays are `array<int>` and ranges are inclusive `[low, high]` as in the
    C code.  Indices are unbounded integers, so the unsigned arithmetic of
    the C code is replaced by preconditions on the range.  A thread that
    sorts a child range is modelled as a call that runs to completion; the
    scheduler's choice of which of two sibling threads runs first is a
    parameter (`Schedule`), and every choice is proved to give the same
    result, because sibling ranges are disjoint. */
module Sort {
  import opened Sorting
  import opened Merging

  /** Which of two sibling threads finishes its work first, at each node of
      the tree of worker threads.  `AsCreated` lets the low child finish
      first at this node and below it. */
  datatype Schedule = AsCreated | Fork(lowFirst: bool, lowTask: Schedule, highTask: Schedule)
  {
    predicate LowFirst() {
      AsCreated? || lowFirst
    }

    function Low(): Schedule {
      if Fork? then lowTask else AsCreated
    }

    function High(): Schedule {
      if Fork? then highTask else AsCreated
    }
  }

  /** Exchanges `a[i]` and `a[j]`; nothing else changes. */
  method Swap(a: array<int>, i: int, j: int)
    requires 0 <= i < a.Length && 0 <= j < a.Length
    modifies a
    ensures a[..] == old(a[..])[i := old(a[j])][j := old(a[i])]
  {
    var temp := a[i];
    a[i] := a[j];
    a[j] := temp;
  }

  /** Every value of `s` in `[from, to]` is below `x`. */
  ghost predicate AllBelow(s: seq<int>, from: int, to: int, x: int) {
    forall k :: from <= k <= to && 0 <= k < |s| ==> s[k] < x
  }

  /** Every value of `s` in `[from, to]` is above `x`. */
  ghost predicate AllAbove(s: seq<int>, from: int, to: int, x: int) {
    forall k :: from <= k <= to && 0 <= k < |s| ==> x < s[k]
  }

  /** No value of `s` in `[from, to]` is above `x`. */
  ghost predicate NoneAbove(s: seq<int>, from: int, to: int, x: int) {
    forall k :: from <= k <= to && 0 <= k < |s| ==> s[k] <= x
  }

  /** No value of `s` in `[from, to]` is below `x`. */
  ghost predicate NoneBelow(s: seq<int>, from: int, to: int, x: int) {
    forall k :: from <= k <= to && 0 <= k < |s| ==> x <= s[k]
  }

  /** The forward scan of the partition: advances from `start` at least
      once and stops at the first cell whose value is not below `pivot`.
      The cell `stop` is a sentinel that keeps the scan inside the array. */
  method ScanUp(a: array<int>, start: int, pivot: int, ghost stop: int) returns (i: int)
    requires -1 <= start < stop < a.Length && pivot <= a[stop]
    ensures start < i <= stop && pivot <= a[i]
    ensures AllBelow(a[..], start + 1, i - 1, pivot)
  {
    i := start + 1;
    while a[i] < pivot
      invariant start < i <= stop
      invariant forall k :: start < k < i ==> a[k] < pivot
      decreases stop - i
    {
      i := i + 1;
    }
  }

  /** The backward scan of the partition: retreats from `start` at least
      once and stops at the first cell whose value is not above `pivot`.
      The cell `stop` is a sentinel that keeps the scan inside the array. */
  method ScanDown(a: array<int>, start: int, pivot: int, ghost stop: int) returns (j: int)
    requires 0 <= stop < start <= a.Length && a[stop] <= pivot
    ensures stop <= j < start && a[j] <= pivot
    ensures AllAbove(a[..], j + 1, start - 1, pivot)
  {
    j := start - 1;
    while a[j] > pivot
      invariant stop <= j < start
      invariant forall k :: j < k < start ==> pivot < a[k]
      decreases j - stop
    {
      j := j - 1;
    }
  }

  /** After both scans of a round: the forward scan has passed only values
      below the pivot and the backward scan only values above it, so the
      parts known to be at most / at least the pivot reach `i - 1` and
      `j + 1`. */
  lemma ScanRound(s: seq<int>, low: int, high: int, i0: int, j0: int, i: int, j: int, pivot: int)
    requires NoneAbove(s, low, i0, pivot) && AllBelow(s, i0 + 1, i - 1, pivot)
    requires NoneBelow(s, j0, high, pivot) && AllAbove(s, j + 1, j0 - 1, pivot)
    ensures NoneAbove(s, low, i - 1, pivot) && NoneBelow(s, j + 1, high, pivot)
  {
  }

  /** Swapping an out-of-place pair `i < j` inside `[low, high]`, where the
      forward scan stopped at `i` on a value >= pivot and the backward scan at
      `j` on a value <= pivot, extends both done parts and changes neither
      the multiset of the range nor anything outside it. */
  lemma SwapStep(s: seq<int>, t: seq<int>, low: int, high: int, i: int, j: int, pivot: int)
    requires 0 <= low <= i < j <= high < |s|
    requires t == s[i := s[j]][j := s[i]]
    requires NoneAbove(s, low, i - 1, pivot) && NoneBelow(s, j + 1, high, pivot)
    requires s[j] <= pivot <= s[i]
    ensures NoneAbove(t, low, i, pivot) && NoneBelow(t, j, high, pivot)
    ensures multiset(t[low..high + 1]) == multiset(s[low..high + 1])
    ensures SameOutside(s, t, low, high)
  {
    assert t[low..high + 1] == s[low..high + 1][i - low := s[j]][j - low := s[i]];
  }

  /** The round in which the scans meet or cross: `j` splits the range. */
  lemma CrossedRound(s: seq<int>, low: int, high: int, i: int, j: int, pivot: int)
    requires 0 <= low <= j <= i <= high < |s|
    requires NoneAbove(s, low, i - 1, pivot) && NoneBelow(s, j + 1, high, pivot)
    requires s[j] <= pivot
    ensures forall k :: low <= k <= j ==> s[k] <= pivot
    ensures forall k :: j < k <= high ==> pivot <= s[k]
  {
  }

  /** Hoare's partition of `[low, high]` around the value at the floor
      midpoint.  The returned `j` splits the range into a part whose values
      are at most the pivot value and a part whose values are at least it;
      when `low < high`, both parts are non-empty. */
  method Partition(a: array<int>, low: int, high: int) returns (j: int)
    requires 0 <= low <= high < a.Length
    modifies a
    ensures low <= j <= high && (low < high ==> j < high)
    ensures forall k :: low <= k <= j ==> a[k] <= old(a[(low + high) / 2])
    ensures forall k :: j < k <= high ==> old(a[(low + high) / 2]) <= a[k]
    ensures multiset(a[low..high + 1]) == multiset(old(a[low..high + 1]))
    ensures SameOutside(old(a[..]), a[..], low, high)
  {
    var mid := (low + high) / 2;
    var pivot := a[mid];
    var i := low - 1;
    j := high + 1;
    // A cell at or after the forward scan's start holding a value >= pivot
    // stops that scan; one at or before the backward scan's start holding
    // a value <= pivot stops the other.  At first both are the pivot cell.
    ghost var stopI, stopJ := mid, mid;
    while true
      invariant low - 1 <= i < j <= high + 1
      invariant i < stopI <= j && stopI <= high && pivot <= a[stopI]
      invariant i <= stopJ < j && low <= stopJ && a[stopJ] <= pivot
      invariant j == high + 1 ==> stopI == mid
      invariant NoneAbove(a[..], low, i, pivot) && NoneBelow(a[..], j, high, pivot)
      invariant multiset(a[low..high + 1]) == multiset(old(a[low..high + 1]))
      invariant SameOutside(old(a[..]), a[..], low, high)
      decreases j - i
    {
      ghost var i0, j0 := i, j;
      i := ScanUp(a, i, pivot, stopI);
      j := ScanDown(a, j, pivot, stopJ);
      ScanRound(a[..], low, high, i0, j0, i, j, pivot);
      if i < j {
        ghost var before := a[..];
        Swap(a, i, j);
        SwapStep(before, a[..], low, high, i, j, pivot);
        stopI, stopJ := j, i;
      } else {
        CrossedRound(a[..], low, high, i, j, pivot);
        return;
      }
    }
  }

  /** Quick sort of `[low, high]`: partition, then sort `[low, pivot]` and
      `[pivot + 1, high]`.  An empty or one-cell range is left as it is. */
  method QuickSort(a: array<int>, low: int, high: int)
    requires 0 <= low <= high + 1 <= a.Length
    modifies a
    ensures SortsRange(old(a[..]), a[..], low, high)
    decreases high - low
  {
    if low < high {
      ghost var s0 := a[..];
      var pivot := Partition(a, low, high);
      ghost var s1 := a[..];
      QuickSort(a, low, pivot);
      ghost var s2 := a[..];
      QuickSort(a, pivot + 1, high);
      ChildrenSorted(s1, s2, a[..], low, pivot, high, true);
      QuickSortStep(s0, s1, a[..], low, pivot, high);
    }
  }

  /** `s` and `t` have the same length and agree outside `[low, high]`. */
  ghost predicate SameOutside(s: seq<int>, t: seq<int>, low: int, high: int) {
    |s| == |t| && forall k :: 0 <= k < |s| && !(low <= k <= high) ==> s[k] == t[k]
  }

  /** `[low, high]` of `t` holds the values of `[low, high]` of `s` in
      ascending order. */
  ghost predicate SortedPart(s: seq<int>, t: seq<int>, low: int, high: int)
    requires 0 <= low <= high + 1 <= |s| && |t| == |s|
  {
    Sorted(t[low..high + 1]) && multiset(t[low..high + 1]) == multiset(s[low..high + 1])
  }

  /** `t` is `s` with `[low, high]` sorted: that range is in ascending
      order, holds the same values as before, and nothing else changed. */
  ghost predicate SortsRange(s: seq<int>, t: seq<int>, low: int, high: int)
    requires 0 <= low <= high + 1 <= |s|
  {
    SameOutside(s, t, low, high) && SortedPart(s, t, low, high)
  }

  /** Working on `[low, mid]` and `[mid + 1, high]` one after the other, in
      either order, leaves everything outside `[low, high]` alone, and each
      step leaves the other half as it found it. */
  lemma ChildrenDisjoint(s1: seq<int>, s2: seq<int>, s3: seq<int>, low: int, mid: int, high: int, lowFirst: bool)
    requires 0 <= low <= mid < high < |s1|
    requires lowFirst ==> SameOutside(s1, s2, low, mid) && SameOutside(s2, s3, mid + 1, high)
    requires !lowFirst ==> SameOutside(s1, s2, mid + 1, high) && SameOutside(s2, s3, low, mid)
    ensures SameOutside(s1, s3, low, high)
    ensures lowFirst ==> s3[low..mid + 1] == s2[low..mid + 1] && s2[mid + 1..high + 1] == s1[mid + 1..high + 1]
    ensures !lowFirst ==> s3[mid + 1..high + 1] == s2[mid + 1..high + 1] && s2[low..mid + 1] == s1[low..mid + 1]
  {
    if lowFirst {
      assert s3[low..mid + 1] == s2[low..mid + 1];
      assert s2[mid + 1..high + 1] == s1[mid + 1..high + 1];
    } else {
      assert s3[mid + 1..high + 1] == s2[mid + 1..high + 1];
      assert s2[low..mid + 1] == s1[low..mid + 1];
    }
  }

  /** Sorting `[low, p]` and `[p + 1, high]` one after the other, in either
      order, sorts each half of the original `s1` and leaves the rest alone:
      each sort leaves the other half as it found it. */
  lemma ChildrenSorted(s1: seq<int>, s2: seq<int>, s3: seq<int>, low: int, p: int, high: int, lowFirst: bool)
    requires 0 <= low <= p < high < |s1|
    requires lowFirst ==> SortsRange(s1, s2, low, p) && SortsRange(s2, s3, p + 1, high)
    requires !lowFirst ==> SortsRange(s1, s2, p + 1, high) && SortsRange(s2, s3, low, p)
    ensures SameOutside(s1, s3, low, high)
    ensures SortedPart(s1, s3, low, p) && SortedPart(s1, s3, p + 1, high)
  {
    ChildrenDisjoint(s1, s2, s3, low, p, high, lowFirst);
  }

  /** One quick sort step: a partition of `s0` into `s1` at `p`, followed
      by sorting both halves of `s1` into `s3`, sorts `[low, high]` of `s0`. */
  lemma QuickSortStep(s0: seq<int>, s1: seq<int>, s3: seq<int>, low: int, p: int, high: int)
    requires 0 <= low <= p < high < |s0|
    requires SameOutside(s0, s1, low, high)
    requires multiset(s1[low..high + 1]) == multiset(s0[low..high + 1])
    requires forall x, y :: low <= x <= p < y <= high ==> s1[x] <= s1[y]
    requires SameOutside(s1, s3, low, high)
    requires SortedPart(s1, s3, low, p) && SortedPart(s1, s3, p + 1, high)
    ensures SortsRange(s0, s3, low, high)
  {
    var left, right := s1[low..p + 1], s1[p + 1..high + 1];
    forall x, y | 0 <= x < |left| && 0 <= y < |right|
      ensures left[x] <= right[y]
    {
      assert left[x] == s1[low + x] && right[y] == s1[p + 1 + y];
    }
    BelowPermuted(left, right, s3[low..p + 1], s3[p + 1..high + 1]);
    JoinSorted(s3[low..p + 1], s3[p + 1..high + 1]);
    assert s3[low..high + 1] == s3[low..p + 1] + s3[p + 1..high + 1];
    assert s1[low..high + 1] == left + right;
  }

  /** Merges the sorted halves `[low, midpoint]` and `[midpoint + 1, high]`:
      fills a scratch buffer with the merged values, then copies it back. */
  method Merge(a: array<int>, low: int, midpoint: int, high: int)
    requires 0 <= low <= midpoint <= high < a.Length
    modifies a
    ensures a[low..high + 1] == Merging.Merge(old(a[low..midpoint + 1]), old(a[midpoint + 1..high + 1]))
    ensures SameOutside(old(a[..]), a[..], low, high)
  {
    var temp := MergeRuns(a, low, midpoint, high);
    ghost var merged := temp[..];
    ghost var before := a[..];
    assert |merged| == high - low + 1;
    var i, j := low, 0;
    while i <= high
      invariant low <= i <= high + 1 && j == i - low
      invariant temp[..] == merged && |merged| == high - low + 1
      invariant a[low..i] == merged[..j]
      invariant SameOutside(before, a[..], low, i - 1)
    {
      a[i] := temp[j];
      i, j := i + 1, j + 1;
    }
    assert merged[..j] == merged;
  }

  /** The filling loops of the merge: the scratch buffer receives the
      smaller head of the two runs, the left one on a tie, until a run is
      used up, and then the rest of each run in turn. */
  method MergeRuns(a: array<int>, low: int, midpoint: int, high: int) returns (temp: array<int>)
    requires 0 <= low <= midpoint <= high < a.Length
    ensures fresh(temp) && temp != a
    ensures temp[..] == Merging.Merge(a[low..midpoint + 1], a[midpoint + 1..high + 1])
  {
    temp := new int[high - low + 1];
    var i, m, k := MergeHeads(a, temp, low, midpoint, high);
    ghost var heads, restL, restR := temp[..k], a[i..midpoint + 1], a[m..high + 1];
    i, k := AppendRun(a, temp, i, midpoint, k);
    ghost var withL := temp[..k];
    m, k := AppendRun(a, temp, m, high, k);
    MergeUsedUp(heads, restL, restR, withL, temp[..k], Merging.Merge(a[low..midpoint + 1], a[midpoint + 1..high + 1]));
    assert temp[..] == temp[..k];
  }

  /** The first filling loop: while both runs have values left, appends the
      smaller head, the left one on a tie.  It stops when a run is used up,
      with what it appended followed by the merge of what is left equal to
      the merge of the whole runs. */
  method MergeHeads(a: array<int>, temp: array<int>, low: int, midpoint: int, high: int)
      returns (i: int, m: int, k: int)
    requires 0 <= low <= midpoint <= high < a.Length
    requires temp != a && temp.Length == high - low + 1
    modifies temp
    ensures low <= i <= midpoint + 1 <= m <= high + 1 && k == (i - low) + (m - midpoint - 1)
    ensures i > midpoint || m > high
    ensures temp[..k] + Merging.Merge(a[i..midpoint + 1], a[m..high + 1])
            == Merging.Merge(a[low..midpoint + 1], a[midpoint + 1..high + 1])
  {
    ghost var merged := Merging.Merge(a[low..midpoint + 1], a[midpoint + 1..high + 1]);
    ghost var l, r := a[low..midpoint + 1], a[midpoint + 1..high + 1];
    var j := high;
    i, m, k := low, midpoint + 1, 0;
    while i <= midpoint && m <= j
      invariant low <= i <= midpoint + 1 <= m <= high + 1 && j == high
      invariant k == (i - low) + (m - midpoint - 1)
      invariant l == a[i..midpoint + 1] && r == a[m..high + 1]
      invariant temp[..k] + Merging.Merge(l, r) == merged
    {
      ghost var done := temp[..k];
      if a[i] <= a[m] {
        temp[k] := a[i];
        MergeTakeLeft(done, l, r, merged);
        k, i := k + 1, i + 1;
        l := l[1..];
      } else {
        temp[k] := a[m];
        MergeTakeRight(done, l, r, merged);
        k, m := k + 1, m + 1;
        r := r[1..];
      }
      assert temp[..k] == done + [temp[k - 1]];
    }
  }

  /** The second and third filling loops: appends the cells `[start, last]`
      to the scratch buffer from position `k0` on. */
  method AppendRun(a: array<int>, temp: array<int>, start: int, last: int, k0: int) returns (i: int, k: int)
    requires temp != a && 0 <= start <= last + 1 <= a.Length
    requires 0 <= k0 && k0 + (last + 1 - start) <= temp.Length
    modifies temp
    ensures i == last + 1 && k == k0 + (last + 1 - start)
    ensures temp[..k] == old(temp[..k0]) + a[start..last + 1]
  {
    i, k := start, k0;
    while i <= last
      invariant start <= i <= last + 1 && k == k0 + (i - start)
      invariant temp[..k] == old(temp[..k0]) + a[start..i]
    {
      temp[k] := a[i];
      assert a[start..i + 1] == a[start..i] + [a[i]];
      i, k := i + 1, k + 1;
    }
  }

  /** Merge sort of `[low, high]`: sort `[low, midpoint]` and
      `[midpoint + 1, high]`, then merge them.  The range ends up as
      `MergeSortSeq` of its original contents, which is sorted, a
      permutation and stable (`MergeSortSortsRange`, `Merging.MergeSortSeqStable`). */
  method MergeSort(a: array<int>, low: int, high: int)
    requires 0 <= low <= high + 1 <= a.Length
    modifies a
    ensures SameOutside(old(a[..]), a[..], low, high)
    ensures a[low..high + 1] == MergeSortSeq(old(a[low..high + 1]))
    decreases high - low, 1
  {
    if low < high {
      var midpoint := (low + high) / 2;
      ghost var s1 := a[..];
      SortHalves(a, low, midpoint, high);
      ghost var s3 := a[..];
      Merge(a, low, midpoint, high);
      MergeSortJoin(s1, s3, a[..], low, midpoint, high);
    }
  }

  /** The two recursive calls of the merge sort, `[low, midpoint]` first:
      each finds its half as the caller left it, since the other call works
      on disjoint cells. */
  method SortHalves(a: array<int>, low: int, midpoint: int, high: int)
    requires 0 <= low <= midpoint < high < a.Length
    modifies a
    ensures SameOutside(old(a[..]), a[..], low, high)
    ensures a[low..midpoint + 1] == MergeSortSeq(old(a[low..midpoint + 1]))
    ensures a[midpoint + 1..high + 1] == MergeSortSeq(old(a[midpoint + 1..high + 1]))
    decreases high - low, 0
  {
    ghost var s1 := a[..];
    MergeSort(a, low, midpoint);
    ghost var s2 := a[..];
    MergeSort(a, midpoint + 1, high);
    HalvesMergeSorted(s1, s2, a[..], low, midpoint, high, true);
  }

  /** Merge sorting `[low, mid]` and `[mid + 1, high]` of `s1` one after
      the other, in either order (into `s2`, then `s3`), merge sorts each
      half of the original contents and leaves the rest alone. */
  lemma HalvesMergeSorted(s1: seq<int>, s2: seq<int>, s3: seq<int>, low: int, mid: int, high: int, lowFirst: bool)
    requires 0 <= low <= mid < high < |s1|
    requires lowFirst ==>
      && SameOutside(s1, s2, low, mid) && s2[low..mid + 1] == MergeSortSeq(s1[low..mid + 1])
      && SameOutside(s2, s3, mid + 1, high) && s3[mid + 1..high + 1] == MergeSortSeq(s2[mid + 1..high + 1])
    requires !lowFirst ==>
      && SameOutside(s1, s2, mid + 1, high) && s2[mid + 1..high + 1] == MergeSortSeq(s1[mid + 1..high + 1])
      && SameOutside(s2, s3, low, mid) && s3[low..mid + 1] == MergeSortSeq(s2[low..mid + 1])
    ensures SameOutside(s1, s3, low, high)
    ensures s3[low..mid + 1] == MergeSortSeq(s1[low..mid + 1])
    ensures s3[mid + 1..high + 1] == MergeSortSeq(s1[mid + 1..high + 1])
  {
    ChildrenDisjoint(s1, s2, s3, low, mid, high, lowFirst);
  }

  /** The split of `[low, high]` at `(low + high) / 2` is the split
      `MergeSortSeq` makes of the range's contents. */
  lemma MergeSortSplit(s: seq<int>, low: int, mid: int, high: int)
    requires 0 <= low <= mid < high < |s| && mid == (low + high) / 2
    ensures MergeSortSeq(s[low..high + 1]) == Merging.Merge(MergeSortSeq(s[low..mid + 1]), MergeSortSeq(s[mid + 1..high + 1]))
  {
    var w := s[low..high + 1];
    var m := (|w| - 1) / 2 + 1;
    assert m == mid + 1 - low;
    assert w[..m] == s[low..mid + 1];
    assert w[m..] == s[mid + 1..high + 1];
    MergeSortSeqUnfold(w, m);
  }

  /** The merge after both halves of `s1` were merge sorted (into `s3`)
      leaves `[low, high]` as `MergeSortSeq` of its contents in `s1`. */
  lemma MergeSortJoin(s1: seq<int>, s3: seq<int>, s4: seq<int>, low: int, mid: int, high: int)
    requires 0 <= low <= mid < high < |s1| && mid == (low + high) / 2
    requires SameOutside(s1, s3, low, high)
    requires s3[low..mid + 1] == MergeSortSeq(s1[low..mid + 1])
    requires s3[mid + 1..high + 1] == MergeSortSeq(s1[mid + 1..high + 1])
    requires SameOutside(s3, s4, low, high)
    requires s4[low..high + 1] == Merging.Merge(s3[low..mid + 1], s3[mid + 1..high + 1])
    ensures SameOutside(s1, s4, low, high)
    ensures s4[low..high + 1] == MergeSortSeq(s1[low..high + 1])
  {
    MergeSortSplit(s1, low, mid, high);
  }

  /** A merge sort of `[low, high]` sorts that range in the sense every
      driver does. */
  lemma MergeSortSortsRange(s: seq<int>, t: seq<int>, low: int, high: int)
    requires 0 <= low <= high + 1 <= |s|
    requires SameOutside(s, t, low, high) && t[low..high + 1] == MergeSortSeq(s[low..high + 1])
    ensures SortsRange(s, t, low, high)
  {
    MergeSortSeqSorts(s[low..high + 1]);
  }

  /** The quick sort thread body: partitions `[low, high]` and hands the two
      halves to two child threads.  Every schedule sorts the range. */
  method QuickSortWorker(a: array<int>, low: int, high: int, sched: Schedule)
    requires 0 <= low <= high + 1 <= a.Length
    modifies a
    ensures SortsRange(old(a[..]), a[..], low, high)
    decreases high - low, 1
  {
    if low < high {
      ghost var s0 := a[..];
      var pivot := Partition(a, low, high);
      ghost var s1 := a[..];
      RunQuickChildren(a, low, pivot, high, sched);
      QuickSortStep(s0, s1, a[..], low, pivot, high);
    }
  }

  /** Creates the child threads for `[low, pivot]` and `[pivot + 1, high]`
      and joins both.  The children work on disjoint cells, so each finds
      its half as the parent left it, whichever `sched` lets finish first. */
  method RunQuickChildren(a: array<int>, low: int, pivot: int, high: int, sched: Schedule)
    requires 0 <= low <= pivot < high < a.Length
    modifies a
    ensures SameOutside(old(a[..]), a[..], low, high)
    ensures SortedPart(old(a[..]), a[..], low, pivot) && SortedPart(old(a[..]), a[..], pivot + 1, high)
    decreases high - low, 0
  {
    ghost var s1 := a[..];
    if sched.LowFirst() {
      QuickSortWorker(a, low, pivot, sched.Low());
      ghost var s2 := a[..];
      QuickSortWorker(a, pivot + 1, high, sched.High());
      ChildrenSorted(s1, s2, a[..], low, pivot, high, true);
    } else {
      QuickSortWorker(a, pivot + 1, high, sched.High());
      ghost var s2 := a[..];
      QuickSortWorker(a, low, pivot, sched.Low());
      ChildrenSorted(s1, s2, a[..], low, pivot, high, false);
    }
  }

  /** Multi-threaded quick sort: one thread runs the worker on the whole
      range and is joined. */
  method MultiThreadedQuickSort(a: array<int>, low: int, high: int, sched: Schedule)
    requires 0 <= low <= high + 1 <= a.Length
    modifies a
    ensures SortsRange(old(a[..]), a[..], low, high)
  {
    QuickSortWorker(a, low, high, sched);
  }

  /** The merge sort thread body: two child threads sort the halves of
      `[low, high]`; once both are joined, the halves are merged.  Every
      schedule leaves the same result as the single-threaded merge sort. */
  method MergeSortWorker(a: array<int>, low: int, high: int, sched: Schedule)
    requires 0 <= low <= high + 1 <= a.Length
    modifies a
    ensures SameOutside(old(a[..]), a[..], low, high)
    ensures a[low..high + 1] == MergeSortSeq(old(a[low..high + 1]))
    decreases high - low, 1
  {
    if low < high {
      var midpoint := (low + high) / 2;
      ghost var s1 := a[..];
      RunMergeChildren(a, low, midpoint, high, sched);
      ghost var s3 := a[..];
      Merge(a, low, midpoint, high);
      MergeSortJoin(s1, s3, a[..], low, midpoint, high);
    }
  }

  /** Creates the child threads for `[low, midpoint]` and
      `[midpoint + 1, high]` and joins both.  The children work on disjoint
      cells, so each finds its half as the parent left it, whichever `sched`
      lets finish first. */
  method RunMergeChildren(a: array<int>, low: int, midpoint: int, high: int, sched: Schedule)
    requires 0 <= low <= midpoint < high < a.Length
    modifies a
    ensures SameOutside(old(a[..]), a[..], low, high)
    ensures a[low..midpoint + 1] == MergeSortSeq(old(a[low..midpoint + 1]))
    ensures a[midpoint + 1..high + 1] == MergeSortSeq(old(a[midpoint + 1..high + 1]))
    decreases high - low, 0
  {
    ghost var s1 := a[..];
    if sched.LowFirst() {
      MergeSortWorker(a, low, midpoint, sched.Low());
      ghost var s2 := a[..];
      MergeSortWorker(a, midpoint + 1, high, sched.High());
      HalvesMergeSorted(s1, s2, a[..], low, midpoint, high, true);
    } else {
      MergeSortWorker(a, midpoint + 1, high, sched.High());
      ghost var s2 := a[..];
      MergeSortWorker(a, low, midpoint, sched.Low());
      HalvesMergeSorted(s1, s2, a[..], low, midpoint, high, false);
    }
  }

  /** Multi-threaded merge sort: one thread runs the worker on the whole
      range and is joined. */
  method MultiThreadedMergeSort(a: array<int>, low: int, high: int, sched: Schedule)
    requires 0 <= low <= high + 1 <= a.Length
    modifies a
    ensures SameOutside(old(a[..]), a[..], low, high)
    ensures a[low..high + 1] == MergeSortSeq(old(a[low..high + 1]))
  {
    MergeSortWorker(a, low, high, sched);
  }

  /** Sorting `[low, high]` leaves in that range the reference sort of its
      original contents, whichever driver did it. */
  lemma SortsRangeIsSortSeq(s: seq<int>, t: seq<int>, low: int, high: int)
    requires 0 <= low <= high + 1 <= |s|
    requires SortsRange(s, t, low, high)
    ensures t[low..high + 1] == SortSeq(s[low..high + 1])
  {
    SortedPermutationIsSortSeq(s[low..high + 1], t[low..high + 1]);
  }

  /** What sorting `[low, high]` leaves is fully determined, so all four
      drivers, under every schedule, leave the same array. */
  lemma SortsRangeUnique(s: seq<int>, t1: seq<int>, t2: seq<int>, low: int, high: int)
    requires 0 <= low <= high + 1 <= |s|
    requires SortsRange(s, t1, low, high) && SortsRange(s, t2, low, high)
    ensures t1 == t2
  {
    SortedUnique(t1[low..high + 1], t2[low..high + 1]);
    forall k | low <= k <= high
      ensures t1[k] == t2[k]
    {
      assert t1[k] == t1[low..high + 1][k - low] && t2[k] == t2[low..high + 1][k - low];
    }
  }

  /** A range of at most one cell, or one that is already sorted, is left
      exactly as it was. */
  lemma SortsRangeUnchanged(s: seq<int>, t: seq<int>, low: int, high: int)
    requires 0 <= low <= high + 1 <= |s|
    requires SortsRange(s, t, low, high)
    requires low >= high || Sorted(s[low..high + 1])
    ensures t == s
  {
    SortedUnique(t[low..high + 1], s[low..high + 1]);
    forall k | low <= k <= high
      ensures t[k] == s[k]
    {
      assert t[k] == t[low..high + 1][k - low] && s[k] == s[low..high + 1][k - low];
    }
  }

  /** Quick sort and merge sort of the same range leave the same array:
      whichever of the four drivers runs, under whichever schedule, the
      outcome is the same. */
  lemma QuickAndMergeAgree(s: seq<int>, tq: seq<int>, tm: seq<int>, low: int, high: int)
    requires 0 <= low <= high + 1 <= |s|
    requires SortsRange(s, tq, low, high)
    requires SameOutside(s, tm, low, high) && tm[low..high + 1] == MergeSortSeq(s[low..high + 1])
    ensures tq == tm
  {
    MergeSortSortsRange(s, tm, low, high);
    SortsRangeUnique(s, tq, tm, low, high);
  }
}
