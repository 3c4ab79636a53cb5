# Verified model of the sorting kernel of threaded-sort-program

This project models, in Dafny, the in-place integer sorting kernel of
`sort.h`. It covers:

- `swap`;
- Hoare's `partition`;
- `merge` with its scratch buffer;
- the single-threaded quick sort and merge sort drivers;
- the multi-threaded drivers and their thread bodies (`quick_sort_worker`,
  `merge_sort_worker`).

The array is an `array<int>`, and ranges are the inclusive `[low, high]` of
the C code. Every operation is a method that changes the array in place. It
is proved against a specification stated on sequences.

Files:

- `sorting.dfy` (module `Sorting`): ascending order (`Sorted`) and an
  independent reference sort (`SortSeq`, by insertion). It also proves that a
  multiset has exactly one sorted arrangement.
- `merging.dfy` (module `Merging`): the merge and the merge sort on values.
  - `Merge` takes the smaller head, the left one on a tie.
  - `MergeOrigin` carries each value's source position through the merge.
  - `MergeSortSeq` splits at the floor midpoint, as `sort.h` does.
  - The lemmas prove sortedness, permutation and stability.
- `sort.dfy` (module `Sort`): the imperative model of `sort.h`.
  - Quick sort is proved to sort its range. `SortsRange` means: the range is
    ascending, holds the same multiset as before, and nothing outside it
    changed.
  - Merge sort is proved to leave its range equal to `MergeSortSeq` of the
    original contents, with nothing outside it changed.
  - `MergeSortSortsRange` and `QuickAndMergeAgree` connect the two: all four
    drivers leave the same array.

Threads are modelled as calls that run to completion. In every worker, a
parent joins both children before it returns (quick sort) or merges (merge
sort), and the two children work on disjoint sub-ranges. The model runs the
two children one after the other, in either serial order. That choice is a
parameter: a `Schedule` tree gives, at each fork, whether the low or the
high child runs first. Every worker method is proved correct for every
schedule, and its result is the same as the single-threaded driver's.
Interleavings of the two children are not represented (see "Left out").

The Hoare scans need no bounds check. The cell holding the pivot value is a
sentinel for the first round. After each swap, the swapped cells are the
sentinels. `ScanUp` and `ScanDown` are proved never to leave `[low, high]`,
including when the pivot is the smallest or largest value of the range. The
partition index always satisfies `low <= j < high` when `low < high`, so both
recursive ranges are strictly smaller.

## Model

| member | source | states |
|---|---|---|
| Sort.Swap | sort.h:58-63 | The two cells are exchanged and every other cell keeps its value |
| Sort.ScanUp | sort.h:81-83 | The forward scan advances at least once and stops at the first value not below the pivot. It never passes the sentinel cell, and every cell it skipped holds a value below the pivot |
| Sort.ScanDown | sort.h:85-87 | The backward scan retreats at least once and stops at the first value not above the pivot. It never passes the sentinel cell, and every cell it skipped holds a value above the pivot |
| Sort.SwapStep | sort.h:89-90 | Swapping the out-of-place pair extends the <= pivot prefix to `i` and the >= pivot suffix to `j`. It keeps the range's multiset and changes nothing outside the range |
| Sort.Partition | sort.h:73-95 | Returns `j` in `[low, high]`, with `j < high` when `low < high`. Every value in `[low, j]` is <= the pivot value read at the floor midpoint, and every value in `[j+1, high]` is >= it. The range's multiset is kept and cells outside it are untouched |
| Sort.QuickSort | sort.h:148-156 | The range ends ascending, holding the same multiset, with every cell outside it unchanged. An empty or one-cell range counts too |
| Sort.QuickSortStep | sort.h:150-154 | A partition followed by sorting both sides sorts the whole range, because every value left of the split is <= every value right of it |
| Sort.ChildrenDisjoint | sort.h:129-133 | Two calls on `[low, mid]` and `[mid+1, high]`, run in either order, each leave the other half untouched, and together leave everything outside `[low, high]` unchanged |
| Sort.ChildrenSorted | sort.h:129-133 | Sorting the two halves in either order sorts each half of the original contents and leaves the rest alone |
| Sort.Merge | sort.h:205-236 | The range becomes the merge, smaller head first and the left head on ties, of the old left and right runs. Cells outside the range are unchanged |
| Sort.MergeRuns | sort.h:206-226 | The scratch buffer is a fresh array of `high-low+1` cells, distinct from the array, that receives exactly the merge of the two runs |
| Sort.MergeHeads | sort.h:212-218 | The first loop stops only when a run is used up. What it appended, followed by the merge of what is left, is the merge of the whole runs |
| Sort.AppendRun | sort.h:220-226 | Each tail loop appends exactly the rest of its run, in order, after what the buffer already held |
| Sort.MergeSort | sort.h:292-301 | The range becomes `MergeSortSeq` of its original contents, with every cell outside it unchanged |
| Sort.SortHalves | sort.h:297-298 | After the two recursive calls, each half is merge sorted from its original contents and nothing outside the range changed |
| Sort.HalvesMergeSorted | sort.h:297-298 | Merge sorting the two halves one after the other, in either order, merge sorts each half of the original contents |
| Sort.MergeSortSplit | sort.h:296-299 | Splitting the range at `(low+high)/2` is the split `MergeSortSeq` makes of the range's contents |
| Sort.MergeSortJoin | sort.h:299 | Merging the two merge sorted halves gives `MergeSortSeq` of the whole range |
| Sort.MergeSortSortsRange | sort.h:292-301 | A merge sorted range is ascending, holds the same multiset, and nothing outside it changed |
| Sort.QuickSortWorker | sort.h:103-138 | With the two children run in either serial order, at every fork, the range ends sorted: ascending, same multiset, outside unchanged |
| Sort.RunQuickChildren | sort.h:121-133 | Whichever child finishes first, each child sorts its own half of the partitioned range, and nothing outside the range changes |
| Sort.MultiThreadedQuickSort | sort.h:166-183 | The range ends sorted, as with the single-threaded quick sort |
| Sort.MergeSortWorker | sort.h:244-282 | With the two children run in either serial order, at every fork, the range becomes `MergeSortSeq` of its original contents, the same as the single-threaded merge sort |
| Sort.RunMergeChildren | sort.h:263-275 | Whichever child finishes first, each half is merge sorted from its original contents, and nothing outside the range changes |
| Sort.MultiThreadedMergeSort | sort.h:311-328 | The range becomes `MergeSortSeq` of its original contents, as with the single-threaded merge sort |
| Sort.SortsRangeIsSortSeq | sort.h:148-156 | Whatever a driver leaves in a sorted range is exactly the reference sort of the original contents |
| Sort.SortsRangeUnique | sort.h:119-133 | Two runs that both sort the same range leave identical arrays, so the worker and the sequential driver give the same result |
| Sort.SortsRangeUnchanged | sort.h:150 | When `low >= high`, or the range is already ascending, sorting leaves the array exactly as it was |
| Sort.QuickAndMergeAgree | sort.h:292-301 | Quick sort and merge sort of the same range leave the same array |
| Merging.Merge | sort.h:212-226 | The value-level merge the filling loops perform: smaller head first, the left head on a tie, then the leftovers of each run. Its output holds exactly as many values as both runs together, the `high-low+1` entries the buffer receives; its ordering and permutation properties are the lemmas below |
| Merging.MergeSortSeq | sort.h:292-301 | The value-level merge sort, splitting after the first `(n-1)/2+1` values as the floor midpoint `(low+high)/2` does. Its output has the length of its input; sorting, permutation and stability are the lemmas below |
| Merging.MergeTakeLeft | sort.h:213-214 | When the left head is <= the right head, the merge takes the left head next |
| Merging.MergeTakeRight | sort.h:215-216 | When the right head is smaller, the merge takes the right head next |
| Merging.MergeUsedUp | sort.h:220-226 | Once one run is used up, the merge is the rest of the left run followed by the rest of the right run |
| Merging.MergePermutes | sort.h:212-226 | The merge outputs every value of both runs exactly once, as a multiset |
| Merging.MergeSorted | sort.h:205-236 | Two ascending runs merge into an ascending sequence with the multiset of both runs |
| Merging.MergeIsSortSeq | sort.h:205-236 | Merging two ascending runs gives exactly the reference sort of their concatenation |
| Merging.MergeTagOrdered | sort.h:213 | Because ties go to the left run, equal values leave the merge in increasing order of their source positions |
| Merging.MergeStable | sort.h:212-226 | The merge is a stable rearrangement of the left run followed by the right run. Each output value comes from one source position, with no position used twice, and equal values keep their input order |
| Merging.MergeStepStable | sort.h:299 | Merging stable sorts of two halves, the left one ascending, is a stable rearrangement of the two halves joined |
| Merging.MergeSortSeqSorts | sort.h:292-301 | Merge sort returns its input's values, as a multiset, in ascending order |
| Merging.MergeSortSeqIsSortSeq | sort.h:292-301 | Merge sort returns exactly the reference sort of its input |
| Merging.MergeSortSeqStable | sort.h:292-301 | Merge sort is stable: its output is a rearrangement of its input in which equal values keep their input order |

## Left out

- pthread creation, attributes, join and exit are not modelled as threads.
  - Each child thread is a call that runs to completion.
  - Which sibling finishes first is the `Schedule` parameter.
  - This is justified because a parent always joins both children before it
    continues, and the children's ranges are disjoint.
  - Only the two serial orders of the children are represented, not their
    interleavings. The contracts state the final array, not which cells a
    thread touches along the way, so the disjointness of the children's
    accesses is an argument about `sort.h`, not a proved fact.
  - Thread-creation failure and the unbounded number of threads are not
    represented.
- `merge_sort_worker` does not call `pthread_exit` when `low >= high`; it
  falls off the end of the thread function. No caller reads a thread's
  return value, so the model treats this the same as an exit.
- sort.c is not part of this model: option parsing, `atoi` coercion,
  `print_array`/`printf`, `malloc`, and the selection of one driver on
  `[0, length - 1]`. It rejects an empty argument list, so `length - 1`
  never wraps.
- Unsigned index arithmetic is replaced by unbounded integers plus
  preconditions: `0 <= low <= high + 1 <= a.Length` for the drivers, and
  `low <= high` for `Partition`.
  - The forward cursor starts at `low - 1`, which is `-1` rather than
    `UINT_MAX` when `low` is 0. The first increment brings it back to `low`
    in both semantics.
  - A possible overflow of `low + high` in `(low + high) / 2` is not
    represented.
- The `int` values are unbounded integers; the kernel only compares and
  copies them, so their width does not matter.
- The variable-length stack array `temp` of `merge` is a freshly allocated
  `array<int>`.
- Sort.Merge: requires `low <= midpoint <= high`. Every caller in `sort.h`
  passes the floor midpoint of a range with `low < high`.
- Sort.MergeRuns, Sort.MergeHeads, Sort.AppendRun and Sort.SortHalves are
  separate methods. In `sort.h`, the three filling loops of `merge` and the
  two recursive calls of `single_threaded_merge_sort` are written inline.
  The final copy-back loop stays inside Sort.Merge.
- The `int` returned by `partition` is stored into an `unsigned` in the
  callers. The model returns one integer index. The index is never negative,
  because it is proved to satisfy `low <= j <= high`, so this conversion is
  not modelled separately.
