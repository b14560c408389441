# Merge sort of the log-processing demo, modelled in Dafny

The log-processing demo keeps its own sorting routine. It is a top-down merge
sort that reorders a list in place by a caller-supplied key, and the log
receiver uses it to order log records by their creation time. The routine has
three parts:

- `sort` is the entry point. It returns at once on an empty list. Otherwise it
  picks the key, which is the identity when none is given, and sorts the whole
  list.
- `_merge_sort` sorts the inclusive range `[left_index, right_index]`. It
  splits the range at `(left + right) // 2`, sorts both halves recursively
  and merges them.
- `_merge` copies the two halves into `left_copy` and `right_copy`. It then
  writes the smaller head back into the list, taking the left one on equal
  keys, until one copy runs out, and copies the rest of the other copy in
  with a slice assignment.

The model has three files:

- `sort_spec.dfy` (module `SortSpec`) holds the specification.
  - It defines what sorted by a key means (`Sorted`, `AdjacentSorted`).
  - It defines what a stable rearrangement means: `SameOrderWithinKeys` says
    that, for every key value, the elements with that key appear in the same
    order.
  - It defines the merge loop as a function on sequences (`Merge`).
  - Its lemmas show that merging sorted runs is sorted, a permutation and
    stable. They also show that a sorted, stable rearrangement is unique.
- `sort.dfy` (module `MergeSort`) holds the routine itself, on an
  `array<T>` with a key `T -> int`.
  - `MergeRange` is `_merge`: two snapshots, a cursor loop (`MergeHeads`) and
    the tail copies (`AddRest`, `CopyInto`).
  - `MergeSortRange` is `_merge_sort`: a recursive method on inclusive bounds.
  - `Sort` and `SortDefaultKey` are `sort`.
  - Each method is proved against the functions of `SortSpec`.
- `sort_examples.dfy` (module `SortExamples`) replays the repository's sort
  tests on the model. Each method's contract states the exact output that
  the test expects.

The merge takes the left element on equal keys. Together with the left run
being sorted, which the recursive calls guarantee before every merge, this is
what makes the sort stable. `SortSpec.MergeStable` states this: when the left
run is sorted, for every key the merge lists the left run's elements with that
key before the right run's. The tie-break alone is not enough: an unsorted
left run can let a right element overtake a left element with the same key. A sorted
and stable result is fully determined (`SortSpec.SortedStableUnique`). So the
postcondition of `MergeSort.Sort` determines its output, and the test replays
derive their expected lists from it.

## Model

| member | source | states |
|---|---|---|
| MergeSort.Middle | src/log_processing_demo/sort.py:56-59 | For `lo < hi`, the midpoint satisfies `lo <= m < hi`. Both recursive ranges `[lo, m]` and `[m+1, hi]` are strictly shorter than `[lo, hi]`, so the recursion terminates. Python's `//` by 2 is written as Dafny's `/` by 2; both floor for a positive divisor. |
| MergeSort.CopyInto | src/log_processing_demo/sort.py:111-119 | An equal-length slice assignment: afterwards `a[at..at+|src|]` is `src`, and every other slot of the array keeps its old value. |
| MergeSort.MergeHeads | src/log_processing_demo/sort.py:94-107 | The merge loop. The cursors end in range with one run exhausted, and `sorted_index == left_index + left_copy_index + right_copy_index`. The slots written so far are exactly the first `s - lo` elements of `Merge(l, r)`. The remaining heads merge into exactly the rest of it. Each step writes only the slot it has reached, so every slot outside `[lo, s)`, including `a[s..hi]`, keeps its old value. |
| MergeSort.AddRest | src/log_processing_demo/sort.py:109-119 | Once one run is empty, the tail copies fill `a[s..hi]` exactly up to `right_index` with the remainder, and change nothing else. |
| MergeSort.Spliced | src/log_processing_demo/sort.py:100-119 | The loop's prefix of the merge followed by the tail's suffix gives the whole merge in `[lo, hi]`, and the array outside that range is unchanged. |
| MergeSort.MergeRange | src/log_processing_demo/sort.py:64-119 | `_merge`: afterwards `a[lo..hi]` is the functional merge of the old halves `a[lo..mid]` and `a[mid+1..hi]`. If both halves were sorted by key, the range is sorted. The range holds the same multiset as before, and indices outside `[lo, hi]` are untouched. |
| MergeSort.SortHalvesThenMerge | src/log_processing_demo/sort.py:56-61 | Sorting the left half, then the right half, then merging them sorts the whole range `[lo, hi]` stably from its original contents, and leaves the outside untouched. |
| MergeSort.MergeSortRange | src/log_processing_demo/sort.py:29-61 | `_merge_sort`: the inclusive range `[lo, hi]` ends sorted by key, and for every key it holds that key's elements in their original order. Everything outside the range is unchanged. A range of at most one element (`lo >= hi`) leaves the array exactly as it was. |
| MergeSort.Sort | src/log_processing_demo/sort.py:8-26 | `sort` with a key: the array ends with keys non-decreasing at every pair and at every adjacent pair. It is a permutation of the old contents (same multiset, same length) and stable for every key. An already sorted array, and in particular an empty one, is left exactly as it was. |
| MergeSort.SortDefaultKey | src/log_processing_demo/sort.py:23-26 | `sort` with an optional key: with no key the elements themselves end non-decreasing, i.e. they are compared with the identity key. With a key they end sorted by it. In both cases the result is a stable permutation of the input. |
| MergeSort.IdentityKeyStableIffPermutation | src/log_processing_demo/sort.py:26 | Under the default identity key, keeping the order within every key holds exactly when the two sequences are permutations of each other, in both directions. |
| MergeSort.DefaultKeySortUnique | src/log_processing_demo/sort.py:26 | Under the default key, two sorted permutations of the same elements are equal, so `sort` without a key has exactly one possible result. |
| SortSpec.AdjacentSortedIffSorted | src/log_processing_demo/sort.py:8-26 | Keys non-decreasing between neighbours holds exactly when they are non-decreasing between any earlier and later position. |
| SortSpec.ElementsWithKeyMember | src/log_processing_demo/sort.py:101 | An element lies in the key class of `k` exactly when it is in the sequence and its key is `k`. |
| SortSpec.SameOrderWithinKeysPermutes | src/log_processing_demo/sort.py:8-26 | A rearrangement that keeps the order within every key is a permutation (same multiset). |
| SortSpec.SortedStableUnique | src/log_processing_demo/sort.py:8-26 | Two sequences that are both sorted by key and agree on the order within every key are equal, so a stable sort's output is unique. |
| SortSpec.MergePermutes | src/log_processing_demo/sort.py:100-119 | The merge holds exactly the elements of both runs: `multiset(Merge(l, r)) == multiset(l) + multiset(r)`. |
| SortSpec.MergeSorted | src/log_processing_demo/sort.py:100-119 | Merging two runs that are sorted by key gives a run sorted by key. |
| SortSpec.MergeStable | src/log_processing_demo/sort.py:101 | When the left run is sorted, which `_merge_sort` ensures before every `_merge` (sort.py:58-61), ties go to the left run, so for every key the merge lists the left run's elements with that key and then the right run's, each in their order. |
| SortSpec.MergeAdvance | src/log_processing_demo/sort.py:100-107 | One step of the loop: the next merged element is `l[i]` when `key(l[i]) <= key(r[j])`, otherwise `r[j]`. The rest of the merge is the merge of what remains. |
| SortSpec.MergeExhausted | src/log_processing_demo/sort.py:109-119 | Once one run is used up, the rest of the merge is the other run unchanged. |
| SortSpec.MergeSortedHalves | src/log_processing_demo/sort.py:58-61 | Merging stably sorted rearrangements of two halves gives a sorted, stable rearrangement of the whole, with the same multiset. |
| SortExamples.DigitsOrder | tests/test_sort.py:4-8 | `[1, 2, 3, 4, 5]` is sorted and keeps the order within every key of `[2, 1, 5, 4, 3]`. |
| SortExamples.SortDigits | tests/test_sort.py:4-8 | Sorting `[2, 1, 5, 4, 3]` with the default key yields `[1, 2, 3, 4, 5]`. |
| SortExamples.SortEmptyAndSingle | tests/test_sort.py:11-23 | The empty list stays empty and `[1]` stays `[1]`. |
| SortExamples.SortTwo | tests/test_sort.py:14-24 | Sorting `[2, 1]` with the default key yields `[1, 2]`. |
| SortExamples.DuplicatesOrder | tests/test_sort.py:15-25 | `[1, 1, 2]`, with the first `1` first, is the sorted, stable arrangement of `[1, 2, 1]`. |
| SortExamples.SortDuplicates | tests/test_sort.py:15-25 | Sorting `[1, 2, 1]` yields `[1, 1, 2]`, and the `1` that came first stays first. |
| SortExamples.LogRecordsOrder | tests/conftest.py:12-77 | The fixture records in the order 1, 4, 3, 2 are sorted by creation time and keep the order within every key of the unsorted fixture. |
| SortExamples.SortLogRecords | tests/test_sort.py:28-34 | Sorting the four fixture log records by `created_at` yields the expected sorted fixture, with strictly increasing creation times. |

## Left out

- Keys are integers (`T -> int`). The source accepts any key whose values Python can compare with `<=`. The log receiver's `created_at` datetimes are modelled as seconds since midnight, since all fixture records share one date.
- SortDefaultKey: the identity key is modelled only for integer elements, because a key of type `T -> int` can be the identity only when `T` is `int`. With a key given, the model uses it as is. A callable that Python treats as false would also fall back to the identity in the source; the model does not capture that.
- Key functions that raise, or comparisons that are not a total preorder, are not modelled. The source does not handle them and lets them propagate.
- How many times, and in what order, the key is evaluated is not modelled. The model's key is a pure function.
- The `message` field of a log record is left out of `SortExamples.LogRecord`, because the sort never looks at it. The fixtures' date part is dropped as well.
- The tail slice assignments of `_merge` always replace a slice by a list of the same length. `CopyInto` models only that case, not Python's length-changing slice assignment.
- A Python list is modelled as a fixed-length `array`. The sort never changes the list's length.
- The database, HTTP client, command-line interface and logging modules are not part of this model. They are I/O glue around the sort.
