# Top-K selection in Dafny

A model of `topk_c.c`, a C program that picks the K largest of N integers
in three ways:

- **heap selector** (`find_top_k_heap`): keeps a K-element binary min-heap
  of the largest values seen so far;
- **sort selector** (`find_top_k_sort`): sorts a copy of the input in
  descending order and keeps its first K values;
- **quickselect selector** (`find_top_k_quickselect`): finds the K-th
  largest value with Lomuto partitioning and quickselect on a copy, then
  collects, in input order, the first K input values that are at least that
  value.

Each selector writes K values, largest first, into a caller-supplied
`result` array.

The model keeps the program's imperative form:

- arrays are Dafny `array<int>`;
- the C functions are methods with `modifies` clauses and loop invariants;
- each method is proved against a specification on values.

The specification (module `Selection`) defines:

- `TopK(s, k)`, the first k elements of `s` once sorted in non-increasing order;
- `IsTopK(m, b, k)`, "m is a k-element multiset of largest values of b";
- `KthLargest` / `KthSmallest`, positions of the sorted input;
- the threshold filter `AtLeast(s, v)`.

The library `qsort` is stood in for by `Sorting.SortDescending`. It sorts in
place and is specified by the reference insertion sort `SortDesc`.
`SortedUnique` shows that every correct descending sort of the same values
gives the same sequence, so qsort's instability cannot matter.

What is proved:

- The heap and sort selectors return exactly `TopK(numbers[..n], k)`.
- The quickselect selector, as written, returns a non-increasing sub-bag of
  the input whose values are all at least the K-th largest. It returns
  `TopK` when exactly K values reach that threshold, and in particular on
  inputs with distinct values.
- It can differ when the threshold value occurs more often than needed.
  This is reported under Findings, with a corrected collection step that is
  proved to return `TopK`.
- No selector changes `numbers`.
- No selector writes `result` past index K.

Modules, one file each:

| file | module | contents |
|---|---|---|
| `arrays.dfy` | `Arrays` | `swap`, `memcpy` |
| `sorting.dfy` | `Sorting` | descending order, `qsort` |
| `selection.dfy` | `Selection` | specification on values and its lemmas |
| `heap.dfy` | `MinHeap` | `heapify_down`, `build_min_heap`, `heap_replace` |
| `partition.dfy` | `Partitioning` | `partition`, `quickselect_kth_smallest` |
| `topk.dfy` | `TopKSelectors` | the three selectors |

## Model

| member | source | states |
|---|---|---|
| Arrays.Swap | topk_c.c:11-15 | exchanges `a[i]` and `a[j]`, leaves every other element as it was and keeps the multiset of the array |
| Arrays.CopyPrefix | topk_c.c:61 | `memcpy` of `count` ints, here and at lines 72, 85, 91 and 136: the first `count` elements of `dst` become those of `src`, the rest of `dst` is unchanged |
| Sorting.SortDesc | topk_c.c:18-20 | the reference descending sort: its result is non-increasing under `compare_desc`'s order and a permutation of its input |
| Sorting.Insert | topk_c.c:18-20 | the step of `SortDesc`, the reference for sorting under `compare_desc`: inserting into a non-increasing sequence keeps it non-increasing and adds exactly one element |
| Sorting.SortedUnique | topk_c.c:18-20 | two non-increasing arrangements of the same multiset are equal, so any correct descending sort gives one result |
| Sorting.SortDescending | topk_c.c:88 | `qsort(.., compare_desc)`, here and at lines 76 and 156: `a[..len]` becomes the sorted permutation of its old contents and the rest of the array is unchanged |
| MinHeap.RootIsMin | topk_c.c:66 | in a min-heap the root, "the smallest in heap", is no larger than any element |
| MinHeap.RootBelowAll | topk_c.c:66 | the root is no larger than any value in the multiset the heap holds |
| MinHeap.HeapifyDown | topk_c.c:29-43 | sinking `heap[index]` leaves every parent at index `lo` or later no larger than its children (`lo` is a ghost bound: `BuildMinHeap` passes the node being heapified, `HeapReplace` passes 0), permutes `heap[..heap_size]` and changes nothing outside the subtree rooted at `index` (nor outside `heap[index..heap_size)`) |
| MinHeap.BuildMinHeap | topk_c.c:45-49 | heapifying from `heap_size/2-1` down to 0 makes `heap[..heap_size]` a min-heap of the same values |
| MinHeap.HeapReplace | topk_c.c:51-54 | overwriting the root and sinking it leaves a min-heap holding the old values minus the old root plus `new_val` |
| Partitioning.Partition | topk_c.c:97-110 | Lomuto partition: returns `p` in `[low, high]` holding the old `arr[high]`, everything in `[low, p)` is `<=` it and everything in `(p, high]` is `>` it; the range is permuted, the rest untouched |
| Partitioning.PartitionRound | topk_c.c:117-126 | partitioning the live range keeps every element left of it below every element right of it, and adds the pivot's two split points |
| Partitioning.PivotIsKth | topk_c.c:120-121 | a pivot that splits its range on both sides is the (p-low+1)-th smallest of that range |
| Partitioning.PivotFound | topk_c.c:120-121 | the same, stated for the original contents of a range that quickselect has rearranged in place |
| Partitioning.QuickselectKthSmallest | topk_c.c:113-129 | `k` is an absolute position: returns the (k-low)-th smallest of the original `arr[low..high]`, the value sorting that range would put at index `k-1`, when `k-1` is an index of the range, and `-1` otherwise; permutes the array and changes nothing outside `[low, high]` |
| Selection.SubBagCard | topk_c.c:71 | supports the claim that the heap holds "the largest k" (through `TopKUnique`): a sub-multiset is no larger than its super-multiset and equal to it when the sizes agree |
| Selection.TopKUnique | topk_c.c:71 | two multisets that each hold k largest values of the same input are equal, whatever the ties |
| Selection.PrefixIsTopK | topk_c.c:88-91 | the first k values of a descending-sorted sequence are k largest values of it |
| Selection.TopK | topk_c.c:81-93 | the reference answer has k elements, is non-increasing and holds k largest values of the input |
| Selection.SortedTopKIsTopK | topk_c.c:71-76 | any non-increasing sequence holding k largest values of the input is the reference answer |
| Selection.SortingTopKIsTopK | topk_c.c:71-76 | sorting any collection of k largest values gives the reference answer |
| Selection.TopKBoundaries | topk_c.c:81-93 | for k = 1 the answer is the maximum of the input; for k = n it is the whole input in descending order |
| Selection.TopKStep | topk_c.c:65-69 | replacing the smallest kept value by a larger newcomer, or dropping a newcomer that is not larger, keeps k largest values of everything seen |
| Selection.KthSmallestPermuted | topk_c.c:112 | order statistics depend only on the multiset of the input |
| Selection.OrderStatistic | topk_c.c:120-121 | an element with only smaller-or-equal values before it and larger-or-equal values after it is the (t+1)-th smallest |
| Selection.AtLeastMultiset | topk_c.c:144-148 | the threshold filter keeps exactly the copies of values `>= v`, with their multiplicities |
| Selection.AtLeastPrefix | topk_c.c:144-148 | filtering a prefix gives a prefix of the filtered input |
| Selection.AtLeastPermutation | topk_c.c:138-140 | how many values reach a threshold depends only on the multiset of the input |
| Selection.AtLeastMonotone | topk_c.c:138-140 | raising the threshold never lets more values through |
| Selection.Repeat | topk_c.c:149-151 | the padding of the exact-count collection these lines call for: `c` copies of `v`, and nothing else |
| Selection.AtLeastSplit | topk_c.c:149-151 | why the exact-count collection works: the values `>= v` are the values `> v` plus every copy of `v` |
| Selection.KthLargestCounts | topk_c.c:138-140 | at least k input values reach the k-th largest value and fewer than k exceed it |
| Selection.KthLargestUnique | topk_c.c:138-140 | conversely, a value that at least k input values reach and fewer than k exceed is the k-th largest |
| Selection.QuickselectTopK | topk_c.c:142-156 | the quickselect selector's answer as written: k values, non-increasing, each at least the k-th largest, all taken from the input |
| Selection.QuickselectExact | topk_c.c:149-151 | when exactly k values reach the threshold, the quickselect selector returns the reference answer |
| Selection.QuickselectDistinct | topk_c.c:144-148 | on inputs with distinct values the quickselect selector returns the reference answer |
| Selection.QuickselectMissesLarger | topk_c.c:144-151 | on `[5, 5, 9]` with K = 2 the quickselect selector returns `[5, 5]` where the top two are `[9, 5]` |
| Selection.PaddedIsTopK | topk_c.c:149-151 | the values above the threshold, padded with copies of it up to k, are k largest values of the input |
| TopKSelectors.FindTopKHeap | topk_c.c:56-77 | the heap selector writes exactly the reference answer `TopK(numbers[..n], k)` to `result[..k]`, leaves `numbers` and the rest of `result` alone |
| TopKSelectors.ProcessRemaining | topk_c.c:64-69 | the scan over `numbers[k..n)` keeps the heap a min-heap holding k largest values of the numbers seen |
| TopKSelectors.HeapScanStep | topk_c.c:66-67 | one scan step on values: a replace-or-skip keeps k largest values of the input seen so far |
| TopKSelectors.FindTopKSort | topk_c.c:81-93 | the sort selector writes exactly `TopK(numbers[..n], k)` to `result[..k]`, leaves `numbers` and the rest of `result` alone |
| TopKSelectors.FindKthLargest | topk_c.c:133-140 | quickselect on a copy for the (n-k+1)-th smallest yields the k-th largest value (and -1 when K = 0), without touching `numbers` |
| TopKSelectors.CollectAtLeast | topk_c.c:143-148 | the collection loop writes the first `count` input values that reach the threshold, in input order, where `count` is K or, if fewer reach it, all of them |
| TopKSelectors.FindTopKQuickselect | topk_c.c:132-157 | the quickselect selector writes `QuickselectTopK(numbers[..n], k)` to `result[..k]` and leaves `numbers` and the rest of `result` alone |
| TopKSelectors.FindTopKQuickselectFixed | topk_c.c:142-151 | the corrected quickselect selector (values above the K-th largest, then copies of it) writes exactly `TopK(numbers[..n], k)` |
| TopKSelectors.CollectPadded | topk_c.c:149-151 | writes the input values above `v` in input order, then copies of `v` up to K |
| TopKSelectors.PadWith | topk_c.c:149-151 | fills `result[count..k)` with copies of `v` and keeps everything else |

## Left out

- `main` (lines 161-206) is not modelled. It covers random input generation
  with `srand`/`rand`, timing with `clock` and `double` arithmetic, and
  console output. The selectors take their input as parameters instead.
- The `malloc` failure paths (`perror`, `exit(1)`) are not modelled. Working
  buffers are Dafny allocations, which cannot fail, and `free` has no
  counterpart.
- The internals of `qsort` and `memcpy` are not modelled: they are library
  code. Each is modelled by its contract (`SortDescending`, `CopyPrefix`).
- Sorting.SortDescending: `compare_desc` and `compare_asc` compute `b - a` and
  `a - b` in 32-bit `int`. That subtraction overflows for operands far
  apart, such as `INT_MIN` and `1`. The model compares mathematical
  integers, which is what the comparators mean for inputs that do not
  overflow; `main` draws values from `0..N*10-1`.
- `compare_asc` is defined but never called, so it is not modelled.
- The C code does not check K, so the model makes `1 <= k <= n` (heap
  selector) or `0 <= k <= n` (the other two) a precondition:
  - the heap selector reads `min_heap[0]` and needs `k >= 1`;
  - the heap and sort selectors copy K values out of `numbers` or the
    sorted copy (lines 61 and 91), so they need `k <= n`;
  - the sort and quickselect selectors are modelled for `k = 0` as well.
- TopKSelectors.FindTopKQuickselect: with `k > n` the C code reads nothing
  out of bounds. Quickselect gets the position `n - k + 1 <= 0` and returns
  -1 (line 128). The loop then collects at most `n` values, and the `qsort`
  at line 156 sorts the `k - count` stale `result` slots into the answer.
  The model excludes this case with `k <= n`, which `main` meets (K = 10,
  N = 1000).
- MinHeap.HeapifyDown: integers are unbounded, so the `int` overflow of
  `2 * index + 1` and `2 * index + 2` (lines 31-32) is not modelled. Every
  node of a heap of `heap_size` elements may be visited, so these stay within
  a 32-bit `int` only while `heap_size < 2^30`. `main` uses `K = 10`, far
  below that bound, but a 64-bit process can allocate a larger heap. Beyond
  the bound the model describes the arithmetic the code means, not the
  overflow. `n - k + 1` (line 140) stays within `int` whenever `k >= 1`.
- The Rust program in the same repository is not part of this model.

## Findings

| source | as written | input that shows it | evidently intended | confidence | as-written member | corrected member |
|---|---|---|---|---|---|---|
| topk_c.c:144-148 | collects the first K input values `>= kth_largest_value` in input order, so surplus copies of the threshold seen early crowd out larger values seen later | `numbers = [5, 5, 9]`, K = 2: the threshold is 5 and the result is `[5, 5]` | the K largest values `[9, 5]`, as the other two selectors return | not executed | Selection.QuickselectMissesLarger | TopKSelectors.FindTopKQuickselectFixed |

The comment at lines 149-151 says the loop "might have collected more than
k" and "gets *at least* k". The `count < k` guard contradicts the first half:
`TopKSelectors.CollectAtLeast` ensures that the loop stops at
`min(K, |AtLeast(numbers[..n], threshold)|)` values. `Selection.KthLargestCounts`
shows that at least K values reach the K-th largest value, so exactly K
values are collected, never more. The actual defect is which K values are
collected, the row above.
