/** The three top-K selectors: each reads numbers[0..n) and writes K values,
    largest first, into result[0..k). */
module TopKSelectors {
  import opened Sorting
  import opened Selection
  import opened MinHeap
  import opened Partitioning
  import opened Arrays

  /** find_top_k_heap: keeps the K largest values seen so far in a min-heap
      seeded with the first K numbers; a later number larger than the heap's
      minimum replaces it. The answer is the reference top K. */
  method FindTopKHeap(numbers: array<int>, n: int, k: int, result: array<int>)
    requires 1 <= k <= n <= numbers.Length
    requires k <= result.Length && result != numbers
    modifies result
    ensures result[..k] == TopK(numbers[..n], k)
    ensures forall i :: k <= i < result.Length ==> result[i] == old(result[i])
    ensures unchanged(numbers)
  {
    var heap := new int[k];
    CopyPrefix(heap, numbers, k);
    assert heap[..k] == numbers[..k];
    BuildMinHeap(heap, k);
    ProcessRemaining(numbers, n, k, heap);
    ghost var kept := heap[..k];
    SortingTopKIsTopK(kept, numbers[..n], k);
    CopyPrefix(result, heap, k);
    assert result[..k] == kept;
    SortDescending(result, k);
    assert result[..k] == SortDesc(kept);
  }

  /** The scan of find_top_k_heap over numbers[k..n): a min-heap holding k
      largest values of numbers[..k] ends up holding k largest values of
      numbers[..n]. */
  method ProcessRemaining(numbers: array<int>, n: int, k: int, heap: array<int>)
    requires 1 <= k <= n <= numbers.Length && heap.Length == k && heap != numbers
    requires IsMinHeap(heap[..], k)
    requires IsTopK(multiset(heap[..k]), multiset(numbers[..k]), k)
    modifies heap
    ensures IsMinHeap(heap[..], k)
    ensures IsTopK(multiset(heap[..k]), multiset(numbers[..n]), k)
  {
    for i := k to n
      invariant IsMinHeap(heap[..], k)
      invariant IsTopK(multiset(heap[..k]), multiset(numbers[..i]), k)
    {
      ghost var before := heap[..];
      ghost var seen := numbers[..i];
      var x := numbers[i];
      if x > heap[0] {
        HeapReplace(heap, k, x);
      }
      assert numbers[..i + 1] == seen + [x];
      HeapScanStep(before, heap[..], seen, numbers[..i + 1], k, x);
    }
  }

  /** One step of the heap selector's scan: a min-heap h0[..k] holding k
      largest values of `seen` either swaps its root for a larger next value
      x, giving h1, or stays as it is; h1[..k] holds k largest values of
      seen + [x]. */
  lemma HeapScanStep(h0: seq<int>, h1: seq<int>, seen: seq<int>, seen': seq<int>, k: int, x: int)
    requires 1 <= k <= |h0| == |h1|
    requires IsMinHeap(h0, k)
    requires IsTopK(multiset(h0[..k]), multiset(seen), k)
    requires x > h0[0] ==> multiset(h1[..k]) == multiset(h0[..k]) - multiset{h0[0]} + multiset{x}
    requires x <= h0[0] ==> h1 == h0
    requires seen' == seen + [x]
    ensures IsTopK(multiset(h1[..k]), multiset(seen'), k)
  {
    RootBelowAll(h0, k);
    TopKStep(multiset(h0[..k]), multiset(seen), k, h0[0], x);
  }

  /** find_top_k_sort: sorts a copy of numbers[0..n) in non-increasing order
      and keeps its first K values. */
  method FindTopKSort(numbers: array<int>, n: int, k: int, result: array<int>)
    requires 0 <= k <= n <= numbers.Length
    requires k <= result.Length && result != numbers
    modifies result
    ensures result[..k] == TopK(numbers[..n], k)
    ensures forall i :: k <= i < result.Length ==> result[i] == old(result[i])
    ensures unchanged(numbers)
  {
    ghost var s := numbers[..n];
    var sorted := new int[n];
    CopyPrefix(sorted, numbers, n);
    assert sorted[..n] == s;
    SortDescending(sorted, n);
    ghost var t := sorted[..n];
    assert t == SortDesc(s);
    CopyPrefix(result, sorted, k);
    assert result[..k] == t[..k];
    assert numbers[..n] == s;
  }

  /** The first step of find_top_k_quickselect: runs quickselect on a copy of
      numbers[0..n) for the (n-k+1)-th smallest value, which is the k-th
      largest; for k = 0 the requested position is past the end and the
      sentinel -1 comes back. */
  method FindKthLargest(numbers: array<int>, n: int, k: int) returns (v: int)
    requires 0 <= k <= n <= numbers.Length
    ensures 1 <= k ==> v == KthLargest(numbers[..n], k)
    ensures k == 0 ==> v == -1
  {
    ghost var s := numbers[..n];
    var temp := new int[n];
    CopyPrefix(temp, numbers, n);
    assert temp[0..n - 1 + 1] == s;
    v := QuickselectKthSmallest(temp, 0, n - 1, n - k + 1);
    assert numbers[..n] == s;
  }

  /** The collecting loop of find_top_k_quickselect: scans numbers[..n] in
      order and appends each value at least `threshold` to result until k
      values are collected. The values collected are the first `count`
      values of the input at least `threshold`, and there are k of them
      unless the input has fewer. */
  method CollectAtLeast(numbers: array<int>, n: int, k: int, threshold: int, result: array<int>)
    returns (count: int)
    requires 0 <= k <= n <= numbers.Length
    requires k <= result.Length && result != numbers
    modifies result
    ensures count == if |AtLeast(numbers[..n], threshold)| < k then |AtLeast(numbers[..n], threshold)| else k
    ensures result[..count] == AtLeast(numbers[..n], threshold)[..count]
    ensures forall i :: count <= i < result.Length ==> result[i] == old(result[i])
  {
    count := 0;
    var i := 0;
    while i < n && count < k
      invariant 0 <= i <= n && 0 <= count <= k
      invariant result[..count] == AtLeast(numbers[..i], threshold)
      invariant forall x :: count <= x < result.Length ==> result[x] == old(result[x])
    {
      assert numbers[..i + 1][..i] == numbers[..i];
      if numbers[i] >= threshold {
        result[count] := numbers[i];
        count := count + 1;
      }
      i := i + 1;
    }
    ghost var s := numbers[..n];
    assert s[..i] == numbers[..i];
    AtLeastPrefix(s, i, threshold);
    if i == n {
      assert s[..i] == s;
    }
  }

  /** find_top_k_quickselect as written: finds the K-th largest value with
      quickselect on a copy, collects the first K numbers, in input order,
      that are at least that value, and sorts them. With K = 0 nothing is
      written. */
  method FindTopKQuickselect(numbers: array<int>, n: int, k: int, result: array<int>)
    requires 0 <= k <= n <= numbers.Length
    requires k <= result.Length && result != numbers
    modifies result
    ensures 1 <= k ==> result[..k] == QuickselectTopK(numbers[..n], k)
    ensures forall i :: k <= i < result.Length ==> result[i] == old(result[i])
    ensures unchanged(numbers)
  {
    var kthLargestValue := FindKthLargest(numbers, n, k);
    var count := CollectAtLeast(numbers, n, k, kthLargestValue, result);
    ghost var collected := result[..k];
    if 1 <= k {
      ghost var s := numbers[..n];
      KthLargestCounts(s, k);
      assert collected == AtLeast(s, kthLargestValue)[..k];
    }
    SortDescending(result, k);
    assert result[..k] == SortDesc(collected);
  }

  /** The collection step done right: every number strictly above the K-th
      largest value, then as many copies of that value as are still missing.
      The answer is the reference top K whatever the ties. */
  method FindTopKQuickselectFixed(numbers: array<int>, n: int, k: int, result: array<int>)
    requires 1 <= k <= n <= numbers.Length
    requires k <= result.Length && result != numbers
    modifies result
    ensures result[..k] == TopK(numbers[..n], k)
    ensures forall i :: k <= i < result.Length ==> result[i] == old(result[i])
    ensures unchanged(numbers)
  {
    var kthLargestValue := FindKthLargest(numbers, n, k);
    ghost var s := numbers[..n];
    KthLargestCounts(s, k);
    CollectPadded(numbers, n, k, kthLargestValue, result);
    ghost var padded := result[..k];
    PaddedIsTopK(s, k, kthLargestValue);
    SortingTopKIsTopK(padded, s, k);
    SortDescending(result, k);
    assert result[..k] == SortDesc(padded);
  }

  /** Writes to result[..k) the numbers above v, in input order, followed by
      copies of v, when fewer than k numbers are above v. */
  method CollectPadded(numbers: array<int>, n: int, k: int, v: int, result: array<int>)
    requires 0 <= k <= n <= numbers.Length
    requires k <= result.Length && result != numbers
    requires |AtLeast(numbers[..n], v + 1)| < k
    modifies result
    ensures result[..k] == AtLeast(numbers[..n], v + 1) + Repeat(v, k - |AtLeast(numbers[..n], v + 1)|)
    ensures forall i :: k <= i < result.Length ==> result[i] == old(result[i])
  {
    ghost var above := AtLeast(numbers[..n], v + 1);
    var count := CollectAtLeast(numbers, n, k, v + 1, result);
    assert count == |above|;
    assert result[..count] == above;
    PadWith(result, count, k, v);
  }

  /** Fills result[count..k) with copies of v, leaving the rest alone. */
  method PadWith(result: array<int>, count: int, k: int, v: int)
    requires 0 <= count <= k <= result.Length
    modifies result
    ensures result[..k] == old(result[..count]) + Repeat(v, k - count)
    ensures forall x :: k <= x < result.Length ==> result[x] == old(result[x])
  {
    var i := count;
    while i < k
      invariant count <= i <= k
      invariant result[..i] == old(result[..count]) + Repeat(v, i - count)
      invariant forall x :: k <= x < result.Length ==> result[x] == old(result[x])
    {
      result[i] := v;
      RepeatAppend(v, i - count);
      i := i + 1;
    }
  }
}
