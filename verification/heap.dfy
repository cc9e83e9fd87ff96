/** The array-backed binary min-heap used by the heap selector: the node at
    index i has children 2i+1 and 2i+2, and its parent is (i-1)/2. */
module MinHeap {
  import opened Arrays

  /** c is a child of p: its left child 2p+1 or its right child 2p+2. */
  predicate ChildOf(c: int, p: int) {
    c == 2 * p + 1 || c == 2 * p + 2
  }

  /** Every parent-child pair of s[..size] whose parent index is at least lo
      is ordered, parent no larger than child. */
  ghost predicate HeapFrom(s: seq<int>, size: int, lo: int)
    requires 0 <= size <= |s|
  {
    forall p, c {:trigger ChildOf(c, p)} :: 0 <= lo <= p && c < size && ChildOf(c, p) ==> s[p] <= s[c]
  }

  /** The min-heap order on the first size elements of s. */
  ghost predicate IsMinHeap(s: seq<int>, size: int)
    requires 0 <= size <= |s|
  {
    HeapFrom(s, size, 0)
  }

  /** The heap order on s[..size] for parents at or after lo, except at the
      node index, whose children may be smaller than it. */
  ghost predicate HeapExcept(s: seq<int>, size: int, lo: int, index: int)
    requires 0 <= size <= |s|
  {
    forall p, c {:trigger ChildOf(c, p)} :: 0 <= lo <= p && p != index && c < size && ChildOf(c, p) ==> s[p] <= s[c]
  }

  /** The parent of index, when it is in the ordered part, is no larger than
      the children of index. */
  ghost predicate ParentBelowChildren(s: seq<int>, size: int, lo: int, index: int)
    requires 0 <= size <= |s|
  {
    forall p, c {:trigger ChildOf(index, p), ChildOf(c, index)} :: 0 <= lo <= p && ChildOf(index, p) && c < size && ChildOf(c, index) ==> s[p] <= s[c]
  }

  /** The root of a min-heap is its smallest element. */
  lemma {:induction false} RootIsMin(s: seq<int>, size: int, j: int)
    requires 0 <= j < size <= |s|
    requires IsMinHeap(s, size)
    ensures s[0] <= s[j]
    decreases j
  {
    if j > 0 {
      var parent := (j - 1) / 2;
      assert ChildOf(j, parent);
      RootIsMin(s, size, parent);
    }
  }

  /** The root of a non-empty min-heap is no larger than any value it holds. */
  lemma RootBelowAll(s: seq<int>, size: int)
    requires 1 <= size <= |s|
    requires IsMinHeap(s, size)
    ensures forall z :: z in multiset(s[..size]) ==> s[0] <= z
  {
    forall z | z in multiset(s[..size]) ensures s[0] <= z {
      assert z in s[..size];
      var j :| 0 <= j < size && s[..size][j] == z;
      RootIsMin(s, size, j);
    }
  }

  /** x lies in the subtree rooted at r: x is r, or x's parent (x-1)/2 lies
      in that subtree. */
  ghost predicate InSubtree(x: int, r: int)
    decreases x
  {
    x == r || (x > r && x > 0 && InSubtree((x - 1) / 2, r))
  }

  /** The subtree of a child of r is part of the subtree of r. */
  lemma {:induction false} SubtreeTrans(x: int, c: int, r: int)
    requires 0 <= r && ChildOf(c, r)
    requires InSubtree(x, c)
    ensures InSubtree(x, r)
    decreases x
  {
    if x == c {
      assert (x - 1) / 2 == r;
    } else {
      SubtreeTrans((x - 1) / 2, c, r);
    }
  }

  /** heapify_down(heap, heap_size, index): sinks heap[index] by swapping it
      with its smaller child until both children are no smaller. Given the
      heap order below and around index, it restores the order for every
      parent from lo on, permutes heap[..heap_size) and touches nothing
      outside the subtree rooted at index. */
  method HeapifyDown(heap: array<int>, heapSize: int, index: int, ghost lo: int)
    requires 0 <= lo <= index < heapSize <= heap.Length
    requires HeapExcept(heap[..], heapSize, lo, index)
    requires ParentBelowChildren(heap[..], heapSize, lo, index)
    modifies heap
    ensures HeapFrom(heap[..], heapSize, lo)
    ensures multiset(heap[..heapSize]) == old(multiset(heap[..heapSize]))
    ensures forall x :: 0 <= x < heap.Length && !(index <= x < heapSize) ==> heap[x] == old(heap[x])
    ensures forall x :: 0 <= x < heap.Length && !InSubtree(x, index) ==> heap[x] == old(heap[x])
    decreases heapSize - index
  {
    var smallest := index;
    var left := 2 * index + 1;
    var right := 2 * index + 2;
    if left < heapSize && heap[left] < heap[smallest] {
      smallest := left;
    }
    if right < heapSize && heap[right] < heap[smallest] {
      smallest := right;
    }
    forall c | c < heapSize && ChildOf(c, index) ensures heap[smallest] <= heap[c] {
    }
    if smallest != index {
      assert ChildOf(smallest, index);
      ghost var s0 := heap[..];
      Swap(heap, index, smallest);
      ghost var s1 := heap[..];
      SinkOrder(s0, s1, heapSize, lo, index, smallest);
      SliceMultiset(s0, s1, 0, heapSize);
      HeapifyDown(heap, heapSize, smallest, lo);
      SinkFrame(s0, s1, heap[..], heapSize, index, smallest);
    } else {
      StayOrder(heap[..], heapSize, lo, index);
    }
  }

  /** Swapping index with its smaller child, when that child is smaller than
      it, repairs the order at index and moves the defect down to the child. */
  lemma SinkOrder(s0: seq<int>, s1: seq<int>, heapSize: int, lo: int, index: int, child: int)
    requires 0 <= lo <= index < child < heapSize <= |s0| == |s1|
    requires ChildOf(child, index)
    requires HeapExcept(s0, heapSize, lo, index) && ParentBelowChildren(s0, heapSize, lo, index)
    requires s0[child] < s0[index]
    requires forall c :: c < heapSize && ChildOf(c, index) ==> s0[child] <= s0[c]
    requires s1[index] == s0[child] && s1[child] == s0[index]
    requires forall x :: 0 <= x < |s0| && x != index && x != child ==> s1[x] == s0[x]
    ensures HeapExcept(s1, heapSize, lo, child) && ParentBelowChildren(s1, heapSize, lo, child)
  {
  }

  /** When index is no larger than its children, the order holds there too. */
  lemma StayOrder(s: seq<int>, heapSize: int, lo: int, index: int)
    requires 0 <= lo <= index < heapSize <= |s|
    requires HeapExcept(s, heapSize, lo, index)
    requires forall c :: c < heapSize && ChildOf(c, index) ==> s[index] <= s[c]
    ensures HeapFrom(s, heapSize, lo)
  {
  }

  /** The frame of one sift-down step: swapping index with its child and
      sinking within the child's subtree changes nothing outside the subtree
      of index, nor outside [index, heapSize). */
  lemma SinkFrame(s0: seq<int>, s1: seq<int>, s2: seq<int>, heapSize: int, index: int, child: int)
    requires |s0| == |s1| == |s2| && 0 <= index < child < heapSize && ChildOf(child, index)
    requires forall x :: 0 <= x < |s0| && x != index && x != child ==> s1[x] == s0[x]
    requires forall x :: 0 <= x < |s1| && !(child <= x < heapSize) ==> s2[x] == s1[x]
    requires forall x :: 0 <= x < |s1| && !InSubtree(x, child) ==> s2[x] == s1[x]
    ensures forall x :: 0 <= x < |s0| && !(index <= x < heapSize) ==> s2[x] == s0[x]
    ensures forall x :: 0 <= x < |s0| && !InSubtree(x, index) ==> s2[x] == s0[x]
  {
    assert InSubtree(child, index);
    forall x | InSubtree(x, child) ensures InSubtree(x, index) {
      SubtreeTrans(x, child, index);
    }
  }

  /** build_min_heap(heap, heap_size): heapifies every internal node from the
      last one back to the root, turning heap[..heap_size) into a min-heap of
      the same elements. */
  method BuildMinHeap(heap: array<int>, heapSize: int)
    requires 0 <= heapSize <= heap.Length
    modifies heap
    ensures IsMinHeap(heap[..], heapSize)
    ensures multiset(heap[..heapSize]) == old(multiset(heap[..heapSize]))
    ensures heap[heapSize..] == old(heap[heapSize..])
  {
    var i := heapSize / 2 - 1;
    while i >= 0
      invariant -1 <= i < heapSize
      invariant HeapFrom(heap[..], heapSize, i + 1)
      invariant multiset(heap[..heapSize]) == old(multiset(heap[..heapSize]))
      invariant heap[heapSize..] == old(heap[heapSize..])
    {
      HeapifyDown(heap, heapSize, i, i);
      i := i - 1;
    }
  }

  /** heap_replace(heap, heap_size, new_val): overwrites the root with new_val
      and sinks it, so the heap loses its old minimum, gains new_val and stays
      a min-heap. */
  method HeapReplace(heap: array<int>, heapSize: int, newVal: int)
    requires 1 <= heapSize <= heap.Length
    requires IsMinHeap(heap[..], heapSize)
    modifies heap
    ensures IsMinHeap(heap[..], heapSize)
    ensures multiset(heap[..heapSize]) == old(multiset(heap[..heapSize])) - multiset{old(heap[0])} + multiset{newVal}
    ensures heap[heapSize..] == old(heap[heapSize..])
  {
    ghost var s0 := heap[..heapSize];
    heap[0] := newVal;
    assert heap[..heapSize] == s0[0 := newVal];
    HeapifyDown(heap, heapSize, 0, 0);
  }
}
