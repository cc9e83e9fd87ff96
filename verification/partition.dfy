/** Lomuto partitioning and the iterative quickselect built on it. */
module Partitioning {
  import opened Arrays
  import opened Selection

  /** s[x] is at most s[y]; named so that facts about pairs of positions are
      used only where a proof asks for them. */
  ghost predicate Ordered(s: seq<int>, x: int, y: int) {
    0 <= x < |s| && 0 <= y < |s| && s[x] <= s[y]
  }

  /** Every element of s[low..m) is at most every element of s[m..high]. */
  ghost predicate SplitAt(s: seq<int>, low: int, m: int, high: int)
    requires 0 <= low && high < |s|
  {
    forall x, y :: low <= x < m <= y <= high ==> Ordered(s, x, y)
  }

  /** partition(arr, low, high): takes arr[high] as the pivot, moves every
      element no larger than it to the front of arr[low..high], puts the pivot
      right after them and returns its index; everything after the pivot is
      strictly larger. */
  method Partition(a: array<int>, low: int, high: int) returns (p: int)
    requires 0 <= low <= high < a.Length
    modifies a
    ensures low <= p <= high
    ensures a[p] == old(a[high])
    ensures forall x :: low <= x < p ==> a[x] <= a[p]
    ensures forall y :: p < y <= high ==> a[p] < a[y]
    ensures multiset(a[low..high + 1]) == old(multiset(a[low..high + 1]))
    ensures multiset(a[..]) == old(multiset(a[..]))
    ensures forall x :: 0 <= x < a.Length && !(low <= x <= high) ==> a[x] == old(a[x])
  {
    var pivot := a[high];
    var i := low - 1;
    for j := low to high
      invariant low - 1 <= i < j
      invariant a[high] == pivot
      invariant forall x :: low <= x <= i ==> a[x] <= pivot
      invariant forall x :: i < x < j ==> pivot < a[x]
      invariant multiset(a[..]) == old(multiset(a[..]))
      invariant forall x :: 0 <= x < a.Length && !(low <= x < high) ==> a[x] == old(a[x])
    {
      if a[j] <= pivot {
        i := i + 1;
        Swap(a, i, j);
      }
    }
    Swap(a, i + 1, high);
    p := i + 1;
    SliceMultiset(old(a[..]), a[..], low, high + 1);
    assert old(a[..])[low..high + 1] == old(a[low..high + 1]);
  }

  /** Where an element of the rearranged middle s1[lo..hi] came from. */
  lemma Origin(s0: seq<int>, s1: seq<int>, lo: int, hi: int, z: int) returns (w: int)
    requires 0 <= lo <= z <= hi < |s0| == |s1|
    requires multiset(s0[lo..hi + 1]) == multiset(s1[lo..hi + 1])
    ensures lo <= w <= hi && s0[w] == s1[z]
  {
    assert s1[z] == s1[lo..hi + 1][z - lo];
    assert s1[z] in multiset(s0[lo..hi + 1]);
    var u :| 0 <= u < hi + 1 - lo && s0[lo..hi + 1][u] == s1[z];
    w := lo + u;
  }

  /** Partitioning s0[lo..hi] around the pivot landing at p keeps the split
      points lo and hi + 1 of the enclosing range s0[low..high] and adds the
      split points p and p + 1. */
  lemma SplitAfterPartition(s0: seq<int>, s1: seq<int>, low: int, lo: int, hi: int, high: int, p: int, m: int)
    requires 0 <= low <= lo <= p <= hi <= high < |s0| == |s1|
    requires forall x :: 0 <= x < |s0| && !(lo <= x <= hi) ==> s0[x] == s1[x]
    requires multiset(s0[lo..hi + 1]) == multiset(s1[lo..hi + 1])
    requires forall x :: lo <= x < p ==> s1[x] <= s1[p]
    requires forall y :: p < y <= hi ==> s1[p] < s1[y]
    requires SplitAt(s0, low, lo, high) && SplitAt(s0, low, hi + 1, high)
    requires m == lo || m == p || m == p + 1 || m == hi + 1
    ensures SplitAt(s1, low, m, high)
  {
    forall x, y | low <= x < m <= y <= high ensures Ordered(s1, x, y) {
      if x < lo {
        if y <= hi {
          var w := Origin(s0, s1, lo, hi, y);
          assert Ordered(s0, x, w);
        } else {
          assert Ordered(s0, x, y);
        }
      } else if hi < y {
        var w := Origin(s0, s1, lo, hi, x);
        assert Ordered(s0, w, y);
      } else {
        assert s1[x] <= s1[p] <= s1[y];
      }
    }
  }

  /** One round of quickselect: partitioning s0[lo..hi] inside s0[low..high]
      keeps the split points lo and hi + 1 and adds p and p + 1. */
  lemma PartitionRound(s0: seq<int>, s1: seq<int>, low: int, lo: int, hi: int, high: int, p: int)
    requires 0 <= low <= lo <= p <= hi <= high < |s0| == |s1|
    requires forall x :: 0 <= x < |s0| && !(lo <= x <= hi) ==> s0[x] == s1[x]
    requires multiset(s0) == multiset(s1)
    requires forall x :: lo <= x < p ==> s1[x] <= s1[p]
    requires forall y :: p < y <= hi ==> s1[p] < s1[y]
    requires SplitAt(s0, low, lo, high) && SplitAt(s0, low, hi + 1, high)
    ensures SplitAt(s1, low, lo, high) && SplitAt(s1, low, p, high)
    ensures SplitAt(s1, low, p + 1, high) && SplitAt(s1, low, hi + 1, high)
  {
    SliceMultiset(s0, s1, lo, hi + 1);
    SplitAfterPartition(s0, s1, low, lo, hi, high, p, lo);
    SplitAfterPartition(s0, s1, low, lo, hi, high, p, p);
    SplitAfterPartition(s0, s1, low, lo, hi, high, p, p + 1);
    SplitAfterPartition(s0, s1, low, lo, hi, high, p, hi + 1);
  }

  /** A pivot that is a split point on both sides sits exactly where sorting
      the range would put it. */
  lemma PivotIsKth(s: seq<int>, low: int, high: int, p: int, orig: seq<int>)
    requires 0 <= low <= p <= high < |s|
    requires SplitAt(s, low, p, high) && SplitAt(s, low, p + 1, high)
    requires multiset(s[low..high + 1]) == multiset(orig)
    ensures |orig| == high + 1 - low
    ensures s[p] == KthSmallest(orig, p - low + 1)
  {
    var seg := s[low..high + 1];
    PivotInSegment(s, seg, low, high, p);
    OrderStatistic(seg, p - low);
    KthSmallestPermuted(seg, orig, p - low + 1);
  }

  /** The split conditions of PivotIsKth, read inside the segment. */
  lemma PivotInSegment(s: seq<int>, seg: seq<int>, low: int, high: int, p: int)
    requires 0 <= low <= p <= high < |s|
    requires seg == s[low..high + 1]
    requires SplitAt(s, low, p, high) && SplitAt(s, low, p + 1, high)
    ensures forall x :: 0 <= x < p - low ==> seg[x] <= seg[p - low]
    ensures forall y :: p - low < y < |seg| ==> seg[p - low] <= seg[y]
  {
    forall x | 0 <= x < p - low ensures seg[x] <= seg[p - low] {
      assert Ordered(s, low + x, p);
    }
    forall y | p - low < y < |seg| ensures seg[p - low] <= seg[y] {
      assert Ordered(s, p, low + y);
    }
  }

  /** quickselect_kth_smallest(arr, low, high, k): the k-th smallest value of
      arr[low..high] when k - 1 is an index of that range, counting k from the
      start of the array as the source does, and -1 otherwise; it rearranges
      arr[low..high] along the way and touches nothing else. */
  method QuickselectKthSmallest(a: array<int>, low: int, high: int, k: int) returns (r: int)
    requires 0 <= low && high < a.Length
    modifies a
    ensures low <= k - 1 <= high ==> r == KthSmallest(old(a[low..high + 1]), k - low)
    ensures !(low <= k - 1 <= high) ==> r == -1
    ensures multiset(a[..]) == old(multiset(a[..]))
    ensures forall x :: 0 <= x < a.Length && !(low <= x <= high) ==> a[x] == old(a[x])
  {
    ghost var whole := a[..];
    var target := k - 1;
    var lo, hi := low, high;
    while lo <= hi
      invariant low <= lo && hi <= high
      invariant low <= target <= high ==> lo <= target <= hi
      invariant multiset(a[..]) == multiset(whole)
      invariant low <= high ==> SplitAt(a[..], low, lo, high) && SplitAt(a[..], low, hi + 1, high)
      invariant forall x :: 0 <= x < a.Length && !(low <= x <= high) ==> a[x] == whole[x]
      decreases hi - lo
    {
      ghost var s0 := a[..];
      var p := Partition(a, lo, hi);
      ghost var s1 := a[..];
      PartitionRound(s0, s1, low, lo, hi, high, p);
      if p == target {
        PivotFound(whole, s1, low, high, p);
        assert whole[low..high + 1] == old(a[low..high + 1]);
        return a[p];
      } else if p < target {
        lo := p + 1;
      } else {
        hi := p - 1;
      }
    }
    return -1;
  }

  /** When the array s1 is a rearrangement of s0 confined to [low..high] and
      the pivot at p splits that range on both sides, it is the order
      statistic of the original range. */
  lemma PivotFound(s0: seq<int>, s1: seq<int>, low: int, high: int, p: int)
    requires 0 <= low <= p <= high < |s0| == |s1|
    requires multiset(s0) == multiset(s1)
    requires forall x :: 0 <= x < |s1| && !(low <= x <= high) ==> s1[x] == s0[x]
    requires SplitAt(s1, low, p, high) && SplitAt(s1, low, p + 1, high)
    ensures s1[p] == KthSmallest(s0[low..high + 1], p - low + 1)
  {
    SliceMultiset(s0, s1, low, high + 1);
    PivotIsKth(s1, low, high, p, s0[low..high + 1]);
  }
}
