/** What the three selectors are meant to compute, stated on values: the k
    largest elements of an input, the k-th largest value, and the threshold
    filter the quickselect selector applies. */
module Selection {
  import opened Sorting

  // ---------------------------------------------------------------------
  // Multisets of k largest values

  /** A sub-multiset of b has at most as many elements as b, and exactly as
      many only when it is b itself. */
  lemma SubBagCard(m1: multiset<int>, m2: multiset<int>)
    requires m1 <= m2
    ensures |m1| <= |m2|
    ensures |m1| == |m2| ==> m1 == m2
  {
    var d := m2 - m1;
    assert m2 == m1 + d;
    if |m1| == |m2| {
      assert |d| == 0;
    }
  }

  /** m holds k elements of b, and no element of b left out of m is larger
      than an element of m: m is a multiset of k largest values of b. Equal
      values are counted as distinct elements. */
  ghost predicate IsTopK(m: multiset<int>, b: multiset<int>, k: int) {
    |m| == k && m <= b && forall x, y :: x in m && y in b - m ==> y <= x
  }

  /** The k largest values of a multiset are determined by the multiset,
      whatever the ties. */
  lemma TopKUnique(m1: multiset<int>, m2: multiset<int>, b: multiset<int>, k: int)
    requires IsTopK(m1, b, k) && IsTopK(m2, b, k)
    ensures m1 == m2
  {
    forall v ensures m1[v] <= m2[v] {
      if m1[v] > m2[v] {
        // v was kept by m1 and dropped by m2, so m2 holds nothing below v
        // and m1 drops nothing above v: m2 would be a strictly smaller
        // sub-multiset of m1.
        assert v in m1 && v in b - m2;
        forall x ensures m2[x] <= m1[x] {
          if x > v {
            assert x !in b - m1;
          } else if x < v {
            assert x !in m2;
          }
        }
        SubBagCard(m2, m1);
        assert false;
      }
    }
    SubBagCard(m1, m2);
  }

  /** The first k elements of a non-increasing sequence are k largest ones. */
  lemma PrefixIsTopK(t: seq<int>, k: int)
    requires SortedDesc(t) && 0 <= k <= |t|
    ensures IsTopK(multiset(t[..k]), multiset(t), k)
  {
    assert t == t[..k] + t[k..];
    assert multiset(t) - multiset(t[..k]) == multiset(t[k..]);
    forall x, y | x in multiset(t[..k]) && y in multiset(t) - multiset(t[..k])
      ensures y <= x
    {
      var i :| 0 <= i < k && t[..k][i] == x;
      var j :| 0 <= j < |t| - k && t[k..][j] == y;
    }
  }

  /** The reference answer of all three selectors: the first k elements of
      the input once sorted in non-increasing order. */
  function TopK(s: seq<int>, k: int): (r: seq<int>)
    requires 0 <= k <= |s|
    ensures |r| == k
    ensures SortedDesc(r)
    ensures IsTopK(multiset(r), multiset(s), k)
  {
    PrefixIsTopK(SortDesc(s), k);
    SortDesc(s)[..k]
  }

  /** Any non-increasing sequence whose multiset is a k-largest multiset of s
      is the reference answer: ties cannot make two correct results differ. */
  lemma SortedTopKIsTopK(r: seq<int>, s: seq<int>, k: int)
    requires 0 <= k <= |s|
    requires SortedDesc(r) && IsTopK(multiset(r), multiset(s), k)
    ensures r == TopK(s, k)
  {
    TopKUnique(multiset(r), multiset(TopK(s, k)), multiset(s), k);
    SortedUnique(r, TopK(s, k));
  }

  /** Sorting any k-largest selection of s gives the reference answer. */
  lemma SortingTopKIsTopK(m: seq<int>, s: seq<int>, k: int)
    requires 0 <= k <= |s|
    requires IsTopK(multiset(m), multiset(s), k)
    ensures SortDesc(m) == TopK(s, k)
  {
    SortedTopKIsTopK(SortDesc(m), s, k);
  }

  /** The reference answer for k = 1 is the maximum, and for k = |s| the whole
      input in non-increasing order. */
  lemma TopKBoundaries(s: seq<int>)
    requires |s| >= 1
    ensures TopK(s, 1)[0] in s
    ensures forall j :: 0 <= j < |s| ==> s[j] <= TopK(s, 1)[0]
    ensures SortedDesc(TopK(s, |s|)) && multiset(TopK(s, |s|)) == multiset(s)
  {
    var m := TopK(s, 1)[0];
    assert multiset(TopK(s, 1)) == multiset{m};
    assert m in multiset(s);
    forall j | 0 <= j < |s| ensures s[j] <= m {
      if s[j] != m {
        assert s[j] in multiset(s) - multiset{m};
      }
    }
    SubBagCard(multiset(TopK(s, |s|)), multiset(s));
  }

  /** One step of the heap selector: m is a k-largest multiset of the values
      seen so far and `least` its smallest element; the next value x either
      replaces `least` (when larger) or is dropped, and m stays a k-largest
      multiset of the values seen. */
  lemma TopKStep(m: multiset<int>, b: multiset<int>, k: int, least: int, x: int)
    requires IsTopK(m, b, k)
    requires least in m
    requires forall z :: z in m ==> least <= z
    ensures x > least ==> IsTopK(m - multiset{least} + multiset{x}, b + multiset{x}, k)
    ensures x <= least ==> IsTopK(m, b + multiset{x}, k)
  {
    var b' := b + multiset{x};
    if x > least {
      var m' := m - multiset{least} + multiset{x};
      assert b' - m' == (b - m) + multiset{least};
      forall u, y | u in m' && y in b' - m' ensures y <= u {
        if y != least {
          assert y in b - m;
          if u != x {
            assert u in m;
          }
        }
      }
    } else {
      assert b' - m == (b - m) + multiset{x};
    }
  }

  // ---------------------------------------------------------------------
  // Order statistics

  /** The k-th largest value of s, 1-based: position k-1 of s sorted in
      non-increasing order. */
  function KthLargest(s: seq<int>, k: int): int
    requires 1 <= k <= |s|
  {
    SortDesc(s)[k - 1]
  }

  /** The k-th smallest value of s, 1-based, which is its (|s|-k+1)-th
      largest. */
  function KthSmallest(s: seq<int>, k: int): int
    requires 1 <= k <= |s|
  {
    KthLargest(s, |s| - k + 1)
  }

  /** Order statistics depend only on the multiset of values. */
  lemma KthSmallestPermuted(s: seq<int>, t: seq<int>, k: int)
    requires multiset(s) == multiset(t)
    requires 1 <= k <= |s|
    ensures |t| == |s|
    ensures KthSmallest(s, k) == KthSmallest(t, k)
  {
    assert |s| == |multiset(s)| == |multiset(t)| == |t|;
    SortedUnique(SortDesc(s), SortDesc(t));
  }

  /** Joining two non-increasing sequences, every element of the first no
      smaller than every element of the second, gives a non-increasing one. */
  lemma SortedJoin(u: seq<int>, w: seq<int>)
    requires SortedDesc(u) && SortedDesc(w)
    requires forall i, j :: 0 <= i < |u| && 0 <= j < |w| ==> u[i] >= w[j]
    ensures SortedDesc(u + w)
  {
  }


  /** An element with nothing larger before it and nothing smaller after it
      sits where sorting would put it: s[t] is the (t+1)-th smallest of s. */
  lemma OrderStatistic(s: seq<int>, t: int)
    requires 0 <= t < |s|
    requires forall x :: 0 <= x < t ==> s[x] <= s[t]
    requires forall y :: t < y < |s| ==> s[t] <= s[y]
    ensures s[t] == KthSmallest(s, t + 1)
  {
    var pivot := s[t];
    var before, after := s[..t], s[t + 1..];
    assert s == before + [pivot] + after;
    var above, below := SortDesc(after), SortDesc(before);
    PivotJoin(before, pivot, after);
    var b := above + [pivot] + below;
    assert multiset(b) == multiset(s);
    SortedUnique(b, SortDesc(s));
    assert b[|above|] == pivot;
  }

  /** Sorting what lies above a pivot, then the pivot, then sorting what lies
      below it gives a non-increasing sequence. */
  lemma PivotJoin(before: seq<int>, pivot: int, after: seq<int>)
    requires forall x :: 0 <= x < |before| ==> before[x] <= pivot
    requires forall y :: 0 <= y < |after| ==> pivot <= after[y]
    ensures SortedDesc(SortDesc(after) + [pivot] + SortDesc(before))
  {
    var above, below := SortDesc(after), SortDesc(before);
    PermutedAbove(after, above, pivot);
    PermutedBelow(before, below, pivot);
    SortedJoin(above, [pivot]);
    var upper := above + [pivot];
    assert forall i :: 0 <= i < |upper| ==> upper[i] >= pivot;
    SortedJoin(upper, below);
  }


  // ---------------------------------------------------------------------
  // The threshold filter

  /** The elements of s that are >= v, in their order in s. (Elements
      strictly above v are AtLeast(s, v + 1).) */
  function AtLeast(s: seq<int>, v: int): seq<int> {
    if s == [] then []
    else AtLeast(s[..|s| - 1], v) + (if s[|s| - 1] >= v then [s[|s| - 1]] else [])
  }

  /** The filter keeps every copy of each value >= v and nothing else. */
  lemma {:induction false} AtLeastMultiset(s: seq<int>, v: int)
    ensures forall x :: multiset(AtLeast(s, v))[x] == if x >= v then multiset(s)[x] else 0
  {
    if s != [] {
      var init := s[..|s| - 1];
      AtLeastMultiset(init, v);
      assert s == init + [s[|s| - 1]];
    }
  }

  /** Filtering a prefix of s gives a prefix of filtering s. */
  lemma {:induction false} AtLeastPrefix(s: seq<int>, i: int, v: int)
    requires 0 <= i <= |s|
    ensures |AtLeast(s[..i], v)| <= |AtLeast(s, v)|
    ensures AtLeast(s, v)[..|AtLeast(s[..i], v)|] == AtLeast(s[..i], v)
    decreases |s|
  {
    if i < |s| {
      var init := s[..|s| - 1];
      assert init[..i] == s[..i];
      AtLeastPrefix(init, i, v);
    } else {
      assert s[..i] == s;
    }
  }

  /** How many elements pass the filter depends only on the multiset of s. */
  lemma AtLeastPermutation(s: seq<int>, t: seq<int>, v: int)
    requires multiset(s) == multiset(t)
    ensures |AtLeast(s, v)| == |AtLeast(t, v)|
  {
    var fs, ft := AtLeast(s, v), AtLeast(t, v);
    AtLeastMultiset(s, v);
    AtLeastMultiset(t, v);
    forall x ensures multiset(fs)[x] == multiset(ft)[x] {
    }
    assert multiset(fs) == multiset(ft);
    assert |fs| == |multiset(fs)| == |multiset(ft)| == |ft|;
  }

  /** Raising the threshold never lets more elements through. */
  lemma {:induction false} AtLeastMonotone(s: seq<int>, v: int, w: int)
    requires v <= w
    ensures |AtLeast(s, w)| <= |AtLeast(s, v)|
  {
    var fv, fw := AtLeast(s, v), AtLeast(s, w);
    AtLeastMultiset(s, v);
    AtLeastMultiset(s, w);
    forall x ensures multiset(fw)[x] <= multiset(fv)[x] {
    }
    SubBagCard(multiset(fw), multiset(fv));
  }

  /** c copies of v. */
  function Repeat(v: int, c: nat): (r: seq<int>)
    ensures |r| == c
    ensures forall x :: multiset(r)[x] == if x == v then c else 0
  {
    if c == 0 then [] else [v] + Repeat(v, c - 1)
  }

  /** The elements >= v are those > v together with every copy of v. */
  lemma AtLeastSplit(s: seq<int>, v: int)
    ensures multiset(AtLeast(s, v)) == multiset(AtLeast(s, v + 1)) + multiset(Repeat(v, multiset(s)[v]))
    ensures |AtLeast(s, v)| == |AtLeast(s, v + 1)| + multiset(s)[v]
  {
    AtLeastMultiset(s, v);
    AtLeastMultiset(s, v + 1);
    var r := Repeat(v, multiset(s)[v]);
    assert multiset(AtLeast(s, v)) == multiset(AtLeast(s, v + 1)) + multiset(r);
    assert |AtLeast(s, v)| == |multiset(AtLeast(s, v))|;
  }

  /** The first k elements of a non-increasing t all reach t[k-1]. */
  lemma SortedCountsReach(t: seq<int>, k: int)
    requires SortedDesc(t) && 1 <= k <= |t|
    ensures |AtLeast(t, t[k - 1])| >= k
  {
    var v := t[k - 1];
    var top, rest := t[..k], t[k..];
    var passed := AtLeast(t, v);
    assert t == top + rest;
    AtLeastMultiset(t, v);
    forall x ensures multiset(top)[x] <= multiset(passed)[x] {
      if x in multiset(top) {
        var i :| 0 <= i < k && top[i] == x;
        assert x >= v;
      }
    }
    SubBagCard(multiset(top), multiset(passed));
  }

  /** Only the first k-1 elements of a non-increasing t can exceed t[k-1]. */
  lemma SortedCountsAbove(t: seq<int>, k: int)
    requires SortedDesc(t) && 1 <= k <= |t|
    ensures |AtLeast(t, t[k - 1] + 1)| < k
  {
    var v1 := t[k - 1] + 1;
    var top, rest := t[..k - 1], t[k - 1..];
    var passed := AtLeast(t, v1);
    assert t == top + rest;
    AtLeastMultiset(t, v1);
    forall x ensures multiset(passed)[x] <= multiset(top)[x] {
      if x >= v1 {
        assert x !in rest;
      }
    }
    SubBagCard(multiset(passed), multiset(top));
  }

  /** The k-th largest value v is pinned down by counting: at least k
      elements are >= v and fewer than k are > v. */
  lemma KthLargestCounts(s: seq<int>, k: int)
    requires 1 <= k <= |s|
    ensures |AtLeast(s, KthLargest(s, k))| >= k
    ensures |AtLeast(s, KthLargest(s, k) + 1)| < k
  {
    KthLargestReach(s, k);
    KthLargestAbove(s, k);
  }

  /** At least k elements of s reach its k-th largest value. */
  lemma KthLargestReach(s: seq<int>, k: int)
    requires 1 <= k <= |s|
    ensures |AtLeast(s, KthLargest(s, k))| >= k
  {
    var t := SortDesc(s);
    SortedCountsReach(t, k);
    AtLeastPermutation(s, t, t[k - 1]);
  }

  /** Fewer than k elements of s exceed its k-th largest value. */
  lemma KthLargestAbove(s: seq<int>, k: int)
    requires 1 <= k <= |s|
    ensures |AtLeast(s, KthLargest(s, k) + 1)| < k
  {
    var t := SortDesc(s);
    SortedCountsAbove(t, k);
    AtLeastPermutation(s, t, t[k - 1] + 1);
  }

  /** Conversely, the counting description determines the k-th largest value. */
  lemma KthLargestUnique(s: seq<int>, k: int, w: int)
    requires 1 <= k <= |s|
    requires |AtLeast(s, w)| >= k && |AtLeast(s, w + 1)| < k
    ensures w == KthLargest(s, k)
  {
    var v := KthLargest(s, k);
    KthLargestCounts(s, k);
    if w < v {
      AtLeastMonotone(s, w + 1, v);
    } else if w > v {
      AtLeastMonotone(s, v + 1, w);
    }
  }

  // ---------------------------------------------------------------------
  // The quickselect selector's collection step

  /** What find_top_k_quickselect returns as written: the first k elements of
      s, in scan order, that are >= the k-th largest value, sorted
      non-increasing. */
  function QuickselectTopK(s: seq<int>, k: int): (r: seq<int>)
    requires 1 <= k <= |s|
    ensures |r| == k
    ensures SortedDesc(r)
    ensures forall i :: 0 <= i < k ==> r[i] >= KthLargest(s, k)
    ensures multiset(r) <= multiset(s)
  {
    var v := KthLargest(s, k);
    var passed := AtLeast(s, v);
    KthLargestCounts(s, k);
    AtLeastPrefixBag(s, v, k);
    PermutedAbove(passed[..k], SortDesc(passed[..k]), v);
    SortDesc(passed[..k])
  }

  /** The first c elements to pass the filter are elements of s, and all of
      them reach v. */
  lemma AtLeastPrefixBag(s: seq<int>, v: int, c: int)
    requires 0 <= c <= |AtLeast(s, v)|
    ensures multiset(AtLeast(s, v)[..c]) <= multiset(s)
    ensures forall i :: 0 <= i < c ==> AtLeast(s, v)[..c][i] >= v
  {
    var passed := AtLeast(s, v);
    var head, tail := passed[..c], passed[c..];
    assert passed == head + tail;
    AtLeastMultiset(s, v);
    forall x ensures multiset(head)[x] <= multiset(s)[x] {
      assert multiset(head)[x] <= multiset(passed)[x];
    }
    forall i | 0 <= i < c ensures head[i] >= v {
      assert head[i] in multiset(passed);
    }
  }

  /** When exactly k elements reach the threshold, the quickselect selector
      returns the reference answer. */
  lemma QuickselectExact(s: seq<int>, k: int)
    requires 1 <= k <= |s|
    requires |AtLeast(s, KthLargest(s, k))| == k
    ensures QuickselectTopK(s, k) == TopK(s, k)
  {
    var v := KthLargest(s, k);
    var passed := AtLeast(s, v);
    AtLeastMultiset(s, v);
    assert passed[..k] == passed;
    var m := multiset(passed);
    var b := multiset(s);
    forall x, y | x in m && y in b - m ensures y <= x {
      assert m[y] < b[y];
    }
    assert IsTopK(m, b, k);
    SortedTopKIsTopK(QuickselectTopK(s, k), s, k);
  }

  /** No value occurs twice in s. */
  ghost predicate Distinct(s: seq<int>) {
    forall i, j :: 0 <= i < j < |s| ==> s[i] != s[j]
  }

  /** In a sequence of distinct values every value occurs at most once. */
  lemma {:induction false} DistinctOnce(s: seq<int>, x: int)
    requires Distinct(s)
    ensures multiset(s)[x] <= 1
  {
    if s != [] {
      var init := s[..|s| - 1];
      assert s == init + [s[|s| - 1]];
      assert Distinct(init);
      DistinctOnce(init, x);
    }
  }

  /** On distinct inputs the quickselect selector returns the reference answer. */
  lemma QuickselectDistinct(s: seq<int>, k: int)
    requires 1 <= k <= |s|
    requires Distinct(s)
    ensures QuickselectTopK(s, k) == TopK(s, k)
  {
    var v := KthLargest(s, k);
    KthLargestCounts(s, k);
    AtLeastSplit(s, v);
    DistinctOnce(s, v);
    QuickselectExact(s, k);
  }

  /** Surplus copies of the threshold scanned before a larger value crowd it
      out: on [5, 5, 9] with k = 2 the selector returns [5, 5], not [9, 5]. */
  lemma QuickselectMissesLarger(s: seq<int>)
    requires s == [5, 5, 9]
    ensures QuickselectTopK(s, 2) == [5, 5]
    ensures TopK(s, 2) == [9, 5]
  {
    ExampleQuickselect(s);
    ExampleSorted(s);
  }

  /** The quickselect half of the example: the threshold is 5 and the first
      two values reaching it are the two 5s. */
  lemma ExampleQuickselect(s: seq<int>)
    requires s == [5, 5, 9]
    ensures QuickselectTopK(s, 2) == [5, 5]
  {
    ExampleSorted(s);
    ExampleFiltered(s);
    ExampleCollected(s, KthLargest(s, 2));
  }

  lemma ExampleCollected(s: seq<int>, v: int)
    requires s == [5, 5, 9] && v == 5
    requires AtLeast(s, v) == s
    ensures SortDesc(AtLeast(s, v)[..2]) == [5, 5]
  {
  }

  lemma ExampleSorted(s: seq<int>)
    requires s == [5, 5, 9]
    ensures SortDesc(s) == [9, 5, 5]
  {
    var last := s[2..];
    assert last == [9] && last[1..] == [];
    assert SortDesc(last) == [9];
    var tail := s[1..];
    assert tail[1..] == last;
    var mid := SortDesc(tail);
    assert mid == Insert(5, [9]);
    assert [9][1..] == [];
    assert mid == [9, 5];
    assert s[1..] == tail;
    assert SortDesc(s) == Insert(5, mid);
    assert mid[1..] == [5];
  }

  lemma ExampleFiltered(s: seq<int>)
    requires s == [5, 5, 9]
    ensures AtLeast(s, 5) == s
  {
    assert AtLeast(s[..1], 5) == [5] by {
      assert s[..1][..0] == [];
    }
    assert AtLeast(s[..2], 5) == [5, 5] by {
      assert s[..2][..1] == s[..1];
    }
    assert s[..|s| - 1] == s[..2];
  }

  /** One more copy of v goes at either end. */
  lemma {:induction false} RepeatAppend(v: int, c: nat)
    ensures Repeat(v, c + 1) == Repeat(v, c) + [v]
  {
    if c > 0 {
      RepeatAppend(v, c - 1);
    }
  }

  /** Padding the elements above v with copies of v up to k gives a k-largest
      multiset whenever at least k elements are >= v and fewer than k are
      above it. */
  lemma PaddedIsTopK(s: seq<int>, k: int, v: int)
    requires |AtLeast(s, v)| >= k > |AtLeast(s, v + 1)|
    ensures IsTopK(multiset(AtLeast(s, v + 1) + Repeat(v, k - |AtLeast(s, v + 1)|)), multiset(s), k)
  {
    var above := AtLeast(s, v + 1);
    var pad := Repeat(v, k - |above|);
    AtLeastSplit(s, v);
    AtLeastMultiset(s, v + 1);
    var m := multiset(above + pad);
    var b := multiset(s);
    assert m == multiset(above) + multiset(pad);
    forall x ensures m[x] <= b[x] {
      if x == v {
        assert m[x] == k - |above|;
      } else if x > v {
        assert m[x] == multiset(above)[x];
      }
    }
    assert m <= b;
    forall x, y | x in m && y in b - m ensures y <= x {
      assert x >= v;
      assert y <= v;
    }
  }
}
