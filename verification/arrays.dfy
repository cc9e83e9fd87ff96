/** The element swap every in-place routine is built from, and the fact that
    lets a routine confined to a slice promise a permutation of that slice. */
module Arrays {

  /** swap(&a[i], &a[j]): exchanges two elements; i == j leaves the array as it is. */
  method Swap(a: array<int>, i: int, j: int)
    requires 0 <= i < a.Length && 0 <= j < a.Length
    modifies a
    ensures a[i] == old(a[j]) && a[j] == old(a[i])
    ensures forall x :: 0 <= x < a.Length && x != i && x != j ==> a[x] == old(a[x])
    ensures multiset(a[..]) == old(multiset(a[..]))
  {
    var temp := a[i];
    a[i] := a[j];
    a[j] := temp;
  }

  /** memcpy(dst, src, count * sizeof(int)): the first count elements of src
      overwrite those of dst; the rest of dst is left as it was. */
  method CopyPrefix(dst: array<int>, src: array<int>, count: int)
    requires 0 <= count <= dst.Length && count <= src.Length && dst != src
    modifies dst
    ensures dst[..count] == src[..count]
    ensures forall i :: count <= i < dst.Length ==> dst[i] == old(dst[i])
  {
    forall i | 0 <= i < count {
      dst[i] := src[i];
    }
  }

  /** When two sequences agree outside s[lo..hi) and hold the same multiset,
      the slices s[lo..hi) hold the same multiset too. */
  lemma SliceMultiset(s0: seq<int>, s1: seq<int>, lo: int, hi: int)
    requires 0 <= lo <= hi <= |s0| == |s1|
    requires forall j :: 0 <= j < |s0| && !(lo <= j < hi) ==> s0[j] == s1[j]
    requires multiset(s0) == multiset(s1)
    ensures multiset(s0[lo..hi]) == multiset(s1[lo..hi])
  {
    var a, b, c := s0[..lo], s0[lo..hi], s0[hi..];
    var b' := s1[lo..hi];
    assert s0 == a + b + c;
    assert s1 == a + b' + c;
    calc {
      multiset(b);
      multiset(a + b + c) - multiset(a) - multiset(c);
      multiset(a + b' + c) - multiset(a) - multiset(c);
      multiset(b');
    }
  }
}
