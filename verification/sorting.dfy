/** Descending order on integer sequences, the reference descending sort, and
    the in-place sort that stands for the C library's `qsort` called with the
    `compare_desc` comparator. */
module Sorting {

  /** Non-increasing: no element is smaller than a later one. */
  ghost predicate SortedDesc(s: seq<int>) {
    forall i, j :: 0 <= i < j < |s| ==> s[i] >= s[j]
  }

  /** An upper bound of every element survives any reordering. */
  lemma PermutedBelow(s: seq<int>, t: seq<int>, b: int)
    requires multiset(s) == multiset(t)
    requires forall i :: 0 <= i < |s| ==> s[i] <= b
    ensures forall j :: 0 <= j < |t| ==> t[j] <= b
  {
    forall j | 0 <= j < |t| ensures t[j] <= b {
      assert t[j] in multiset(s);
      var i :| 0 <= i < |s| && s[i] == t[j];
    }
  }

  /** A lower bound of every element survives any reordering. */
  lemma PermutedAbove(s: seq<int>, t: seq<int>, b: int)
    requires multiset(s) == multiset(t)
    requires forall i :: 0 <= i < |s| ==> b <= s[i]
    ensures forall j :: 0 <= j < |t| ==> b <= t[j]
  {
    forall j | 0 <= j < |t| ensures b <= t[j] {
      assert t[j] in multiset(s);
      var i :| 0 <= i < |s| && s[i] == t[j];
    }
  }

  /** Inserts x into a non-increasing sequence at the first place where it is
      no smaller than what follows. */
  function Insert(x: int, t: seq<int>): (r: seq<int>)
    requires SortedDesc(t)
    ensures SortedDesc(r)
    ensures multiset(r) == multiset(t) + multiset{x}
  {
    if t == [] || x >= t[0] then
      [x] + t
    else
      assert t == [t[0]] + t[1..];
      var rest := Insert(x, t[1..]);
      assert forall j :: 0 <= j < |t[1..]| ==> t[1..][j] <= t[0];
      PermutedBelow(t[1..] + [x], rest, t[0]);
      [t[0]] + rest
  }

  /** The input in non-increasing order (an insertion sort; any correct
      comparison sort yields the same sequence, see SortedUnique). */
  function SortDesc(s: seq<int>): (r: seq<int>)
    ensures SortedDesc(r)
    ensures multiset(r) == multiset(s)
    ensures |r| == |s|
  {
    if s == [] then []
    else
      assert s == [s[0]] + s[1..];
      Insert(s[0], SortDesc(s[1..]))
  }

  /** Two non-increasing arrangements of the same multiset are equal: the
      sorted order of a bag of integers is unique. */
  lemma {:induction false} SortedUnique(a: seq<int>, b: seq<int>)
    requires SortedDesc(a) && SortedDesc(b)
    requires multiset(a) == multiset(b)
    ensures a == b
  {
    assert |a| == |multiset(a)| == |multiset(b)| == |b|;
    if a != [] {
      assert a[0] in multiset(b);
      var j :| 0 <= j < |b| && b[j] == a[0];
      assert b[0] in multiset(a);
      var i :| 0 <= i < |a| && a[i] == b[0];
      assert a[0] == b[0];
      assert a == [a[0]] + a[1..];
      assert b == [b[0]] + b[1..];
      assert multiset(a[1..]) == multiset(a) - multiset{a[0]};
      assert multiset(b[1..]) == multiset(b) - multiset{b[0]};
      SortedUnique(a[1..], b[1..]);
    }
  }

  /** qsort(a, len, sizeof(int), compare_desc): sorts a[0..len) into
      non-increasing order in place and leaves the rest of the array alone. */
  method SortDescending(a: array<int>, len: int)
    requires 0 <= len <= a.Length
    modifies a
    ensures SortedDesc(a[..len])
    ensures multiset(a[..len]) == old(multiset(a[..len]))
    ensures a[..len] == SortDesc(old(a[..len]))
    ensures forall i :: len <= i < a.Length ==> a[i] == old(a[i])
  {
    var sorted := SortDesc(a[..len]);
    forall i | 0 <= i < len {
      a[i] := sorted[i];
    }
    assert a[..len] == sorted;
  }
}
