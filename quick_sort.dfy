/**
 * In-place Lomuto quicksort: the last element of a range is the pivot, elements not greater
 * than it are swapped into a growing prefix, and the pivot is then swapped to the boundary.
 */
module QuickSort {

  /** The slice s[lo..hi] is in non-decreasing order. */
  predicate SortedRange(s: seq<int>, lo: int, hi: int)
    requires 0 <= lo <= hi <= |s|
  {
    forall i, j :: lo <= i < j < hi ==> s[i] <= s[j]
  }

  predicate Sorted(s: seq<int>)
  {
    forall i, j :: 0 <= i < j < |s| ==> s[i] <= s[j]
  }

  /** Swaps two cells (possibly the same one) and leaves all others alone. */
  method Swap(a: array<int>, i: int, j: int)
    requires 0 <= i < a.Length && 0 <= j < a.Length
    modifies a
    ensures a[i] == old(a[j]) && a[j] == old(a[i])
    ensures forall k :: 0 <= k < a.Length && k != i && k != j ==> a[k] == old(a[k])
    ensures multiset(a[..]) == old(multiset(a[..]))
  {
    a[i], a[j] := a[j], a[i];
  }

  /**
   * Lomuto partition of a[start..end] (both ends included) around the pivot a[end].
   * Returns the pivot's final index p: everything before it in the range is at most the
   * pivot, everything after it is greater, and nothing outside the range moves.
   */
  method Partition(a: array<int>, start: int, end: int) returns (p: int)
    requires 0 <= start <= end < a.Length
    modifies a
    ensures start <= p <= end
    ensures a[p] == old(a[end])
    ensures forall k :: start <= k < p ==> a[k] <= a[p]
    ensures forall k :: p < k <= end ==> a[k] > a[p]
    ensures a[..start] == old(a[..start]) && a[end + 1..] == old(a[end + 1..])
    ensures multiset(a[start..end + 1]) == old(multiset(a[start..end + 1]))
    ensures multiset(a[..]) == old(multiset(a[..]))
  {
    var pivot := a[end];
    var i := start;
    var j := start;
    while j < end
      invariant start <= i <= j <= end
      invariant a[end] == pivot
      invariant forall k :: start <= k < i ==> a[k] <= pivot
      invariant forall k :: i <= k < j ==> a[k] > pivot
      invariant forall k :: 0 <= k < a.Length && !(start <= k <= end) ==> a[k] == old(a[k])
      invariant multiset(a[..]) == old(multiset(a[..]))
    {
      if a[j] <= pivot {
        Swap(a, i, j);
        i := i + 1;
      }
      j := j + 1;
    }
    Swap(a, i, end);
    p := i;
    OutsideSlices(old(a[..]), a[..], start, end + 1);
    RangeMultiset(old(a[..]), a[..], start, end + 1);
  }

  /** Pointwise agreement outside [lo, hi) is agreement of the two outer slices. */
  lemma OutsideSlices(s: seq<int>, t: seq<int>, lo: int, hi: int)
    requires 0 <= lo <= hi <= |s| == |t|
    requires forall k :: 0 <= k < |s| && !(lo <= k < hi) ==> s[k] == t[k]
    ensures s[..lo] == t[..lo] && s[hi..] == t[hi..]
  {
  }

  /** When two sequences agree outside [lo, hi) and have the same multiset, so do their slices. */
  lemma RangeMultiset(s: seq<int>, t: seq<int>, lo: int, hi: int)
    requires 0 <= lo <= hi <= |s| == |t|
    requires s[..lo] == t[..lo] && s[hi..] == t[hi..]
    requires multiset(s) == multiset(t)
    ensures multiset(s[lo..hi]) == multiset(t[lo..hi])
  {
    assert s == s[..lo] + s[lo..hi] + s[hi..];
    assert t == t[..lo] + t[lo..hi] + t[hi..];
    var pre, post := multiset(s[..lo]), multiset(s[hi..]);
    assert multiset(s) == pre + multiset(s[lo..hi]) + post;
    assert multiset(t) == pre + multiset(t[lo..hi]) + post;
    assert multiset(s[lo..hi]) == multiset(s) - pre - post;
    assert multiset(t[lo..hi]) == multiset(t) - pre - post;
  }

  /** Sorts a[start..end] (both ends included) in place; `end` may be start - 1 (empty range). */
  method QuickSortRange(a: array<int>, start: int, end: int)
    requires 0 <= start <= end + 1 <= a.Length
    modifies a
    ensures SortedRange(a[..], start, end + 1)
    ensures a[..start] == old(a[..start]) && a[end + 1..] == old(a[end + 1..])
    ensures multiset(a[start..end + 1]) == old(multiset(a[start..end + 1]))
    decreases end - start
  {
    if start < end {
      ghost var init := a[..];
      var p := Partition(a, start, end);
      ghost var mid := a[..];
      QuickSortRange(a, start, p - 1);
      ghost var left := a[..];
      QuickSortRange(a, p + 1, end);
      ghost var right := a[..];
      QuickSortStep(init, mid, left, right, start, p, end + 1);
    }
  }

  /** The bookkeeping of one quicksort call: partition, sort the left part, sort the right part. */
  lemma QuickSortStep(init: seq<int>, mid: seq<int>, left: seq<int>, right: seq<int>, lo: int, p: int, hi: int)
    requires 0 <= lo <= p < hi <= |init| == |mid| == |left| == |right|
    requires mid[..lo] == init[..lo] && mid[hi..] == init[hi..]
    requires multiset(mid) == multiset(init)
    requires forall k :: lo <= k < p ==> mid[k] <= mid[p]
    requires forall k :: p < k < hi ==> mid[k] > mid[p]
    requires SortedRange(left, lo, p)
    requires left[..lo] == mid[..lo] && left[p..] == mid[p..]
    requires multiset(left[lo..p]) == multiset(mid[lo..p])
    requires SortedRange(right, p + 1, hi)
    requires right[..p + 1] == left[..p + 1] && right[hi..] == left[hi..]
    requires multiset(right[p + 1..hi]) == multiset(left[p + 1..hi])
    ensures SortedRange(right, lo, hi)
    ensures right[..lo] == init[..lo] && right[hi..] == init[hi..]
    ensures multiset(right[lo..hi]) == multiset(init[lo..hi])
  {
    StepSorted(mid, left, right, lo, p, hi);
    assert right[..lo] == init[..lo] by { assert right[..lo] == right[..p + 1][..lo]; }
    SliceMultiset(mid, left, lo, p);
    SliceMultiset(left, right, p + 1, hi);
    RangeMultiset(init, right, lo, hi);
  }

  /** The sortedness half of QuickSortStep. */
  lemma StepSorted(mid: seq<int>, left: seq<int>, right: seq<int>, lo: int, p: int, hi: int)
    requires 0 <= lo <= p < hi <= |mid| == |left| == |right|
    requires forall k :: lo <= k < p ==> mid[k] <= mid[p]
    requires forall k :: p < k < hi ==> mid[k] > mid[p]
    requires left[p..] == mid[p..]
    requires multiset(left[lo..p]) == multiset(mid[lo..p])
    requires SortedRange(left, lo, p)
    requires SortedRange(right, p + 1, hi)
    requires right[..p + 1] == left[..p + 1]
    requires multiset(right[p + 1..hi]) == multiset(left[p + 1..hi])
    ensures SortedRange(right, lo, hi)
  {
    assert left[p] == left[p..][0] && mid[p] == mid[p..][0];
    assert right[p] == right[..p + 1][p] && left[p] == left[..p + 1][p];
    BoundPreserved(mid, left, lo, p, mid[p], true);
    assert forall k :: p < k < hi ==> left[k] == mid[k] by {
      forall k | p < k < hi ensures left[k] == mid[k] { assert left[k] == left[p..][k - p]; }
    }
    BoundPreserved(left, right, p + 1, hi, mid[p], false);
    assert forall k :: lo <= k < p ==> right[k] == left[k] by {
      forall k | lo <= k < p ensures right[k] == left[k] { assert right[k] == right[..p + 1][k]; }
    }
    JoinSorted(right, lo, p, hi);
  }

  /** Sequences that agree outside [lo, hi) and rearrange that slice have the same multiset. */
  lemma SliceMultiset(s: seq<int>, t: seq<int>, lo: int, hi: int)
    requires 0 <= lo <= hi <= |s| == |t|
    requires s[..lo] == t[..lo] && s[hi..] == t[hi..]
    requires multiset(s[lo..hi]) == multiset(t[lo..hi])
    ensures multiset(s) == multiset(t)
  {
    assert s == s[..lo] + s[lo..hi] + s[hi..];
    assert t == t[..lo] + t[lo..hi] + t[hi..];
  }

  /** A sorted left part, a pivot no smaller than it, and a sorted greater right part form a sorted range. */
  lemma JoinSorted(s: seq<int>, lo: int, p: int, hi: int)
    requires 0 <= lo <= p < hi <= |s|
    requires SortedRange(s, lo, p) && SortedRange(s, p + 1, hi)
    requires forall k :: lo <= k < p ==> s[k] <= s[p]
    requires forall k :: p < k < hi ==> s[k] > s[p]
    ensures SortedRange(s, lo, hi)
  {
  }

  /**
   * A bound on every element of a slice survives any rearrangement of that slice:
   * `atMost` selects an upper bound (<=), otherwise a strict lower bound (>).
   */
  lemma BoundPreserved(s: seq<int>, t: seq<int>, lo: int, hi: int, pivot: int, atMost: bool)
    requires 0 <= lo <= hi <= |s| == |t|
    requires multiset(s[lo..hi]) == multiset(t[lo..hi])
    requires atMost ==> forall k :: lo <= k < hi ==> s[k] <= pivot
    requires !atMost ==> forall k :: lo <= k < hi ==> s[k] > pivot
    ensures atMost ==> forall k :: lo <= k < hi ==> t[k] <= pivot
    ensures !atMost ==> forall k :: lo <= k < hi ==> t[k] > pivot
  {
    forall k | lo <= k < hi
      ensures atMost ==> t[k] <= pivot
      ensures !atMost ==> t[k] > pivot
    {
      assert t[k] == t[lo..hi][k - lo];
      assert t[k] in multiset(s[lo..hi]);
      var m :| lo <= m < hi && s[m] == t[k] by {
        assert t[k] in s[lo..hi];
        var m' :| 0 <= m' < hi - lo && s[lo..hi][m'] == t[k];
        assert s[lo + m'] == t[k];
      }
    }
  }

  /** Sorts the whole array in place and returns it. */
  method SortByAsc(a: array<int>) returns (r: array<int>)
    modifies a
    ensures r == a
    ensures Sorted(a[..])
    ensures multiset(a[..]) == old(multiset(a[..]))
  {
    QuickSortRange(a, 0, a.Length - 1);
    assert a[..] == a[0..a.Length];
    assert old(a[..]) == old(a[0..a.Length]);
    r := a;
  }

  /** The sequence is in non-increasing order. */
  predicate SortedDesc(s: seq<int>)
  {
    forall i, j :: 0 <= i < j < |s| ==> s[i] >= s[j]
  }

  /**
   * Sorts the whole array in place from largest to smallest (a sort with the comparator
   * reversed): the ascending sort, then the array turned back to front.
   */
  method SortByDesc(a: array<int>) returns (r: array<int>)
    modifies a
    ensures r == a
    ensures SortedDesc(a[..])
    ensures multiset(a[..]) == old(multiset(a[..]))
  {
    r := SortByAsc(a);
    ghost var s := a[..];
    ReverseInPlace(a);
    forall i, j | 0 <= i < j < a.Length ensures a[i] >= a[j] {
      assert a[i] == s[a.Length - 1 - i] && a[j] == s[a.Length - 1 - j];
    }
  }

  /** Turns the array back to front by swapping the two ends towards the middle. */
  method ReverseInPlace(a: array<int>)
    modifies a
    ensures forall k :: 0 <= k < a.Length ==> a[k] == old(a[a.Length - 1 - k])
    ensures multiset(a[..]) == old(multiset(a[..]))
  {
    var lo, hi := 0, a.Length - 1;
    while lo < hi
      invariant 0 <= lo && hi == a.Length - 1 - lo && lo <= hi + 2
      invariant forall k :: 0 <= k < lo ==> a[k] == old(a[a.Length - 1 - k])
      invariant forall k :: hi < k < a.Length ==> a[k] == old(a[a.Length - 1 - k])
      invariant forall k :: lo <= k <= hi ==> a[k] == old(a[k])
      invariant multiset(a[..]) == old(multiset(a[..]))
    {
      Swap(a, lo, hi);
      lo, hi := lo + 1, hi - 1;
    }
  }

  /** Order between neighbours gives order between any two elements. */
  lemma {:induction false} AdjacentSorted(s: seq<int>)
    requires forall i :: 0 < i < |s| ==> s[i - 1] <= s[i]
    ensures Sorted(s)
  {
    if |s| > 1 {
      var t := s[1..];
      AdjacentSorted(t);
      forall i, j | 0 <= i < j < |s| ensures s[i] <= s[j] {
        assert s[j] == t[j - 1];
        if i > 0 {
          assert s[i] == t[i - 1];
        } else {
          assert s[1] == t[0] && t[0] <= t[j - 1];
        }
      }
    }
  }

  /** Two sorted sequences with the same elements start with the same (least) element. */
  lemma SortedSameHead(s: seq<int>, t: seq<int>)
    requires Sorted(s) && Sorted(t) && s != []
    requires multiset(s) == multiset(t)
    ensures |t| == |s| && s[0] == t[0]
  {
    assert |multiset(s)| == |multiset(t)|;
    assert s[0] in multiset(s) && t[0] in multiset(t);
    assert s[0] in t && t[0] in s;
    var i :| 0 <= i < |t| && t[i] == s[0];
    var j :| 0 <= j < |s| && s[j] == t[0];
    assert s[0] <= s[j] && t[0] <= t[i];
  }

  /** Two sorted sequences with the same elements are equal: a sort's output is determined. */
  lemma {:induction false} SortedUnique(s: seq<int>, t: seq<int>)
    requires Sorted(s) && Sorted(t)
    requires multiset(s) == multiset(t)
    ensures s == t
  {
    if s == [] {
      assert |t| == 0 by { assert |multiset(t)| == 0; }
    } else {
      SortedSameHead(s, t);
      assert s == [s[0]] + s[1..];
      assert t == [t[0]] + t[1..];
      assert multiset(s[1..]) == multiset(s) - multiset{s[0]};
      assert multiset(t[1..]) == multiset(t) - multiset{t[0]};
      SortedUnique(s[1..], t[1..]);
    }
  }

  /** The only sorted rearrangement of [2, 9, 5, 9] is [2, 5, 9, 9]. */
  lemma SortedExample(s: seq<int>)
    requires Sorted(s) && multiset(s) == multiset([2, 9, 5, 9])
    ensures s == [2, 5, 9, 9]
  {
    var t := [2, 5, 9, 9];
    assert t[0] <= t[1] <= t[2] <= t[3];
    AdjacentSorted(t);
    assert multiset([2, 9, 5, 9]) == multiset(t);
    SortedUnique(s, t);
  }

  /** Sorting [2, 9, 5, 9] gives [2, 5, 9, 9]. */
  method SortExample() returns (s: seq<int>)
    ensures s == [2, 5, 9, 9]
  {
    var a := new int[4];
    a[0], a[1], a[2], a[3] := 2, 9, 5, 9;
    assert a[..] == [2, 9, 5, 9];
    var r := SortByAsc(a);
    s := r[..];
    SortedExample(s);
  }

  /** An empty or one-element array is left as it is. */
  method SortTrivial(a: array<int>) returns (r: array<int>)
    requires a.Length <= 1
    modifies a
    ensures r == a && a[..] == old(a[..])
  {
    r := SortByAsc(a);
    assert a.Length == 1 ==> a[..] == [a[0]] && old(a[..]) == [old(a[0])];
    assert a.Length == 1 ==> multiset(a[..]) == multiset{a[0]};
  }
}
