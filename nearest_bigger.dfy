/**
 * The nearest larger number written with the same decimal digits: the next arrangement of the
 * digits in numeric order. Digits are held least significant first, so index 0 is the units.
 */
module NearestBigger {
  import opened DecimalDigits
  import QuickSort

  /**
   * No digit is larger than the next more significant one: read from the most significant end
   * the digits never increase, which makes this the largest arrangement of them.
   */
  predicate IsLargestArrangement(ds: seq<int>)
  {
    forall t :: 0 <= t < |ds| - 1 ==> ds[t] <= ds[t + 1]
  }

  /**
   * `e` is the arrangement built from `d` around the pivot index p, the lowest index whose
   * digit is smaller than the one below it:
   * - below p, `d` is non-decreasing (so p is the lowest such index);
   * - above p nothing changes;
   * - positions 0..p hold the same digits in both;
   * - e[p] is the smallest digit of d[..p] larger than d[p];
   * - below p, `e` is non-increasing (the smallest arrangement of those digits).
   */
  predicate PivotShape(d: seq<int>, e: seq<int>, p: int)
  {
    0 < p < |d| == |e| &&
    QuickSort.Sorted(d[..p]) &&
    e[p + 1..] == d[p + 1..] &&
    multiset(e[..p + 1]) == multiset(d[..p + 1]) &&
    d[p] < e[p] &&
    (forall t :: 0 <= t < p && d[t] > d[p] ==> e[p] <= d[t]) &&
    QuickSort.SortedDesc(e[..p])
  }

  /** Two arrangements that agree above index k hold the same digits up to k. */
  lemma LowerMultiset(a: seq<int>, b: seq<int>, k: int)
    requires 0 <= k < |a| == |b| && multiset(a) == multiset(b)
    requires a[k + 1..] == b[k + 1..]
    ensures multiset(a[..k + 1]) == multiset(b[..k + 1])
  {
    var high := multiset(a[k + 1..]);
    assert a == a[..k + 1] + a[k + 1..];
    assert b == b[..k + 1] + b[k + 1..];
    assert multiset(a[..k + 1]) + high == multiset(b[..k + 1]) + high;
    assert multiset(a[..k + 1]) == multiset(a[..k + 1]) + high - high;
  }

  /** The element at index k of a non-decreasing sequence is the largest of the first k + 1. */
  lemma PrefixMax(s: seq<int>, k: int, x: int)
    requires QuickSort.Sorted(s) && 0 <= k < |s| && x in multiset(s[..k + 1])
    ensures x <= s[k]
  {
    assert x in s[..k + 1];
    var t :| 0 <= t < k + 1 && s[..k + 1][t] == x;
    assert s[t] == x;
  }

  /** The element at index k of a non-increasing sequence is the smallest of the first k + 1. */
  lemma PrefixMin(s: seq<int>, k: int, x: int)
    requires QuickSort.SortedDesc(s) && 0 <= k < |s| && x in multiset(s[..k + 1])
    ensures x >= s[k]
  {
    assert x in s[..k + 1];
    var t :| 0 <= t < k + 1 && s[..k + 1][t] == x;
    assert s[t] == x;
  }

  /** The last element of the prefix up to k is in that prefix. */
  lemma InPrefix(s: seq<int>, k: int)
    requires 0 <= k < |s|
    ensures s[k] in multiset(s[..k + 1])
  {
    assert s[..k + 1][k] == s[k];
  }

  /** A rearrangement of decimal digits is made of decimal digits. */
  lemma RearrangedDigits(d: seq<int>, e: seq<int>)
    requires IsDigits(d) && multiset(e) == multiset(d)
    ensures IsDigits(e)
  {
    forall k | 0 <= k < |e| ensures 0 <= e[k] <= 9 {
      assert e[k] in multiset(d);
    }
  }

  /** No rearrangement of the largest arrangement has a larger value. */
  lemma LargestHasNoLarger(d: seq<int>, f: seq<int>)
    requires IsDigits(d) && IsDigits(f) && IsLargestArrangement(d)
    requires |f| == |d| && multiset(f) == multiset(d)
    ensures Value(f) <= Value(d)
  {
    if Value(d) < Value(f) {
      var k := SmallerValueWitness(d, f);
      LowerMultiset(f, d, k);
      InPrefix(f, k);
      QuickSort.AdjacentSorted(d);
      PrefixMax(d, k, f[k]);
    }
  }

  /**
   * Of the arrangements that agree with `e` from index p up, the one that is non-increasing
   * below p has the least value.
   */
  lemma SmallestBelow(e: seq<int>, f: seq<int>, p: int)
    requires IsDigits(e) && IsDigits(f) && 0 < p < |e| == |f|
    requires multiset(f) == multiset(e) && f[p..] == e[p..]
    requires QuickSort.SortedDesc(e[..p])
    ensures Value(e) <= Value(f)
  {
    if Value(f) < Value(e) {
      var k := SmallerValueWitness(f, e);
      if k < p {
        LowerMultiset(f, e, k);
        InPrefix(f, k);
        assert e[..p][..k + 1] == e[..k + 1] && e[..p][k] == e[k];
        PrefixMin(e[..p], k, f[k]);
      }
    }
  }

  /** Every digit up to the pivot that is larger than the pivot digit is at least e[p]. */
  lemma PivotMinimal(d: seq<int>, e: seq<int>, p: int, x: int)
    requires PivotShape(d, e, p)
    requires x in multiset(d[..p + 1]) && x > d[p]
    ensures e[p] <= x
  {
    assert d[..p + 1] == d[..p] + [d[p]];
    assert x in d[..p];
    var t :| 0 <= t < p && d[..p][t] == x;
    assert d[t] == x;
  }

  /** The case where f first exceeds d at the pivot index itself. */
  lemma AtPivot(d: seq<int>, e: seq<int>, p: int, f: seq<int>)
    requires IsDigits(e) && IsDigits(f) && PivotShape(d, e, p)
    requires |f| == |d| && multiset(f) == multiset(d)
    requires d[p] < f[p] && f[p + 1..] == d[p + 1..]
    requires multiset(f[..p + 1]) == multiset(d[..p + 1])
    ensures Value(e) <= Value(f)
  {
    InPrefix(f, p);
    PivotMinimal(d, e, p, f[p]);
    if f[p] > e[p] {
      HighDigitDecides(e, f, p);
    } else {
      ShapeRearranges(d, e, p);
      assert f[p..] == [f[p]] + f[p + 1..] && e[p..] == [e[p]] + e[p + 1..];
      SmallestBelow(e, f, p);
    }
  }

  /** The arrangement built at the pivot holds the same digits as `d`. */
  lemma ShapeRearranges(d: seq<int>, e: seq<int>, p: int)
    requires PivotShape(d, e, p)
    ensures multiset(e) == multiset(d)
  {
    assert e == e[..p + 1] + e[p + 1..] && d == d[..p + 1] + d[p + 1..];
  }

  /** No rearrangement of `d` lies strictly between `d` and the arrangement built at the pivot. */
  lemma NoArrangementBetween(d: seq<int>, e: seq<int>, p: int, f: seq<int>)
    requires IsDigits(d) && IsDigits(e) && IsDigits(f) && PivotShape(d, e, p)
    requires |f| == |d| && multiset(f) == multiset(d) && Value(d) < Value(f)
    ensures Value(e) <= Value(f)
  {
    var k := SmallerValueWitness(d, f);
    LowerMultiset(f, d, k);
    if k > p {
      assert e[k] == d[k] by { assert e[k] == e[p + 1..][k - p - 1]; }
      assert e[k + 1..] == d[k + 1..] by { assert e[k + 1..] == e[p + 1..][k - p..]; }
      HighDigitDecides(e, f, k);
    } else if k < p {
      InPrefix(f, k);
      assert d[..p][..k + 1] == d[..k + 1] && d[..p][k] == d[k];
      PrefixMax(d[..p], k, f[k]);
    } else {
      AtPivot(d, e, p, f);
    }
  }

  /**
   * The arrangement built around the pivot is a rearrangement of `d`, is larger, and no
   * rearrangement of `d` has a value strictly between the two.
   */
  lemma PivotShapeIsNearest(d: seq<int>, e: seq<int>, p: int)
    requires IsDigits(d) && PivotShape(d, e, p)
    ensures multiset(e) == multiset(d) && IsDigits(e)
    ensures Value(d) < Value(e)
    ensures forall f :: (IsDigits(f) && |f| == |d| && multiset(f) == multiset(d) &&
      Value(d) < Value(f)) ==> Value(e) <= Value(f)
  {
    ShapeRearranges(d, e, p);
    RearrangedDigits(d, e);
    HighDigitDecides(d, e, p);
    forall f | IsDigits(f) && |f| == |d| && multiset(f) == multiset(d) && Value(d) < Value(f)
      ensures Value(e) <= Value(f)
    {
      NoArrangementBetween(d, e, p, f);
    }
  }

  /** A number whose digits are the largest arrangement has no larger rearrangement. */
  lemma NoLargerNumber(x: nat)
    requires IsLargestArrangement(Digits(x))
    ensures forall y: nat :: x < y ==> multiset(Digits(y)) != multiset(Digits(x))
  {
    forall y: nat | x < y && multiset(Digits(y)) == multiset(Digits(x)) ensures false {
      assert |Digits(y)| == |multiset(Digits(y))|;
      LargestHasNoLarger(Digits(x), Digits(y));
      ValueOfDigits(x);
      ValueOfDigits(y);
    }
  }

  /**
   * The pivot digit is smaller than the one below it, and the arrangement built around it keeps
   * a non-zero leading digit.
   */
  lemma PivotIsDescent(d: seq<int>, e: seq<int>, p: int)
    requires IsDigits(d) && PivotShape(d, e, p) && d[|d| - 1] != 0
    ensures d[p - 1] > d[p] && e[|e| - 1] != 0
  {
    InPrefix(e, p);
    assert d[..p + 1] == d[..p] + [d[p]];
    assert e[p] in multiset(d[..p]);
    assert d[..p][..p - 1 + 1] == d[..p];
    PrefixMax(d[..p], p - 1, e[p]);
    assert d[..p][p - 1] == d[p - 1];
    if p < |e| - 1 {
      assert e[|e| - 1] == e[p + 1..][|e| - 2 - p];
    }
  }

  /**
   * The arrangement built around the pivot, read as a number, is larger than x, has the same
   * digits, and no number strictly between the two has the same digits.
   */
  lemma NearestNumber(x: nat, e: seq<int>, p: int)
    requires PivotShape(Digits(x), e, p)
    ensures Value(e) > x && !IsLargestArrangement(Digits(x))
    ensures Value(e) >= 0 && multiset(Digits(Value(e))) == multiset(Digits(x))
    ensures forall y: nat :: x < y < Value(e) ==> multiset(Digits(y)) != multiset(Digits(x))
  {
    var d := Digits(x);
    PivotShapeIsNearest(d, e, p);
    ValueOfDigits(x);
    PivotIsDescent(d, e, p);
    DigitsOfValue(e);
    forall y: nat | x < y < Value(e) ensures multiset(Digits(y)) != multiset(d) {
      if multiset(Digits(y)) == multiset(d) {
        assert |Digits(y)| == |multiset(Digits(y))|;
        ValueOfDigits(y);
      }
    }
  }

  /**
   * The contract of getNearestBigger determines its result: when x has a pivot, any r meeting
   * that contract is the value of the arrangement built around the pivot.
   */
  lemma NearestUnique(x: nat, r: int, e: seq<int>, p: int)
    requires PivotShape(Digits(x), e, p)
    requires r == x <==> IsLargestArrangement(Digits(x))
    requires r != x ==> r > x
    requires r >= 0 && multiset(Digits(r)) == multiset(Digits(x))
    requires forall y: nat :: x < y && (r == x || y < r) ==> multiset(Digits(y)) != multiset(Digits(x))
    ensures r == Value(e)
  {
    NearestNumber(x, e, p);
  }

  /**
   * getNearestBigger: the nearest larger number made of the same digits, or the number itself
   * when its digits are already in their largest arrangement. A number that is not positive has
   * no digits and comes back unchanged.
   */
  method GetNearestBigger(number: int) returns (result: int)
    ensures number <= 0 ==> result == number
    ensures number > 0 ==> result > 0 && multiset(Digits(result)) == multiset(Digits(number))
    ensures number > 0 ==> (result == number <==> IsLargestArrangement(Digits(number)))
    ensures result != number ==> result > number
    ensures number > 0 ==> forall y: nat :: number < y && (result == number || y < result) ==>
      multiset(Digits(y)) != multiset(Digits(number))
  {
    var digits := DigitsOf(number);
    var idxOfLess, idxOfBigger := FindDescent(digits);
    if idxOfBigger == -1 {
      if number > 0 {
        NoLargerNumber(number);
      }
      return number;
    }
    ghost var p := idxOfLess;
    if idxOfLess == 1 {
      ghost var d := digits;
      var temp := digits[idxOfLess];
      digits := digits[idxOfLess := digits[idxOfBigger]];
      digits := digits[idxOfBigger := temp];
      SwapShape(d, digits);
    } else {
      digits := SwapAndSortBelow(digits, idxOfLess);
    }
    result := Assemble(digits);
    NearestNumber(number, digits, p);
  }

  /** The digits of the number, least significant first, taken off by repeated division by 10. */
  method DigitsOf(number: int) returns (digits: seq<int>)
    ensures number > 0 ==> digits == Digits(number)
    ensures number <= 0 ==> digits == []
  {
    digits := [];
    var copyNumber := number;
    while copyNumber > 0
      invariant number > 0 ==> 0 <= copyNumber && digits + Digits(copyNumber) == Digits(number)
      invariant number <= 0 ==> digits == [] && copyNumber == number
    {
      assert Digits(copyNumber) == [copyNumber % 10] + Digits(copyNumber / 10);
      digits := digits + [copyNumber % 10];
      copyNumber := copyNumber / 10;
    }
  }

  /**
   * The lowest index i whose digit exceeds the next more significant one, returned as the pair
   * (i + 1, i); (-1, -1) when there is none.
   */
  method FindDescent(digits: seq<int>) returns (idxOfLess: int, idxOfBigger: int)
    ensures idxOfBigger == -1 ==> idxOfLess == -1 && IsLargestArrangement(digits)
    ensures idxOfBigger != -1 ==> 0 <= idxOfBigger && idxOfLess == idxOfBigger + 1 < |digits|
    ensures idxOfBigger != -1 ==> digits[idxOfBigger] > digits[idxOfLess]
    ensures idxOfBigger != -1 ==> QuickSort.Sorted(digits[..idxOfLess])
  {
    idxOfLess, idxOfBigger := -1, -1;
    var i := 0;
    while i < |digits|
      invariant 0 <= i <= |digits|
      invariant forall t :: 0 <= t < i && t < |digits| - 1 ==> digits[t] <= digits[t + 1]
    {
      if i != |digits| - 1 && digits[i] > digits[i + 1] {
        idxOfLess, idxOfBigger := i + 1, i;
        QuickSort.AdjacentSorted(digits[..idxOfLess]);
        return;
      }
      i := i + 1;
    }
  }

  /** Reads the digits back into a number, most significant first (Horner's rule). */
  method Assemble(digits: seq<int>) returns (result: int)
    requires digits != []
    ensures result == Value(digits)
  {
    result := 0;
    var k := |digits| - 1;
    while k >= 0
      invariant -1 <= k < |digits|
      invariant k >= 0 ==> result == 10 * Value(digits[k + 1..])
      invariant k == -1 ==> result == Value(digits)
    {
      assert digits[k..][1..] == digits[k + 1..];
      result := result + digits[k];
      if k != 0 {
        result := result * 10;
      } else {
        assert digits[k..] == digits;
      }
      k := k - 1;
    }
  }

  /** The exchange of the two lowest digits when they are the descent. */
  lemma SwapShape(d: seq<int>, e: seq<int>)
    requires |d| >= 2 && d[0] > d[1] && e == d[1 := d[0]][0 := d[1]]
    ensures PivotShape(d, e, 1)
  {
    ShapeFromParts([d[0]], d[1], [d[1]], d[0], d[2..]);
    assert d == [d[0]] + [d[1]] + d[2..];
    assert e == [d[1]] + [d[0]] + d[2..];
  }

  /**
   * The general case: the digits below the pivot p are collected, sorted ascending, the first
   * of them larger than the pivot digit trades places with it, and the collected digits go back
   * below the pivot sorted descending.
   */
  method SwapAndSortBelow(digits: seq<int>, idxOfLess: int) returns (e: seq<int>)
    requires 2 <= idxOfLess < |digits|
    requires QuickSort.Sorted(digits[..idxOfLess]) && digits[idxOfLess - 1] > digits[idxOfLess]
    ensures PivotShape(digits, e, idxOfLess)
  {
    var idxOfBigger := idxOfLess - 1;
    e := digits;
    var digitsToSwap := new int[idxOfBigger + 1];
    for i := 0 to idxOfBigger + 1
      invariant digitsToSwap[..i] == digits[..i]
    {
      digitsToSwap[i] := digits[i];
    }
    assert digitsToSwap[..] == digits[..idxOfLess] by {
      assert digitsToSwap[..] == digitsToSwap[..idxOfBigger + 1];
    }

    digitsToSwap := QuickSort.SortByAsc(digitsToSwap);
    ghost var sorted := digitsToSwap[..];
    TopExceeds(digits, idxOfLess, sorted);

    var i := 0;
    while i <= digitsToSwap.Length
      invariant 0 <= i < digitsToSwap.Length
      invariant forall t :: 0 <= t < i ==> digitsToSwap[t] <= e[idxOfLess]
      invariant digitsToSwap[..] == sorted && e == digits
    {
      if digitsToSwap[i] > e[idxOfLess] {
        var temp := digitsToSwap[i];
        digitsToSwap[i] := e[idxOfLess];
        e := e[idxOfLess := temp];
        break;
      }
      i := i + 1;
    }
    ghost var swapped := digitsToSwap[..];

    digitsToSwap := QuickSort.SortByDesc(digitsToSwap);

    for j := 0 to digitsToSwap.Length
      invariant |e| == |digits|
      invariant forall t :: 0 <= t < j ==> e[t] == digitsToSwap[t]
      invariant e[idxOfLess..] == [sorted[i]] + digits[idxOfLess + 1..]
    {
      e := e[j := digitsToSwap[j]];
    }
    assert e[..idxOfLess] == digitsToSwap[..];
    SortBelowShape(digits, idxOfLess, sorted, i, swapped, digitsToSwap[..], e);
  }

  /** The largest of the sorted digits below the pivot exceeds the pivot digit. */
  lemma TopExceeds(d: seq<int>, p: int, sorted: seq<int>)
    requires 2 <= p < |d| && d[p - 1] > d[p]
    requires QuickSort.Sorted(sorted) && multiset(sorted) == multiset(d[..p])
    ensures |sorted| == p && sorted[p - 1] > d[p]
  {
    assert |sorted| == |multiset(sorted)|;
    assert d[p - 1] in multiset(sorted) by { assert d[..p][p - 1] == d[p - 1]; }
    var t :| 0 <= t < |sorted| && sorted[t] == d[p - 1];
  }

  /** The collected, swapped and re-sorted digits put back below the pivot give the shape. */
  lemma SortBelowShape(d: seq<int>, p: int, sorted: seq<int>, i: int, swapped: seq<int>,
                       desc: seq<int>, e: seq<int>)
    requires 2 <= p < |d| && QuickSort.Sorted(d[..p])
    requires QuickSort.Sorted(sorted) && multiset(sorted) == multiset(d[..p])
    requires 0 <= i < |sorted| && sorted[i] > d[p]
    requires forall t :: 0 <= t < i ==> sorted[t] <= d[p]
    requires swapped == sorted[i := d[p]]
    requires QuickSort.SortedDesc(desc) && multiset(desc) == multiset(swapped)
    requires |e| == |d| && e[..p] == desc && e[p..] == [sorted[i]] + d[p + 1..]
    ensures PivotShape(d, e, p)
  {
    assert |sorted| == |multiset(sorted)|;
    assert e[p + 1..] == d[p + 1..] by { assert e[p + 1..] == e[p..][1..]; }
    assert e[p] == sorted[i] by { assert e[p] == e[p..][0]; }
    assert e[..p + 1] == desc + [sorted[i]];
    assert d[..p + 1] == d[..p] + [d[p]];
    assert multiset(swapped) == multiset(sorted) - multiset{sorted[i]} + multiset{d[p]};
    forall t | 0 <= t < p && d[t] > d[p] ensures e[p] <= d[t] {
      assert d[t] in multiset(sorted) by { assert d[..p][t] == d[t]; }
      var u :| 0 <= u < |sorted| && sorted[u] == d[t];
    }
  }

  /** The digits of 12345 from the units up, and the arrangement 12354 built at the tens. */
  lemma Example12345()
    ensures Digits(12345) == [5, 4, 3, 2, 1]
    ensures PivotShape([5, 4, 3, 2, 1], [4, 5, 3, 2, 1], 1)
  {
    Value5(5, 4, 3, 2, 1);
    DigitsOfValue([5, 4, 3, 2, 1]);
    Shape12345();
  }

  lemma Shape12345()
    ensures PivotShape([5, 4, 3, 2, 1], [4, 5, 3, 2, 1], 1)
  {
    ShapeFromParts([5], 4, [4], 5, [3, 2, 1]);
    assert [5] + [4] + [3, 2, 1] == [5, 4, 3, 2, 1];
    assert [4] + [5] + [3, 2, 1] == [4, 5, 3, 2, 1];
  }

  /** The digits of 90822 from the units up, and the arrangement 92028 built at the thousands. */
  lemma Example90822()
    ensures Digits(90822) == [2, 2, 8, 0, 9]
    ensures PivotShape([2, 2, 8, 0, 9], [8, 2, 0, 2, 9], 3)
  {
    Value5(2, 2, 8, 0, 9);
    DigitsOfValue([2, 2, 8, 0, 9]);
    Shape90822();
  }

  lemma Shape90822()
    ensures PivotShape([2, 2, 8, 0, 9], [8, 2, 0, 2, 9], 3)
  {
    LowRuns([2, 2, 8], [8, 2, 0]);
    ShapeFromParts([2, 2, 8], 0, [8, 2, 0], 2, [9]);
    assert [2, 2, 8] + [0] + [9] == [2, 2, 8, 0, 9];
    assert [8, 2, 0] + [2] + [9] == [8, 2, 0, 2, 9];
  }

  /** Checks the two runs below the pivot of an example. */
  lemma LowRuns(dLow: seq<int>, eLow: seq<int>)
    requires |dLow| == |eLow| == 3
    requires dLow[0] <= dLow[1] <= dLow[2] && eLow[0] >= eLow[1] >= eLow[2]
    ensures QuickSort.Sorted(dLow) && QuickSort.SortedDesc(eLow)
  {
  }

  /** Assembles the shape from the runs below the pivot, the pivot digits and the common top. */
  lemma ShapeFromParts(dLow: seq<int>, dp: int, eLow: seq<int>, ep: int, high: seq<int>)
    requires 0 < |dLow| == |eLow|
    requires QuickSort.Sorted(dLow) && QuickSort.SortedDesc(eLow) && dp < ep
    requires multiset(eLow + [ep]) == multiset(dLow + [dp])
    requires forall t :: 0 <= t < |dLow| && dLow[t] > dp ==> ep <= dLow[t]
    ensures PivotShape(dLow + [dp] + high, eLow + [ep] + high, |dLow|)
  {
    var d, e, p := dLow + [dp] + high, eLow + [ep] + high, |dLow|;
    assert d[..p] == dLow && e[..p] == eLow;
    assert d[..p + 1] == dLow + [dp] && e[..p + 1] == eLow + [ep];
    assert d[p + 1..] == high == e[p + 1..];
  }

  /** The digits of 321321 from the units up, and the arrangement 322113 built at the thousands. */
  lemma Example321321()
    ensures Digits(321321) == [1, 2, 3, 1, 2, 3]
    ensures PivotShape([1, 2, 3, 1, 2, 3], [3, 1, 1, 2, 2, 3], 3)
  {
    Value6(1, 2, 3, 1, 2, 3);
    DigitsOfValue([1, 2, 3, 1, 2, 3]);
    Shape321321();
  }

  lemma Shape321321()
    ensures PivotShape([1, 2, 3, 1, 2, 3], [3, 1, 1, 2, 2, 3], 3)
  {
    LowRuns([1, 2, 3], [3, 1, 1]);
    ShapeFromParts([1, 2, 3], 1, [3, 1, 1], 2, [2, 3]);
    assert [1, 2, 3] + [1] + [2, 3] == [1, 2, 3, 1, 2, 3];
    assert [3, 1, 1] + [2] + [2, 3] == [3, 1, 1, 2, 2, 3];
  }

  /** The first example on getNearestBigger: 12345 gives 12354. */
  method NearestBiggerExample1() returns (r: int)
    ensures r == 12354
  {
    r := GetNearestBigger(12345);
    Example12345();
    NearestUnique(12345, r, [4, 5, 3, 2, 1], 1);
    Value5(4, 5, 3, 2, 1);
  }

  /** 90822 gives 92028: the pivot is a zero in the middle. */
  method NearestBiggerExample2() returns (r: int)
    ensures r == 92028
  {
    r := GetNearestBigger(90822);
    Example90822();
    NearestUnique(90822, r, [8, 2, 0, 2, 9], 3);
    Value5(8, 2, 0, 2, 9);
  }

  /** 321321 gives 322113: a repeated digit below the pivot. */
  method NearestBiggerExample3() returns (r: int)
    ensures r == 322113
  {
    r := GetNearestBigger(321321);
    Example321321();
    NearestUnique(321321, r, [3, 1, 1, 2, 2, 3], 3);
    Value6(3, 1, 1, 2, 2, 3);
  }
}
