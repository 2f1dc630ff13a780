/**
 * Single-pass scans: palindrome test, first index of a letter, digit membership and the
 * balance index of an array.
 */
module Scans {
  import opened DecimalDigits

  /** The sequence read back to front. */
  function Reverse<T>(s: seq<T>): (r: seq<T>)
    ensures |r| == |s|
    ensures forall i :: 0 <= i < |s| ==> r[i] == s[|s| - 1 - i]
  {
    if s == [] then [] else Reverse(s[1..]) + [s[0]]
  }

  /** isPalindrome: compares each character with its mirror and stops at the first mismatch. */
  method IsPalindrome(str: string) returns (r: bool)
    ensures r <==> str == Reverse(str)
  {
    for i := 0 to |str|
      invariant forall k :: 0 <= k < i ==> str[k] == str[|str| - 1 - k]
    {
      if str[i] != str[|str| - 1 - i] {
        assert Reverse(str)[i] != str[i];
        return false;
      }
    }
    return true;
  }

  /** The examples on isPalindrome. */
  method PalindromeExamples() returns (a: bool, b: bool, c: bool)
    ensures a && b && !c
  {
    a := IsPalindrome("abcba");
    b := IsPalindrome("0123210");
    c := IsPalindrome("qweqwe");
    assert Reverse("qweqwe")[0] == 'e';
  }

  /** getIndexOf: the index of the first occurrence of the letter, or -1 when it is absent. */
  method GetIndexOf(str: string, letter: char) returns (r: int)
    ensures r == -1 <==> letter !in str
    ensures r != -1 ==> 0 <= r < |str| && str[r] == letter && letter !in str[..r]
  {
    for i := 0 to |str|
      invariant letter !in str[..i]
    {
      if str[i] == letter {
        return i;
      }
      assert str[..i + 1] == str[..i] + [str[i]];
    }
    assert str[..|str|] == str;
    return -1;
  }

  /** The examples on getIndexOf with single Latin letters. */
  method IndexOfExamples() returns (q: int, upperQ: int, p: int)
    ensures q == 0 && upperQ == -1 && p == -1
  {
    q := GetIndexOf("qwerty", 'q');
    upperQ := GetIndexOf("qwerty", 'Q');
    p := GetIndexOf("qwerty", 'p');
  }

  /**
   * isContainNumber: peels decimal digits off the number from the units up. A number that is
   * not positive has no digits, so the answer is then false.
   */
  method IsContainNumber(num: int, digit: int) returns (r: bool)
    ensures r <==> num > 0 && digit in Digits(num)
  {
    var n := num;
    while n > 0
      invariant num > 0 ==> 0 <= n && (digit in Digits(num) <==> digit in Digits(n))
      invariant num <= 0 ==> n == num
    {
      assert Digits(n) == [n % 10] + Digits(n / 10);
      var check := n % 10;
      if check == digit {
        return true;
      }
      n := n / 10;
    }
    return false;
  }

  /** The examples on isContainNumber for 123450: it holds 5, 1 and 0. */
  method ContainExamples() returns (a: bool, b: bool, c: bool)
    ensures a && b && c
  {
    Value6(0, 5, 4, 3, 2, 1);
    DigitsOfValue([0, 5, 4, 3, 2, 1]);
    a := IsContainNumber(123450, 5);
    b := IsContainNumber(123450, 1);
    c := IsContainNumber(123450, 0);
  }

  /** The examples on isContainNumber for 12345: it holds neither 0 nor 6. */
  method NotContainExamples() returns (d: bool, e: bool)
    ensures !d && !e
  {
    Value5(5, 4, 3, 2, 1);
    DigitsOfValue([5, 4, 3, 2, 1]);
    d := IsContainNumber(12345, 0);
    e := IsContainNumber(12345, 6);
  }

  function Sum(s: seq<int>): int
  {
    if s == [] then 0 else s[0] + Sum(s[1..])
  }

  /** The sum of a concatenation is the sum of the parts. */
  lemma {:induction false} SumAppend(s: seq<int>, t: seq<int>)
    ensures Sum(s + t) == Sum(s) + Sum(t)
  {
    if s != [] {
      assert (s + t)[1..] == s[1..] + t;
      SumAppend(s[1..], t);
    } else {
      assert s + t == t;
    }
  }

  /** Extending a prefix by one element adds that element to its sum. */
  lemma PrefixSumStep(s: seq<int>, i: int)
    requires 0 <= i < |s|
    ensures Sum(s[..i + 1]) == Sum(s[..i]) + s[i]
  {
    assert s[..i + 1] == s[..i] + [s[i]];
    SumAppend(s[..i], [s[i]]);
  }

  /** Removing the first element of a suffix takes that element off its sum. */
  lemma SuffixSumStep(s: seq<int>, i: int)
    requires 0 <= i < |s|
    ensures Sum(s[i..]) == s[i] + Sum(s[i + 1..])
  {
    assert s[i..][1..] == s[i + 1..];
  }

  /** The elements left of index i add up to the elements right of it. */
  predicate Balanced(arr: seq<int>, i: int)
    requires 0 <= i < |arr|
  {
    Sum(arr[..i]) == Sum(arr[i + 1..])
  }

  /**
   * getBalanceIndex: the least index where the elements to its left and the elements to its
   * right have the same sum, or -1 when there is none. The total is summed first; then the
   * element at i is taken off the right sum before the comparison and added to the left sum
   * after it.
   */
  method GetBalanceIndex(arr: seq<int>) returns (r: int)
    ensures -1 <= r < |arr|
    ensures r == -1 ==> forall i :: 0 <= i < |arr| ==> !Balanced(arr, i)
    ensures r != -1 ==> Balanced(arr, r) && forall i :: 0 <= i < r ==> !Balanced(arr, i)
  {
    var rightSum := 0;
    var leftSum := 0;
    for i := 0 to |arr|
      invariant rightSum == Sum(arr[..i])
    {
      PrefixSumStep(arr, i);
      rightSum := rightSum + arr[i];
    }
    assert arr[..|arr|] == arr[0..];

    var i := 0;
    while i <= |arr| - 1
      invariant 0 <= i <= |arr|
      invariant leftSum == Sum(arr[..i]) && rightSum == Sum(arr[i..])
      invariant forall k :: 0 <= k < i ==> !Balanced(arr, k)
    {
      var curr := arr[i];
      SuffixSumStep(arr, i);
      rightSum := rightSum - curr;
      if leftSum == rightSum {
        return i;
      }
      PrefixSumStep(arr, i);
      leftSum := leftSum + curr;
      i := i + 1;
    }
    return -1;
  }

  /** The sums on the two sides of each index of [1, 2, 5, 3, 0] and [1, 2, 3, 4, 5]. */
  lemma BalanceFacts()
    ensures !Balanced([1, 2, 5, 3, 0], 0) && !Balanced([1, 2, 5, 3, 0], 1)
    ensures Balanced([1, 2, 5, 3, 0], 2)
    ensures forall i :: 0 <= i < 5 ==> !Balanced([1, 2, 3, 4, 5], i)
  {
    var a, b := [1, 2, 5, 3, 0], [1, 2, 3, 4, 5];
    assert a[..0] == [] && a[1..] == [2, 5, 3, 0] && a[..1] == [1] && a[2..] == [5, 3, 0];
    assert a[..2] == [1, 2] && a[3..] == [3, 0];
    assert b[..0] == [] && b[1..] == [2, 3, 4, 5] && b[..1] == [1] && b[2..] == [3, 4, 5];
    assert b[..2] == [1, 2] && b[3..] == [4, 5] && b[..3] == [1, 2, 3] && b[4..] == [5];
    assert b[..4] == [1, 2, 3, 4] && b[5..] == [];
  }

  /** The sums on the two sides of the first three indices of [2, 3, 9, 5]. */
  lemma MoreBalanceFacts()
    ensures !Balanced([2, 3, 9, 5], 0) && !Balanced([2, 3, 9, 5], 1) && Balanced([2, 3, 9, 5], 2)
  {
    var a := [2, 3, 9, 5];
    assert a[..0] == [] && a[1..] == [3, 9, 5] && a[..1] == [2] && a[2..] == [9, 5];
    assert a[..2] == [2, 3] && a[3..] == [5];
  }

  /** The examples on getBalanceIndex: [1, 2, 5, 3, 0] balances at 2, [1, 2, 3, 4, 5] nowhere. */
  method BalanceExamples() returns (a: int, b: int)
    ensures a == 2 && b == -1
  {
    BalanceFacts();
    a := GetBalanceIndex([1, 2, 5, 3, 0]);
    b := GetBalanceIndex([1, 2, 3, 4, 5]);
  }

  /** The example on getBalanceIndex where the balance element is 9: [2, 3, 9, 5] balances at 2. */
  method MoreBalanceExamples() returns (c: int)
    ensures c == 2
  {
    MoreBalanceFacts();
    c := GetBalanceIndex([2, 3, 9, 5]);
  }
}
