/**
 * The character shuffle: one forward step puts the characters at even indices first and those
 * at odd indices after them, each group in its original order; the backward step interleaves
 * the two halves of a string again. `ShuffleChar` repeats the forward step, using the cycle
 * length floor(n/2) + 1 to shorten long runs.
 */
module CharShuffle {
  import opened Math

  /** The characters at even indices, in order. */
  function Evens(s: string): (r: string)
    ensures |r| == (|s| + 1) / 2
  {
    seq((|s| + 1) / 2, k requires 0 <= k < (|s| + 1) / 2 => s[2 * k])
  }

  /** The characters at odd indices, in order. */
  function Odds(s: string): (r: string)
    ensures |r| == |s| / 2
  {
    seq(|s| / 2, k requires 0 <= k < |s| / 2 => s[2 * k + 1])
  }

  /** One forward shuffle step. */
  function Shuffled(s: string): (r: string)
    ensures |r| == |s|
  {
    Evens(s) + Odds(s)
  }

  /** One backward step on an even-length string: first half and second half interleaved. */
  function Unshuffled(s: string): (r: string)
    requires |s| % 2 == 0
    ensures |r| == |s|
  {
    seq(|s|, i requires 0 <= i < |s| => if i % 2 == 0 then s[i / 2] else s[|s| / 2 + i / 2])
  }

  /** The even-index and the odd-index characters together are the characters of s. */
  lemma {:induction false} EvensOddsPermutation(s: string)
    ensures multiset(Evens(s)) + multiset(Odds(s)) == multiset(s)
    decreases |s|
  {
    if |s| >= 2 {
      var t := s[2..];
      assert Evens(s) == [s[0]] + Evens(t);
      assert Odds(s) == [s[1]] + Odds(t);
      EvensOddsPermutation(t);
      assert s == [s[0], s[1]] + t;
    } else if |s| == 1 {
      assert Evens(s) == s && Odds(s) == [];
    } else {
      assert Evens(s) == [] && Odds(s) == [];
    }
  }

  /** The forward step only rearranges the characters. */
  lemma ShuffledPermutation(s: string)
    ensures multiset(Shuffled(s)) == multiset(s)
  {
    EvensOddsPermutation(s);
  }

  /** The backward step only rearranges the characters. */
  lemma UnshuffledPermutation(s: string)
    requires |s| % 2 == 0
    ensures multiset(Unshuffled(s)) == multiset(s)
  {
    ShuffleUnshuffle(s);
    ShuffledPermutation(Unshuffled(s));
  }

  /** Any number of forward steps only rearranges the characters. */
  lemma {:induction false} ShuffleTimesPermutation(s: string, k: nat)
    ensures multiset(ShuffleTimes(s, k)) == multiset(s)
  {
    if k > 0 {
      var t := ShuffleTimes(s, k - 1);
      assert multiset(t) == multiset(s) by { ShuffleTimesPermutation(s, k - 1); }
      assert multiset(Shuffled(t)) == multiset(t) by { ShuffledPermutation(t); }
    }
  }

  /** Any number of backward steps only rearranges the characters. */
  lemma {:induction false} UnshuffleTimesPermutation(s: string, k: nat)
    requires |s| % 2 == 0
    ensures multiset(UnshuffleTimes(s, k)) == multiset(s)
  {
    if k > 0 {
      var t := UnshuffleTimes(s, k - 1);
      assert multiset(t) == multiset(s) by { UnshuffleTimesPermutation(s, k - 1); }
      assert multiset(Unshuffled(t)) == multiset(t) by { UnshuffledPermutation(t); }
    }
  }

  /** The forward step applied k times. */
  function ShuffleTimes(s: string, k: nat): (r: string)
    ensures |r| == |s|
  {
    if k == 0 then s else Shuffled(ShuffleTimes(s, k - 1))
  }

  /** The backward step applied k times. */
  function UnshuffleTimes(s: string, k: nat): (r: string)
    requires |s| % 2 == 0
    ensures |r| == |s|
  {
    if k == 0 then s else Unshuffled(UnshuffleTimes(s, k - 1))
  }

  /** The backward step undoes the forward step on strings of even length. */
  lemma UnshuffleShuffle(s: string)
    requires |s| % 2 == 0
    ensures Unshuffled(Shuffled(s)) == s
  {
    var t := Shuffled(s);
    var h := |s| / 2;
    forall i | 0 <= i < |s| ensures Unshuffled(t)[i] == s[i] {
      if i % 2 == 0 {
        assert t[i / 2] == Evens(s)[i / 2];
      } else {
        assert t[h + i / 2] == Odds(s)[i / 2];
      }
    }
  }

  /** ...and the forward step undoes the backward step. */
  lemma ShuffleUnshuffle(s: string)
    requires |s| % 2 == 0
    ensures Shuffled(Unshuffled(s)) == s
  {
    var u := Unshuffled(s);
    var h := |s| / 2;
    forall j | 0 <= j < |s| ensures Shuffled(u)[j] == s[j] {
      if j < h {
        assert Shuffled(u)[j] == Evens(u)[j] == u[2 * j];
      } else {
        assert Shuffled(u)[j] == Odds(u)[j - h] == u[2 * (j - h) + 1];
      }
    }
  }

  /** Shuffling a + b times is shuffling a times and then b times. */
  lemma {:induction false} ShuffleTimesAdd(s: string, a: nat, b: nat)
    ensures ShuffleTimes(s, a + b) == ShuffleTimes(ShuffleTimes(s, a), b)
  {
    if b > 0 {
      ShuffleTimesAdd(s, a, b - 1);
    }
  }

  /** If p steps bring a string back, then only the number of steps modulo p matters. */
  lemma {:induction false} ShuffleTimesPeriod(s: string, p: nat, k: nat)
    requires p > 0 && ShuffleTimes(s, p) == s
    ensures ShuffleTimes(s, k) == ShuffleTimes(s, k % p)
    decreases k
  {
    if k >= p {
      ShuffleTimesAdd(s, p, k - p);
      ShuffleTimesPeriod(s, p, k - p);
      ModMinus(k, p);
    } else {
      ModUnique(k, p, 0, k);
    }
  }

  lemma ModMinus(k: nat, p: nat)
    requires 0 < p <= k
    ensures (k - p) % p == k % p
  {
    var q, r := (k - p) / p, (k - p) % p;
    assert k - p == q * p + r;
    assert k == (q + 1) * p + r;
    ModUnique(k, p, q + 1, r);
  }

  /** Quotient and remainder are unique. */
  lemma ModUnique(x: int, m: int, q: int, r: int)
    requires m > 0 && 0 <= r < m && x == q * m + r
    ensures x % m == r
  {
    var q', r' := x / m, x % m;
    assert x == q' * m + r';
    assert (q' - q) * m == r - r';
    if q' > q {
      MulAtLeast(q' - q, m);
    } else if q' < q {
      MulAtLeast(q - q', m);
    }
  }

  lemma MulAtLeast(d: int, m: int)
    requires d >= 1 && m > 0
    ensures d * m >= m
  {
    assert d * m == (d - 1) * m + m;
    assert (d - 1) * m >= 0;
  }

  /** k backward steps undo k forward steps. */
  lemma {:induction false} UnshuffleTimesShuffleTimes(s: string, k: nat)
    requires |s| % 2 == 0
    ensures UnshuffleTimes(ShuffleTimes(s, k), k) == s
  {
    if k > 0 {
      var t := ShuffleTimes(s, k - 1);
      UnshuffleShuffle(t);
      UnshuffleTimesShift(Shuffled(t), k - 1);
      UnshuffleTimesShuffleTimes(s, k - 1);
    }
  }

  /** Taking the first backward step last. */
  lemma {:induction false} UnshuffleTimesShift(s: string, k: nat)
    requires |s| % 2 == 0
    ensures UnshuffleTimes(s, k + 1) == UnshuffleTimes(Unshuffled(s), k)
  {
    if k > 0 {
      UnshuffleTimesShift(s, k - 1);
    }
  }

  /**
   * When l forward steps bring an even-length string back, l - r backward steps reach the
   * same string as r forward steps; with r = k mod l that is also where k forward steps go
   * (ShuffleTimesPeriod).
   */
  lemma BackwardStepsWhenCycle(s: string, l: nat, r: nat)
    requires |s| % 2 == 0 && ShuffleTimes(s, l) == s && r <= l
    ensures UnshuffleTimes(s, l - r) == ShuffleTimes(s, r)
  {
    var t := ShuffleTimes(s, r);
    ShuffleTimesSplit(s, l, r);
    UnshuffleTimesShuffleTimes(t, l - r);
  }

  /** l forward steps are r steps followed by l - r more. */
  lemma ShuffleTimesSplit(s: string, l: nat, r: nat)
    requires r <= l
    ensures ShuffleTimes(s, l) == ShuffleTimes(ShuffleTimes(s, r), l - r)
  {
    ShuffleTimesAdd(s, r, l - r);
  }

  /** One forward step, built as the source does: two passes that append characters. */
  method ShuffleOne(s: string) returns (r: string)
    ensures r == Shuffled(s)
  {
    r := "";
    var i := 0;
    while i < |s|
      invariant i % 2 == 0 && 0 <= i <= |s| + 1 && |r| == i / 2
      invariant forall k :: 0 <= k < |r| ==> r[k] == s[2 * k]
    {
      r := r + [s[i]];
      i := i + 2;
    }
    assert r == Evens(s);
    i := 1;
    while i < |s|
      invariant i % 2 == 1 && 1 <= i <= |s| + 1
      invariant |r| == (|s| + 1) / 2 + i / 2
      invariant r[..(|s| + 1) / 2] == Evens(s)
      invariant forall k :: 0 <= k < i / 2 ==> r[(|s| + 1) / 2 + k] == s[2 * k + 1]
    {
      r := r + [s[i]];
      i := i + 2;
    }
    assert r[(|s| + 1) / 2..] == Odds(s);
    assert r == r[..(|s| + 1) / 2] + r[(|s| + 1) / 2..];
  }

  /**
   * One backward step, built as the source does: split at floor(n/2) and append the
   * characters of the two halves pairwise. Only even lengths are modelled.
   */
  method ShuffleOneBack(s: string) returns (r: string)
    requires |s| % 2 == 0
    ensures r == Unshuffled(s)
  {
    r := "";
    var firstHalf := s[..|s| / 2];
    var secondHalf := s[|s| / 2..];
    var i := 0;
    while i < |secondHalf|
      invariant 0 <= i <= |secondHalf| && |r| == 2 * i
      invariant forall k :: 0 <= k < |r| ==> r[k] == Unshuffled(s)[k]
    {
      r := r + [firstHalf[i]] + [secondHalf[i]];
      i := i + 1;
    }
  }

  /** The cycle length the source assumes for a string of length n. */
  function CycleLength(n: nat): (l: nat)
    ensures l >= 1 && (n >= 2 ==> l >= 2)
  {
    n / 2 + 1
  }

  /** The run is long, its remainder is non-zero and backward steps look cheaper. */
  predicate TakesBackwardPath(n: nat, iterations: int)
  {
    var l := CycleLength(n);
    var forward := iterations % l;
    iterations > l && forward != 0 && forward > l - forward
  }

  /**
   * The result of the source's shuffleChar, as written: a count that is not positive leaves
   * the string as it is; otherwise, with r = iterations mod L, it returns the string itself
   * when r is 0, r forward steps on the forward path, and r (not L - r) backward steps on the
   * backward path.
   */
  function ShuffleCharResult(s: string, iterations: int): (r: string)
    requires |s| % 2 == 0 || !TakesBackwardPath(|s|, iterations)
    ensures |r| == |s|
  {
    var forward := iterations % CycleLength(|s|);
    if iterations <= 0 || forward == 0 then s
    else if TakesBackwardPath(|s|, iterations) then UnshuffleTimes(s, forward)
    else ShuffleTimes(s, forward)
  }

  /**
   * What the source promises and keeps: no change for a count that is not positive or is a
   * multiple of the assumed cycle length, and exactly `iterations` forward steps below it.
   */
  lemma ShuffleCharShortRuns(s: string, iterations: int)
    requires |s| % 2 == 0 || !TakesBackwardPath(|s|, iterations)
    ensures iterations <= 0 ==> ShuffleCharResult(s, iterations) == s
    ensures iterations % CycleLength(|s|) == 0 ==> ShuffleCharResult(s, iterations) == s
    ensures 0 < iterations < CycleLength(|s|) ==> ShuffleCharResult(s, iterations) == ShuffleTimes(s, iterations)
  {
    if 0 < iterations < CycleLength(|s|) {
      ModUnique(iterations, CycleLength(|s|), 0, iterations);
    }
  }

  /** Whichever path it takes, shuffleChar only rearranges the characters of the string. */
  lemma ShuffleCharPermutation(s: string, iterations: int)
    requires |s| % 2 == 0 || !TakesBackwardPath(|s|, iterations)
    ensures multiset(ShuffleCharResult(s, iterations)) == multiset(s)
  {
    var forward := iterations % CycleLength(|s|);
    if iterations > 0 && forward != 0 {
      if TakesBackwardPath(|s|, iterations) {
        UnshuffleTimesPermutation(s, forward);
      } else {
        ShuffleTimesPermutation(s, forward);
      }
    }
  }

  /** shuffleChar as written: reduce the count by the assumed cycle length, then loop. */
  method ShuffleChar(s: string, iterations: int) returns (r: string)
    requires |s| % 2 == 0 || !TakesBackwardPath(|s|, iterations)
    ensures r == ShuffleCharResult(s, iterations)
  {
    var itersInCycle := |s| / 2 + 1;
    assert itersInCycle == CycleLength(|s|);
    ghost var f := iterations % itersInCycle;
    var iters: int;
    if iterations <= itersInCycle {
      iters := Rem(iterations, itersInCycle);
      if iters == 0 {
        return s;
      }
      r := RepeatShuffleOne(s, iters);
    } else {
      var a := iterations / itersInCycle;
      var b := iterations / itersInCycle + 1;
      var forwardShiftIters := Abs(a * itersInCycle - iterations);
      var backShiftIters := Abs(b * itersInCycle - iterations);
      ShiftCounts(iterations, itersInCycle);
      assert forwardShiftIters == f && backShiftIters == itersInCycle - f;
      if forwardShiftIters == 0 {
        return s;
      }
      // The source's second early return, taken when backShiftIters is 0, cannot happen:
      // backShiftIters lies between 1 and itersInCycle.
      if forwardShiftIters <= backShiftIters {
        iters := forwardShiftIters;
        r := RepeatShuffleOne(s, iters);
      } else {
        iters := forwardShiftIters;
        r := RepeatShuffleOneBack(s, iters);
      }
    }
  }

  /**
   * Applies ShuffleOne n times by counting n down to zero; a count that is not positive
   * leaves the string as it is, as the source's countdown loop does.
   */
  method RepeatShuffleOne(s: string, n: int) returns (r: string)
    ensures n <= 0 ==> r == s
    ensures n >= 0 ==> r == ShuffleTimes(s, n)
  {
    r := s;
    var iters := n;
    ghost var done: nat := 0;
    while iters > 0
      invariant n <= 0 ==> iters == n && done == 0
      invariant n > 0 ==> 0 <= iters && done + iters == n
      invariant r == ShuffleTimes(s, done)
    {
      r := ShuffleOne(r);
      iters := iters - 1;
      done := done + 1;
    }
  }

  /** The same loop with the backward step. */
  method RepeatShuffleOneBack(s: string, n: nat) returns (r: string)
    requires |s| % 2 == 0
    ensures r == UnshuffleTimes(s, n)
  {
    r := s;
    var iters := n;
    ghost var done := 0;
    while iters > 0
      invariant done + iters == n && r == UnshuffleTimes(s, done)
    {
      r := ShuffleOneBack(r);
      iters := iters - 1;
      done := done + 1;
    }
  }

  /**
   * The distances from the iteration count down and up to the nearest multiples of the cycle
   * length are its remainder r and L - r.
   */
  lemma ShiftCounts(x: nat, m: nat)
    requires m > 0
    ensures Abs((x / m) * m - x) == x % m
    ensures Abs((x / m + 1) * m - x) == m - x % m
  {
    assert x == (x / m) * m + x % m;
    assert (x / m + 1) * m == (x / m) * m + m;
  }

  /**
   * The intended behaviour: the forward step applied `iterations` times. The actual cycle
   * length of the string is discovered by stepping until the string comes back (or the
   * count is used up), and the count is then reduced modulo that cycle.
   */
  method ShuffleCharFixed(s: string, iterations: nat) returns (r: string)
    ensures r == ShuffleTimes(s, iterations)
  {
    var t := s;
    var k: nat := 0;
    while k < iterations && (k == 0 || t != s)
      invariant k <= iterations && t == ShuffleTimes(s, k)
    {
      t := ShuffleOne(t);
      k := k + 1;
    }
    if k == iterations {
      return t;
    }
    // k > 0 steps bring s back: k is a cycle of s
    ShuffleTimesPeriod(s, k, iterations);
    r := RepeatShuffleOne(s, iterations % k);
  }

  /** One forward step on four characters. */
  lemma ShuffledFour(s: string)
    requires |s| == 4
    ensures Shuffled(s) == [s[0], s[2], s[1], s[3]]
  {
    assert Evens(s) == [s[0], s[2]] && Odds(s) == [s[1], s[3]];
  }

  /** One forward step on six characters. */
  lemma ShuffledSix(s: string)
    requires |s| == 6
    ensures Shuffled(s) == [s[0], s[2], s[4], s[1], s[3], s[5]]
  {
    assert Evens(s) == [s[0], s[2], s[4]] && Odds(s) == [s[1], s[3], s[5]];
  }

  /** '012345' shuffled once is '024135'. */
  lemma ShuffleExampleDigits()
    ensures ShuffleTimes("012345", 1) == "024135"
  {
    SixStep0();
  }

  /** 'qwerty' shuffled twice is 'qtrewy', and three times 'qrwtey'. */
  lemma ShuffleExampleLetters()
    ensures ShuffleTimes("qwerty", 2) == "qtrewy"
    ensures ShuffleTimes("qwerty", 3) == "qrwtey"
  {
    ShuffledSix("qwerty");
    assert Shuffled("qwerty") == "qetwry";
    ShuffledSix("qetwry");
    assert Shuffled("qetwry") == "qtrewy";
    ShuffledSix("qtrewy");
    assert Shuffled("qtrewy") == "qrwtey";
  }

  /** The examples run through shuffleChar: runs shorter than the cycle length are exact. */
  method ShuffleCharExamples() returns (a: string, b: string, c: string)
    ensures a == "024135" && b == "qtrewy" && c == "031425"
  {
    ShuffleExampleDigits();
    ShuffleExampleLetters();
    SixCycle();
    ShuffleCharShortRuns("012345", 1);
    ShuffleCharShortRuns("qwerty", 2);
    ShuffleCharShortRuns("012345", 3);
    a := ShuffleChar("012345", 1);
    b := ShuffleChar("qwerty", 2);
    c := ShuffleChar("012345", 3);
  }

  /**
   * floor(n/2) + 1 is not a cycle of the forward step in general: for '0123' (cycle 2) the
   * source returns the string itself for 3 iterations, but three steps give '0213'.
   */
  lemma AssumedCycleIsWrong()
    ensures ShuffleCharResult("0123", 3) == "0123"
    ensures ShuffleTimes("0123", 3) == "0213"
  {
    ShuffledFour("0123");
    assert Shuffled("0123") == "0213";
    ShuffledFour("0213");
    assert Shuffled("0213") == "0123";
  }

  /**
   * The backward path takes r backward steps instead of L - r: for '012345' and 7 iterations
   * (L = 4, r = 3) it returns '024135', while seven forward steps give '031425'.
   */
  lemma BackwardPathUsesWrongCount()
    ensures TakesBackwardPath(6, 7)
    ensures ShuffleCharResult("012345", 7) == "024135"
    ensures ShuffleTimes("012345", 7) == "031425"
  {
    SixCycle();
    ShuffleTimesPeriod("012345", 4, 7);
    SixStep0();
    SixStep1();
    SixStep2();
    SixStep3();
    UnshuffleShuffle("031425");
    UnshuffleShuffle("043215");
    UnshuffleShuffle("024135");
    assert UnshuffleTimes("012345", 1) == "031425";
    assert UnshuffleTimes("012345", 2) == "043215";
  }

  /** The forward orbit of '012345' has length 4. */
  lemma SixCycle()
    ensures ShuffleTimes("012345", 3) == "031425"
    ensures ShuffleTimes("012345", 4) == "012345"
  {
    SixStep0();
    SixStep1();
    SixStep2();
    SixStep3();
    assert ShuffleTimes("012345", 1) == "024135";
    assert ShuffleTimes("012345", 2) == "043215";
  }

  lemma SixStep0() ensures Shuffled("012345") == "024135" { ShuffledSix("012345"); }
  lemma SixStep1() ensures Shuffled("024135") == "043215" { ShuffledSix("024135"); }
  lemma SixStep2() ensures Shuffled("043215") == "031425" { ShuffledSix("043215"); }
  lemma SixStep3() ensures Shuffled("031425") == "012345" { ShuffledSix("031425"); }
}
