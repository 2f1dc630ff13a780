/** Decimal digits of natural numbers, least-significant digit first. */
module DecimalDigits {

  /** Every element is a decimal digit. */
  predicate IsDigits(ds: seq<int>)
  {
    forall k :: 0 <= k < |ds| ==> 0 <= ds[k] <= 9
  }

  /** The digits of `n`, least significant first; 0 has no digits. */
  function Digits(n: nat): (ds: seq<int>)
    ensures IsDigits(ds)
    ensures n == 0 <==> ds == []
    ensures ds != [] ==> ds[|ds| - 1] != 0
  {
    if n == 0 then [] else [n % 10] + Digits(n / 10)
  }

  /** The number whose digits, least significant first, are `ds` (Horner's rule). */
  function Value(ds: seq<int>): int
  {
    if ds == [] then 0 else ds[0] + 10 * Value(ds[1..])
  }

  function Pow10(k: nat): (p: nat)
    ensures p >= 1
  {
    if k == 0 then 1 else 10 * Pow10(k - 1)
  }

  /** Digits and Value are inverse to each other. */
  lemma {:induction false} ValueOfDigits(n: nat)
    ensures Value(Digits(n)) == n
  {
    if n != 0 {
      ValueOfDigits(n / 10);
      assert Digits(n)[1..] == Digits(n / 10);
    }
  }

  lemma {:induction false} ValueBounds(ds: seq<int>)
    requires IsDigits(ds)
    ensures 0 <= Value(ds) < Pow10(|ds|)
  {
    if ds != [] {
      ValueBounds(ds[1..]);
    }
  }

  /** A digit sequence without a leading (most-significant) zero is the digit sequence of its value. */
  lemma {:induction false} DigitsOfValue(ds: seq<int>)
    requires IsDigits(ds)
    requires ds != [] ==> ds[|ds| - 1] != 0
    ensures Value(ds) >= 0
    ensures Digits(Value(ds)) == ds
  {
    ValueBounds(ds);
    if ds != [] {
      var t := ds[1..];
      assert t != [] ==> t[|t| - 1] == ds[|ds| - 1];
      DigitsOfValue(t);
      ValueBounds(t);
      var v := Value(ds);
      assert v == ds[0] + 10 * Value(t);
      if t == [] {
        assert v == ds[0] && v != 0;
      } else {
        assert Value(t) > 0;
      }
      DivModDigit(ds[0], Value(t));
      assert Digits(v) == [ds[0]] + Digits(Value(t));
      assert ds == [ds[0]] + t;
    }
  }

  /** Dividing d + 10q by 10 separates the digit d from the rest q. */
  lemma DivModDigit(d: int, q: int)
    requires 0 <= d <= 9 && 0 <= q
    ensures (d + 10 * q) % 10 == d && (d + 10 * q) / 10 == q
  {
  }

  /** The value splits at index k into the low part and a scaled high part. */
  lemma {:induction false} ValueSplit(ds: seq<int>, k: nat)
    requires k <= |ds|
    ensures Value(ds) == Value(ds[..k]) + Pow10(k) * Value(ds[k..])
  {
    if k > 0 {
      ValueSplit(ds[1..], k - 1);
      assert ds[1..][..k - 1] == ds[..k][1..];
      assert ds[1..][k - 1..] == ds[k..];
    }
  }

  /**
   * Two digit sequences of equal length compare like their values at the most significant
   * index where they differ.
   */
  lemma HighDigitDecides(a: seq<int>, b: seq<int>, k: nat)
    requires IsDigits(a) && IsDigits(b) && |a| == |b|
    requires k < |a| && a[k] < b[k] && a[k + 1..] == b[k + 1..]
    ensures Value(a) < Value(b)
  {
    ValueSplit(a, k);
    ValueSplit(b, k);
    ValueBounds(a[..k]);
    ValueBounds(b[..k]);
    var p := Pow10(k);
    var ha, hb := Value(a[k..]), Value(b[k..]);
    assert ha == a[k] + 10 * Value(a[k + 1..]) by { assert a[k..][1..] == a[k + 1..]; }
    assert hb == b[k] + 10 * Value(b[k + 1..]) by { assert b[k..][1..] == b[k + 1..]; }
    ScaleStep(p, ha, hb);
  }

  lemma ScaleStep(p: int, x: int, y: int)
    requires p >= 1 && x < y
    ensures p * x + p <= p * y
  {
    var d := y - x;
    assert p * y == p * x + p * d;
    assert p * d == p + p * (d - 1);
    assert p * (d - 1) >= 0;
  }

  /** The most significant index where two different sequences of equal length differ. */
  lemma TopDifference(a: seq<int>, b: seq<int>) returns (k: nat)
    requires |a| == |b| && a != b
    ensures k < |a| && a[k] != b[k] && a[k + 1..] == b[k + 1..]
  {
    k := |a| - 1;
    while k > 0 && a[k] == b[k]
      invariant 0 <= k < |a| && a[k + 1..] == b[k + 1..]
      decreases k
    {
      k := k - 1;
    }
  }

  /** If a has the smaller value, then a is smaller at the most significant differing index. */
  lemma {:induction false} SmallerValueWitness(a: seq<int>, b: seq<int>) returns (k: nat)
    requires IsDigits(a) && IsDigits(b) && |a| == |b|
    requires Value(a) < Value(b)
    ensures k < |a| && a[k] < b[k] && a[k + 1..] == b[k + 1..]
  {
    k := TopDifference(a, b);
    if b[k] < a[k] {
      HighDigitDecides(b, a, k);
    }
  }

  /** Horner's rule on five digits. */
  lemma Value5(a: int, b: int, c: int, d: int, e: int)
    ensures Value([a, b, c, d, e]) == a + 10 * b + 100 * c + 1000 * d + 10000 * e
  {
    assert Value([e]) == e by { assert [e][1..] == []; }
    assert Value([d, e]) == d + 10 * e by { assert [d, e][1..] == [e]; }
    assert Value([c, d, e]) == c + 10 * d + 100 * e by { assert [c, d, e][1..] == [d, e]; }
    assert Value([b, c, d, e]) == b + 10 * c + 100 * d + 1000 * e by {
      assert [b, c, d, e][1..] == [c, d, e];
    }
    assert [a, b, c, d, e][1..] == [b, c, d, e];
  }

  /** Horner's rule on six digits. */
  lemma Value6(a: int, b: int, c: int, d: int, e: int, f: int)
    ensures Value([a, b, c, d, e, f]) == a + 10 * b + 100 * c + 1000 * d + 10000 * e + 100000 * f
  {
    assert [a, b, c, d, e, f][1..] == [b, c, d, e, f];
    Value5(b, c, d, e, f);
  }
}
