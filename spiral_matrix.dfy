/**
 * The clockwise spiral fill of an n-by-n matrix with 1..n*n. The fill walks layer after
 * layer from the outside in; layer k (side length m = n - 2k) takes the top row left to
 * right, then the right column downwards, the bottom row right to left and the left column
 * upwards.
 */
module SpiralMatrix {
  import opened MatrixLayers

  /** The number of cells in the layers below k, layer by layer. */
  function Filled(n: int, k: int): int
    decreases k
  {
    if k <= 0 then 0
    else if 2 * (k - 1) < n then Filled(n, k - 1) + RingSize(n - 2 * (k - 1))
    else Filled(n, k - 1)
  }

  /** The number of cells in a layer of side m: the lone centre when m is 1, else the border. */
  function RingSize(m: int): int
  {
    if m == 1 then 1 else 4 * m - 4
  }

  /**
   * The number the spiral puts in cell (r, c): one past the cells of the outer layers, plus
   * the position of the cell in the walk of its own layer k, which takes the top row (both
   * of its corners included), the right column below it, the bottom row to its left, and
   * the left column above that.
   */
  function SpiralValue(n: int, r: int, c: int): int
  {
    var k := Ring(n, r, c);
    1 + Filled(n, k) + RingOffset(n, k, r, c)
  }

  /** The position of cell (r, c) in the clockwise walk of layer k, counted from 0. */
  function RingOffset(n: int, k: int, r: int, c: int): int
  {
    var m := n - 2 * k;
    if r == k then c - k
    else if c == n - 1 - k then (m - 1) + (r - k)
    else if r == n - 1 - k then 2 * (m - 1) + (n - 1 - k - c)
    else 3 * (m - 1) + (n - 1 - k - r)
  }

  lemma SquareMono(x: int, y: int)
    requires 0 <= x <= y
    ensures x * x <= y * y
  {
    assert x * x <= x * y by { assert x * (y - x) >= 0; }
    assert x * y <= y * y by { assert (y - x) * y >= 0; }
  }

  /** Layers k and up form the inner square of side n - 2k; the ones below fill the rest. */
  lemma {:induction false} FilledClosedForm(n: int, k: int)
    requires 0 <= n && 0 <= k
    ensures Filled(n, k) == if 2 * k >= n then n * n else n * n - (n - 2 * k) * (n - 2 * k)
  {
    if k > 0 {
      FilledClosedForm(n, k - 1);
      var m := n - 2 * (k - 1);
      if m >= 3 {
        assert (m - 2) * (m - 2) == m * m - 4 * m + 4;
      } else if m == 2 {
        assert m * m == 4;
      } else if m == 1 {
        assert m * m == 1;
      }
    }
  }

  /** Never more than the whole matrix is filled. */
  lemma FilledBounds(n: int, k: int)
    requires 0 <= k && 0 <= n
    ensures 0 <= Filled(n, k) <= n * n
  {
    FilledClosedForm(n, k);
    if 2 * k < n {
      SquareMono(n - 2 * k, n);
    }
  }

  lemma {:induction false} FilledMono(n: int, k: int, k': int)
    requires 0 <= k <= k'
    ensures Filled(n, k) <= Filled(n, k')
  {
    if k < k' {
      FilledMono(n, k, k' - 1);
    }
  }

  /** The spiral number of every cell is one of 1..n*n, within the range of its layer. */
  lemma SpiralValueRange(n: int, r: int, c: int)
    requires 0 <= r < n && 0 <= c < n
    ensures var k := Ring(n, r, c);
      Filled(n, k) < SpiralValue(n, r, c) <= Filled(n, k + 1)
    ensures 1 <= SpiralValue(n, r, c) <= n * n
  {
    var k := Ring(n, r, c);
    RingBounds(n, r, c);
    FilledBounds(n, k);
    FilledBounds(n, k + 1);
  }

  /** No two cells get the same number. */
  lemma SpiralInjective(n: int, r: int, c: int, r': int, c': int)
    requires 0 <= r < n && 0 <= c < n && 0 <= r' < n && 0 <= c' < n
    requires SpiralValue(n, r, c) == SpiralValue(n, r', c')
    ensures r == r' && c == c'
  {
    SameRing(n, r, c, r', c');
    RingBounds(n, r, c);
    RingBounds(n, r', c');
    OffsetInjective(n, Ring(n, r, c), r, c, r', c');
  }

  /** Cells with the same number lie in the same layer, since the layers' ranges do not overlap. */
  lemma SameRing(n: int, r: int, c: int, r': int, c': int)
    requires 0 <= r < n && 0 <= c < n && 0 <= r' < n && 0 <= c' < n
    requires SpiralValue(n, r, c) == SpiralValue(n, r', c')
    ensures Ring(n, r, c) == Ring(n, r', c')
  {
    var k, k' := Ring(n, r, c), Ring(n, r', c');
    SpiralValueRange(n, r, c);
    SpiralValueRange(n, r', c');
    RingBounds(n, r, c);
    RingBounds(n, r', c');
    if k < k' {
      FilledMono(n, k + 1, k');
    } else if k' < k {
      FilledMono(n, k' + 1, k);
    }
  }

  /** Within one layer, the walk visits each cell once: the four sides take disjoint ranges. */
  lemma OffsetInjective(n: int, k: int, r: int, c: int, r': int, c': int)
    requires 0 <= k && 2 * k < n
    requires k <= r <= n - 1 - k && k <= c <= n - 1 - k
    requires r == k || c == k || r == n - 1 - k || c == n - 1 - k
    requires k <= r' <= n - 1 - k && k <= c' <= n - 1 - k
    requires r' == k || c' == k || r' == n - 1 - k || c' == n - 1 - k
    requires RingOffset(n, k, r, c) == RingOffset(n, k, r', c')
    ensures r == r' && c == c'
  {
  }

  /** The layer holding the number v, searched from layer k inwards. */
  function RingOf(n: int, v: int, k: int): (k': int)
    requires 0 <= k && 2 * k < n && Filled(n, k) < v <= n * n
    ensures k <= k' && 2 * k' < n && Filled(n, k') < v <= Filled(n, k' + 1)
    decreases n - 2 * k
  {
    FilledClosedForm(n, k + 1);
    if v <= Filled(n, k + 1) then k else RingOf(n, v, k + 1)
  }

  /** Every number in 1..n*n is in some cell. */
  lemma SpiralOnto(n: nat, v: int) returns (r: int, c: int)
    requires 1 <= v <= n * n
    ensures 0 <= r < n && 0 <= c < n && SpiralValue(n, r, c) == v
  {
    var k := RingOf(n, v, 0);
    var m := n - 2 * k;
    var d := v - 1 - Filled(n, k);
    if m == 1 {
      r, c := k, k;
    } else if d < m {
      r, c := k, k + d;
    } else if d <= 2 * m - 2 {
      r, c := k + d - (m - 1), n - 1 - k;
    } else if d <= 3 * m - 3 {
      r, c := n - 1 - k, n - 1 - k - (d - 2 * (m - 1));
    } else {
      r, c := n - 1 - k - (d - 3 * (m - 1)), k;
    }
    assert Ring(n, r, c) == k;
  }

  /** The numbers along the top row of layer k, left to right. */
  lemma TopValue(n: int, k: int, i: int)
    requires 0 <= k && k <= i < n - k
    ensures SpiralValue(n, k, i) == 1 + Filled(n, k) + (i - k)
  {
  }

  /** The numbers down the right column of layer k, below its top row. */
  lemma RightValue(n: int, k: int, i: int)
    requires 0 <= k && k + 1 <= i < n - k
    ensures SpiralValue(n, i, n - 1 - k) == 1 + Filled(n, k) + (n - 2 * k - 1) + (i - k)
  {
  }

  /** The numbers along the bottom row of layer k, right to left, left of its right column. */
  lemma BottomValue(n: int, k: int, i: int)
    requires 0 <= k && k <= i < n - k - 1
    ensures SpiralValue(n, n - 1 - k, i) == 1 + Filled(n, k) + 2 * (n - 2 * k - 1) + (n - 1 - k - i)
  {
  }

  /** The numbers up the left column of layer k, strictly between its top and bottom rows. */
  lemma LeftValue(n: int, k: int, i: int)
    requires 0 <= k && k + 1 <= i < n - k - 1
    ensures SpiralValue(n, i, k) == 1 + Filled(n, k) + 3 * (n - 2 * k - 1) + (n - 1 - k - i)
  {
  }

  /** Every cell whose spiral number is below v already holds it. */
  predicate FilledBelow(a: array2<int>, n: int, v: int)
    reads a
  {
    a.Length0 == n && a.Length1 == n &&
    forall r, c :: 0 <= r < n && 0 <= c < n && SpiralValue(n, r, c) < v ==> a[r, c] == SpiralValue(n, r, c)
  }

  /** One write of the fill: cell (r, c) receives its number v, the next one due. */
  method Place(a: array2<int>, n: int, r: int, c: int, v: int)
    requires 0 <= r < n && 0 <= c < n && SpiralValue(n, r, c) == v
    requires FilledBelow(a, n, v)
    modifies a
    ensures FilledBelow(a, n, v + 1)
  {
    a[r, c] := v;
    forall r', c' | 0 <= r' < n && 0 <= c' < n && SpiralValue(n, r', c') < v + 1
      ensures a[r', c'] == SpiralValue(n, r', c')
    {
      if SpiralValue(n, r', c') == v {
        SpiralInjective(n, r, c, r', c');
      }
    }
  }

  /**
   * getSpiralMatrix: four boundary counters close in on the centre while count runs from 1
   * past size * size; each round fills one layer clockwise.
   */
  method GetSpiralMatrix(size: nat) returns (a: array2<int>)
    ensures fresh(a) && a.Length0 == size && a.Length1 == size
    ensures forall r, c :: 0 <= r < size && 0 <= c < size ==> a[r, c] == SpiralValue(size, r, c)
  {
    a := new int[size, size];
    var count := 1;
    var topLine, rightLine, leftLine, bottomLine := 0, 0, 0, 0;
    forall r, c | 0 <= r < size && 0 <= c < size ensures SpiralValue(size, r, c) >= 1 {
      SpiralValueRange(size, r, c);
    }
    while count <= size * size
      invariant 0 <= 2 * topLine <= size + 1
      invariant rightLine == topLine && leftLine == topLine && bottomLine == topLine
      invariant count == 1 + Filled(size, topLine)
      invariant FilledBelow(a, size, count)
      decreases size + 1 - 2 * topLine
    {
      count := FillLayer(a, size, topLine, count);
      topLine, rightLine, bottomLine, leftLine := topLine + 1, rightLine + 1, bottomLine + 1, leftLine + 1;
    }
    forall r, c | 0 <= r < size && 0 <= c < size ensures a[r, c] == SpiralValue(size, r, c) {
      SpiralValueRange(size, r, c);
    }
  }

  /**
   * One round of the fill, on layer k, where all four boundary counters equal k on entry;
   * each side's loop runs between the counters as they stand after the previous side
   * (topLine is k + 1 from the right column on, rightLine from the bottom row on, and so on).
   */
  method FillLayer(a: array2<int>, size: int, k: int, count: int) returns (next: int)
    requires 0 <= k && 2 * k <= size + 1
    requires count == 1 + Filled(size, k) && count <= size * size
    requires FilledBelow(a, size, count)
    modifies a
    ensures 2 * k < size && next == 1 + Filled(size, k + 1)
    ensures FilledBelow(a, size, next)
  {
    FilledClosedForm(size, k);
    next := FillTopRow(a, size, k, count);
    next := FillRightColumn(a, size, k, next);
    next := FillBottomRow(a, size, k, next);
    next := FillLeftColumn(a, size, k, next);
  }

  /** The top row of layer k, left to right, from column leftLine = k up to size - rightLine. */
  method FillTopRow(a: array2<int>, size: int, k: int, count: int) returns (next: int)
    requires 0 <= k && 2 * k < size
    requires count == 1 + Filled(size, k) && FilledBelow(a, size, count)
    modifies a
    ensures next == count + (size - 2 * k) && FilledBelow(a, size, next)
  {
    next := count;
    var i := k;
    while i < size - k
      invariant k <= i <= size - k
      invariant next == count + (i - k)
      invariant FilledBelow(a, size, next)
    {
      TopValue(size, k, i);
      Place(a, size, k, i, next);
      next := next + 1;
      i := i + 1;
    }
  }

  /** The right column of layer k, downwards from row topLine = k + 1 to size - bottomLine. */
  method FillRightColumn(a: array2<int>, size: int, k: int, count: int) returns (next: int)
    requires 0 <= k && 2 * k < size
    requires count == 1 + Filled(size, k) + (size - 2 * k) && FilledBelow(a, size, count)
    modifies a
    ensures next == count + (size - 2 * k - 1) && FilledBelow(a, size, next)
  {
    next := count;
    var i := k + 1;
    while i < size - k
      invariant k + 1 <= i <= size - k
      invariant next == count + (i - k - 1)
      invariant FilledBelow(a, size, next)
    {
      RightValue(size, k, i);
      Place(a, size, i, size - (k + 1), next);
      next := next + 1;
      i := i + 1;
    }
  }

  /** The bottom row of layer k, leftwards from column size - rightLine - 1 down to leftLine. */
  method FillBottomRow(a: array2<int>, size: int, k: int, count: int) returns (next: int)
    requires 0 <= k && 2 * k < size
    requires count == 1 + Filled(size, k) + 2 * (size - 2 * k) - 1 && FilledBelow(a, size, count)
    modifies a
    ensures next == count + (size - 2 * k - 1) && FilledBelow(a, size, next)
  {
    next := count;
    var i := size - (k + 1) - 1;
    while i >= k
      invariant k - 1 <= i <= size - k - 2
      invariant next == count + (size - k - 2 - i)
      invariant FilledBelow(a, size, next)
    {
      BottomValue(size, k, i);
      Place(a, size, size - k - 1, i, next);
      next := next + 1;
      i := i - 1;
    }
  }

  /** The left column of layer k, upwards from row size - bottomLine - 1 down to topLine. */
  method FillLeftColumn(a: array2<int>, size: int, k: int, count: int) returns (next: int)
    requires 0 <= k && 2 * k < size
    requires count == 1 + Filled(size, k) + 3 * (size - 2 * k) - 2 && FilledBelow(a, size, count)
    modifies a
    ensures next == 1 + Filled(size, k + 1) && FilledBelow(a, size, next)
  {
    next := count;
    var i := size - (k + 1) - 1;
    while i >= k + 1
      invariant i <= size - k - 2 && (k <= i || i == size - k - 2)
      invariant next == count + (size - k - 2 - i)
      invariant FilledBelow(a, size, next)
    {
      LeftValue(size, k, i);
      Place(a, size, i, k, next);
      next := next + 1;
      i := i - 1;
    }
  }

  /** The first row of the spiral counts 1..n from left to right. */
  lemma SpiralFirstRow(n: int, c: int)
    requires 0 <= c < n
    ensures SpiralValue(n, 0, c) == c + 1
  {
    TopValue(n, 0, c);
  }

  /** The 3-by-3 spiral, cell by cell. */
  lemma SpiralCell3(r: int, c: int)
    requires 0 <= r < 3 && 0 <= c < 3
    ensures SpiralValue(3, r, c) == [[1, 2, 3], [8, 9, 4], [7, 6, 5]][r][c]
  {
  }

  /** m holds the n-by-n spiral, row by row. */
  predicate IsSpiral(m: seq<seq<int>>, n: int)
  {
    |m| == n && forall r :: 0 <= r < n ==> (|m[r]| == n &&
      forall c :: 0 <= c < n ==> m[r][c] == SpiralValue(n, r, c))
  }

  /** The rows of a matrix, as a sequence of sequences. */
  method Rows(a: array2<int>) returns (m: seq<seq<int>>)
    ensures |m| == a.Length0
    ensures forall r :: 0 <= r < |m| ==> (|m[r]| == a.Length1 &&
      forall c :: 0 <= c < a.Length1 ==> m[r][c] == a[r, c])
  {
    m := [];
    for r := 0 to a.Length0
      invariant |m| == r
      invariant forall i :: 0 <= i < r ==> (|m[i]| == a.Length1 &&
        forall c :: 0 <= c < a.Length1 ==> m[i][c] == a[i, c])
    {
      var row := seq(a.Length1, c requires 0 <= c < a.Length1 reads a => a[r, c]);
      m := m + [row];
    }
  }

  /** The 3-by-3 spiral, written out. */
  lemma Spiral3(m: seq<seq<int>>)
    requires IsSpiral(m, 3)
    ensures m == [[1, 2, 3], [8, 9, 4], [7, 6, 5]]
  {
    var e := [[1, 2, 3], [8, 9, 4], [7, 6, 5]];
    forall r, c | 0 <= r < 3 && 0 <= c < 3 ensures m[r][c] == e[r][c] {
      SpiralCell3(r, c);
    }
    assert m[0] == e[0] && m[1] == e[1] && m[2] == e[2];
  }

  /** The 3-by-3 spiral. */
  method SpiralExample3() returns (m: seq<seq<int>>)
    ensures m == [[1, 2, 3], [8, 9, 4], [7, 6, 5]]
  {
    var a := GetSpiralMatrix(3);
    m := Rows(a);
    Spiral3(m);
  }

  /** The 4-by-4 spiral, cell by cell. */
  lemma SpiralCell4(r: int, c: int)
    requires 0 <= r < 4 && 0 <= c < 4
    ensures SpiralValue(4, r, c) == [[1, 2, 3, 4], [12, 13, 14, 5], [11, 16, 15, 6], [10, 9, 8, 7]][r][c]
  {
  }

  /** The 4-by-4 spiral, written out. */
  lemma Spiral4(m: seq<seq<int>>)
    requires IsSpiral(m, 4)
    ensures m == [[1, 2, 3, 4], [12, 13, 14, 5], [11, 16, 15, 6], [10, 9, 8, 7]]
  {
    var e := [[1, 2, 3, 4], [12, 13, 14, 5], [11, 16, 15, 6], [10, 9, 8, 7]];
    forall r, c | 0 <= r < 4 && 0 <= c < 4 ensures m[r][c] == e[r][c] {
      SpiralCell4(r, c);
    }
    assert m[0] == e[0] && m[1] == e[1] && m[2] == e[2] && m[3] == e[3];
  }

  /** The 4-by-4 spiral. */
  method SpiralExample4() returns (m: seq<seq<int>>)
    ensures m == [[1, 2, 3, 4], [12, 13, 14, 5], [11, 16, 15, 6], [10, 9, 8, 7]]
  {
    var a := GetSpiralMatrix(4);
    m := Rows(a);
    Spiral4(m);
  }

  /** The empty spiral. */
  method SpiralExample0() returns (rows: int, cols: int)
    ensures rows == 0 && cols == 0
  {
    var a := GetSpiralMatrix(0);
    rows, cols := a.Length0, a.Length1;
  }
}
