/**
 * In-place clockwise rotation of a square matrix. Cells are moved in cycles of four, one
 * ring ("layer") at a time from the outside in; within layer i the cycle with index j starts
 * at cell (i, j) of the top row.
 */
module MatrixRotation {
  import opened MatrixLayers

  /** The matrix held by a two-dimensional array, as rows. */
  function Grid(a: array2<int>): (g: seq<seq<int>>)
    reads a
    ensures |g| == a.Length0
    ensures forall r :: 0 <= r < |g| ==> |g[r]| == a.Length1
    ensures forall r, c :: 0 <= r < a.Length0 && 0 <= c < a.Length1 ==> g[r][c] == a[r, c]
  {
    seq(a.Length0, r requires 0 <= r < a.Length0 reads a =>
      seq(a.Length1, c requires 0 <= c < a.Length1 reads a => a[r, c]))
  }

  /** Every row is as long as the matrix is high. */
  predicate IsSquare(m: seq<seq<int>>)
  {
    forall r :: 0 <= r < |m| ==> |m[r]| == |m|
  }

  /** The matrix turned a quarter clockwise: row i of the result is column i read upwards. */
  function Rotated(m: seq<seq<int>>): (res: seq<seq<int>>)
    requires IsSquare(m)
    ensures IsSquare(res) && |res| == |m|
  {
    var n := |m|;
    seq(n, i requires 0 <= i < n => seq(n, j requires 0 <= j < n => m[n - 1 - j][i]))
  }

  /** Rotating twice turns the matrix upside down and mirrors it. */
  lemma RotatedTwice(m: seq<seq<int>>)
    requires IsSquare(m)
    ensures forall i, j :: 0 <= i < |m| && 0 <= j < |m| ==>
      Rotated(Rotated(m))[i][j] == m[|m| - 1 - i][|m| - 1 - j]
  {
  }

  /** Four quarter turns give the matrix back. */
  lemma RotatedFourTimes(m: seq<seq<int>>)
    requires IsSquare(m)
    ensures Rotated(Rotated(Rotated(Rotated(m)))) == m
  {
    var h := Rotated(Rotated(m));
    RotatedTwice(m);
    RotatedTwice(h);
    var g := Rotated(Rotated(h));
    assert |g| == |m|;
    forall i | 0 <= i < |m| ensures g[i] == m[i] {
      assert |g[i]| == |m[i]|;
      forall j | 0 <= j < |m| ensures g[i][j] == m[i][j] {
        assert g[i][j] == h[|m| - 1 - i][|m| - 1 - j];
      }
    }
  }

  /**
   * The index of the four-cycle that moves cell (r, c) within its layer k: top row cell
   * (k, j), right column cell (j, n-1-k), bottom row cell (n-1-k, n-1-j) and left column
   * cell (n-1-j, k) share index j. The centre of an odd-sized matrix belongs to no cycle.
   */
  function CycleIndex(n: int, r: int, c: int): int
  {
    var k := Ring(n, r, c);
    if r == k && c < n - 1 - k then c
    else if c == n - 1 - k && r < n - 1 - k then r
    else if r == n - 1 - k && c > k then n - 1 - c
    else if c == k && r > k then n - 1 - r
    else n
  }

  /** Cell (r, c) has been rotated once layers below i and cycles below j of layer i are done. */
  predicate Done(n: int, i: int, j: int, r: int, c: int)
  {
    Ring(n, r, c) < i || (Ring(n, r, c) == i && CycleIndex(n, r, c) < j)
  }

  /** The four cells of cycle j in layer i are exactly the cells with that layer and index. */
  lemma CycleCells(n: int, i: int, j: int, r: int, c: int)
    requires 0 <= i <= j < n - 1 - i
    requires 0 <= r < n && 0 <= c < n
    ensures (Ring(n, r, c) == i && CycleIndex(n, r, c) == j) <==>
      ((r, c) == (i, j) || (r, c) == (j, n - 1 - i) ||
       (r, c) == (n - 1 - i, n - 1 - j) || (r, c) == (n - 1 - j, i))
  {
  }

  /** Outside the centre, a cell of layer k belongs to a cycle with index in [k, n-2-k]. */
  lemma CycleIndexRange(n: int, r: int, c: int)
    requires 0 <= r < n && 0 <= c < n
    ensures var k := Ring(n, r, c);
      0 <= k && 2 * k <= n - 1 &&
      ((r == k && c == k && k == n - 1 - k) || k <= CycleIndex(n, r, c) <= n - 2 - k)
  {
  }

  /**
   * The state of the array `a`, which held `m`, once every cycle before cycle j of layer i
   * has been exchanged: those cells hold their rotated value, all others their original one.
   */
  predicate RotatedUpTo(a: array2<int>, m: seq<seq<int>>, i: int, j: int)
    reads a
  {
    a.Length0 == a.Length1 == |m| && IsSquare(m) &&
    forall r, c :: 0 <= r < |m| && 0 <= c < |m| ==>
      a[r, c] == if Done(|m|, i, j, r, c) then m[|m| - 1 - c][r] else m[r][c]
  }

  /** At the start nothing is rotated; the array still holds its grid. */
  lemma RotatedUpToStart(a: array2<int>)
    requires a.Length0 == a.Length1
    ensures RotatedUpTo(a, Grid(a), 0, 0)
  {
    var m := Grid(a);
    forall r, c | 0 <= r < |m| && 0 <= c < |m| ensures !Done(|m|, 0, 0, r, c) {
      CycleIndexRange(|m|, r, c);
    }
  }

  /** Once the last cycle of layer i is exchanged, layer i + 1 begins. */
  lemma LayerDone(a: array2<int>, m: seq<seq<int>>, i: int, j: int)
    requires 0 <= i && RotatedUpTo(a, m, i, j)
    requires j == |m| - i - 1 || (j == i && |m| - i - 1 <= i)
    ensures RotatedUpTo(a, m, i + 1, i + 1)
  {
    var n := |m|;
    forall r, c | 0 <= r < n && 0 <= c < n
      ensures a[r, c] == if Done(n, i + 1, i + 1, r, c) then m[n - 1 - c][r] else m[r][c]
    {
      CycleIndexRange(n, r, c);
    }
  }

  /** Past the middle layer every cell is rotated. */
  lemma AllDone(a: array2<int>, m: seq<seq<int>>, i: int)
    requires RotatedUpTo(a, m, i, i) && i == |m| / 2 + 1
    ensures Grid(a) == Rotated(m)
    ensures forall r, c :: 0 <= r < |m| && 0 <= c < |m| ==> a[r, c] == m[|m| - 1 - c][r]
  {
    var n := |m|;
    forall r, c | 0 <= r < n && 0 <= c < n ensures Done(n, i, i, r, c) {
      CycleIndexRange(n, r, c);
    }
    GridRotated(a, m);
  }

  /** rotateMatrix: rotates the square matrix in place and returns the same matrix. */
  method RotateMatrix(a: array2<int>) returns (res: array2<int>)
    requires a.Length0 == a.Length1
    modifies a
    ensures res == a
    ensures forall r, c :: 0 <= r < a.Length0 && 0 <= c < a.Length1 ==>
      a[r, c] == old(a[a.Length0 - 1 - c, r])
    ensures IsSquare(old(Grid(a))) && Grid(a) == Rotated(old(Grid(a)))
  {
    var n := a.Length0;
    ghost var m := Grid(a);
    RotatedUpToStart(a);
    var i := 0;
    while i <= n / 2
      invariant 0 <= i <= n / 2 + 1
      invariant RotatedUpTo(a, m, i, i)
    {
      var j := i;
      while j < n - i - 1
        invariant i <= j && (j <= n - i - 1 || j == i)
        invariant RotatedUpTo(a, m, i, j)
      {
        RotateCycle(a, m, i, j);
        j := j + 1;
      }
      LayerDone(a, m, i, j);
      i := i + 1;
    }
    res := a;
    AllDone(a, m, i);
  }

  /** Cycle j of layer i is the only thing that separates the done cells before and after it. */
  lemma DoneStep(n: int, i: int, j: int, r: int, c: int)
    requires 0 <= i <= j < n - 1 - i
    requires 0 <= r < n && 0 <= c < n
    ensures Done(n, i, j + 1, r, c) <==> (Done(n, i, j, r, c) ||
      (r, c) == (i, j) || (r, c) == (j, n - 1 - i) ||
      (r, c) == (n - 1 - i, n - 1 - j) || (r, c) == (n - 1 - j, i))
    ensures ((r, c) == (i, j) || (r, c) == (j, n - 1 - i) ||
      (r, c) == (n - 1 - i, n - 1 - j) || (r, c) == (n - 1 - j, i)) ==> !Done(n, i, j, r, c)
  {
    CycleCells(n, i, j, r, c);
  }

  /** One step of the inner loop: the four-way exchange of cycle j in layer i. */
  method RotateCycle(a: array2<int>, ghost m: seq<seq<int>>, i: int, j: int)
    requires 0 <= i <= j < |m| - 1 - i
    requires RotatedUpTo(a, m, i, j)
    modifies a
    ensures RotatedUpTo(a, m, i, j + 1)
  {
    var n := a.Length0;
    DoneStep(n, i, j, i, j);
    DoneStep(n, i, j, n - j - 1, i);
    DoneStep(n, i, j, n - i - 1, n - j - 1);
    DoneStep(n, i, j, j, n - i - 1);
    var v := a[i, j];
    a[i, j] := a[n - j - 1, i];
    a[n - j - 1, i] := a[n - i - 1, n - j - 1];
    a[n - i - 1, n - j - 1] := a[j, n - i - 1];
    a[j, n - i - 1] := v;
    forall r, c | 0 <= r < n && 0 <= c < n
      ensures a[r, c] == if Done(n, i, j + 1, r, c) then m[n - 1 - c][r] else m[r][c]
    {
      DoneStep(n, i, j, r, c);
    }
  }

  /** The cell-wise rotation of an array is the rotation of its grid. */
  lemma GridRotated(a: array2<int>, m: seq<seq<int>>)
    requires a.Length0 == a.Length1 == |m| && IsSquare(m)
    requires forall r, c :: 0 <= r < |m| && 0 <= c < |m| ==> a[r, c] == m[|m| - 1 - c][r]
    ensures Grid(a) == Rotated(m)
  {
    var g, h := Grid(a), Rotated(m);
    forall r | 0 <= r < |m| ensures g[r] == h[r] {
      assert |g[r]| == |h[r]|;
    }
  }

  /** The 3-by-3 example of rotateMatrix: [[1,2,3],[4,5,6],[7,8,9]] turns into [[7,4,1],[8,5,2],[9,6,3]]. */
  lemma RotatedExample()
    ensures Rotated([[1, 2, 3], [4, 5, 6], [7, 8, 9]]) == [[7, 4, 1], [8, 5, 2], [9, 6, 3]]
  {
    var g := Rotated([[1, 2, 3], [4, 5, 6], [7, 8, 9]]);
    assert g[0] == [7, 4, 1] && g[1] == [8, 5, 2] && g[2] == [9, 6, 3];
  }

  /** The same example run through the in-place rotation. */
  method RotateExample() returns (m: seq<seq<int>>)
    ensures m == [[7, 4, 1], [8, 5, 2], [9, 6, 3]]
  {
    var a := new int[3, 3]((r, c) => 3 * r + c + 1);
    ghost var g := Grid(a);
    assert g[0] == [1, 2, 3] && g[1] == [4, 5, 6] && g[2] == [7, 8, 9];
    assert g == [[1, 2, 3], [4, 5, 6], [7, 8, 9]];
    var r := RotateMatrix(a);
    m := Grid(r);
    RotatedExample();
  }
}
