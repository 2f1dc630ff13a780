/** Small decisions made with conditionals alone: sign, maximum, queen's reach, isosceles. */
module Conditions {
  import opened Math

  /** isPositive: zero counts as positive. */
  function IsPositive(number: int): (r: bool)
    ensures r <==> 0 <= number
  {
    number >= 0
  }

  /** The examples on isPositive: 10 and 0 are positive, -5 is not. */
  lemma IsPositiveExamples()
    ensures IsPositive(10) && IsPositive(0) && !IsPositive(-5)
  {
  }

  /** getMaxNumber: the largest of three numbers, chosen by two comparisons. */
  function GetMaxNumber(a: int, b: int, c: int): (m: int)
    ensures m >= a && m >= b && m >= c
    ensures m == a || m == b || m == c
  {
    var maxBetweenAB := if a > b then a else b;
    if maxBetweenAB > c then maxBetweenAB else c
  }

  /** The maximum does not depend on the order of the arguments. */
  lemma MaxOrderFree(a: int, b: int, c: int)
    ensures GetMaxNumber(a, b, c) == GetMaxNumber(b, a, c) == GetMaxNumber(c, b, a)
      == GetMaxNumber(a, c, b)
  {
  }

  /** The examples on getMaxNumber with integer arguments. */
  lemma GetMaxNumberExamples()
    ensures GetMaxNumber(1, 2, 3) == 3 && GetMaxNumber(-5, 0, 5) == 5
  {
  }

  /** A square of the board, by column x and row y. */
  datatype Position = Position(x: int, y: int)

  /** The square t steps away from `from` in direction (dx, dy). */
  function Step(from: Position, dx: int, dy: int, t: int): Position
  {
    Position(from.x + t * dx, from.y + t * dy)
  }

  /**
   * The king stands on one of the eight lines a queen moves along (a rank, a file or a
   * diagonal), any number of steps away; zero steps is the queen's own square.
   */
  ghost predicate OnQueenLine(queen: Position, king: Position)
  {
    exists dx, dy, t :: -1 <= dx <= 1 && -1 <= dy <= 1 && 0 <= t &&
      Step(queen, dx, dy, t) == king
  }

  /**
   * canQueenCaptureKing: same column, same row, or equal distances along both axes; that is,
   * the king stands on one of the queen's eight lines.
   */
  function CanQueenCaptureKing(queen: Position, king: Position): (r: bool)
    ensures r <==> OnQueenLine(queen, king)
  {
    QueenLineTests(queen, king);
    var xq, yq := queen.x, queen.y;
    var xk, yk := king.x, king.y;
    if xq == xk then true
    else if yq == yk then true
    else if Abs(xq - xk) == Abs(yq - yk) then true
    else false
  }

  /** The sign of a difference: the direction to step in along one axis. */
  function Sign(v: int): (s: int)
    ensures -1 <= s <= 1 && s * Abs(v) == v
  {
    if v < 0 then -1 else if v == 0 then 0 else 1
  }

  /** The three tests of canQueenCaptureKing find exactly the squares on the queen's lines. */
  lemma QueenLineTests(queen: Position, king: Position)
    ensures (queen.x == king.x || queen.y == king.y || Abs(queen.x - king.x) == Abs(queen.y - king.y))
      <==> OnQueenLine(queen, king)
  {
    var dxk, dyk := king.x - queen.x, king.y - queen.y;
    if queen.x == king.x || queen.y == king.y || Abs(queen.x - king.x) == Abs(queen.y - king.y) {
      var t := if dxk != 0 then Abs(dxk) else Abs(dyk);
      var dx, dy := Sign(dxk), Sign(dyk);
      assert dx * t == dxk && dy * t == dyk;
      assert Step(queen, dx, dy, t) == king;
    }
    if OnQueenLine(queen, king) {
      var dx, dy, t :| -1 <= dx <= 1 && -1 <= dy <= 1 && 0 <= t &&
        Step(queen, dx, dy, t) == king;
      assert dxk == t * dx && dyk == t * dy;
      if dx != 0 && dy != 0 {
        assert Abs(dxk) == t && Abs(dyk) == t;
      }
    }
  }

  /** The examples on canQueenCaptureKing. */
  lemma QueenExamples()
    ensures CanQueenCaptureKing(Position(1, 1), Position(5, 5))
    ensures CanQueenCaptureKing(Position(2, 1), Position(2, 8))
    ensures !CanQueenCaptureKing(Position(1, 1), Position(2, 8))
  {
  }

  /**
   * isIsoscelesTriangle: sides that fail the strict triangle inequality (including zero or
   * negative sides) make no triangle; otherwise the triangle is isosceles when two sides are
   * equal.
   */
  function IsIsoscelesTriangle(a: int, b: int, c: int): (r: bool)
    ensures r ==> 0 < a && 0 < b && 0 < c
    ensures r ==> a == b || a == c || b == c
  {
    if a + b <= c || a + c <= b || b + c <= a then false
    else if a == b || a == c || c == b then true
    else false
  }

  /**
   * An isosceles triangle is two equal legs s and a base strictly between 0 and 2s, whichever
   * two of the three arguments the legs are.
   */
  lemma IsoscelesByLegs(a: int, b: int, c: int)
    ensures IsIsoscelesTriangle(a, b, c) <==>
      (a == b && 0 < c < 2 * a) || (a == c && 0 < b < 2 * a) || (b == c && 0 < a < 2 * b)
  {
  }

  /** Whether three sides form an isosceles triangle does not depend on their order. */
  lemma IsoscelesOrderFree(a: int, b: int, c: int)
    ensures IsIsoscelesTriangle(a, b, c) == IsIsoscelesTriangle(b, a, c)
    ensures IsIsoscelesTriangle(a, b, c) == IsIsoscelesTriangle(a, c, b)
    ensures IsIsoscelesTriangle(a, b, c) == IsIsoscelesTriangle(c, b, a)
  {
  }

  /** The examples on isIsoscelesTriangle. */
  lemma IsoscelesExamples()
    ensures !IsIsoscelesTriangle(1, 2, 3) && !IsIsoscelesTriangle(3, 1, 2)
    ensures IsIsoscelesTriangle(2, 3, 2) && IsIsoscelesTriangle(3, 2, 2)
    ensures IsIsoscelesTriangle(2, 2, 3)
    ensures !IsIsoscelesTriangle(2, 2, 5) && !IsIsoscelesTriangle(3, 0, 3)
  {
  }
}
