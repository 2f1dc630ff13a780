/** JavaScript's integer arithmetic where it differs from Dafny's. */
module Math {

  /** Math.abs on integers. */
  function Abs(x: int): (r: nat)
    ensures r == x || r == -x
  {
    if x < 0 then -x else x
  }

  /**
   * JavaScript's remainder operator `%` for a positive divisor: it truncates toward zero, so
   * the remainder takes the sign of the dividend, where Dafny's `%` is never negative.
   */
  function Rem(x: int, m: int): (r: int)
    requires m > 0
    ensures -m < r < m
    ensures x >= 0 ==> r == x % m
    ensures x <= 0 ==> r <= 0
  {
    if x >= 0 then x % m else -((-x) % m)
  }
}
