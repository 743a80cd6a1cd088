/**
 * The numeric capabilities the octree asks of its coordinate type (src/util.rs),
 * stated once over unbounded integers instead of once per primitive type.
 */
module Numeric {

  /**
   * Rust's integer `x / 2`: the quotient truncated toward zero. Dafny's own `/`
   * is Euclidean and rounds negative odd numbers down instead, so it is not used
   * on negative operands here.
   */
  function Half(x: int): (h: int)
    ensures 0 <= x ==> 0 <= 2 * h <= x <= 2 * h + 1
    ensures x < 0 ==> 2 * h - 1 <= x <= 2 * h <= 0
  {
    if 0 <= x then x / 2 else -((-x) / 2)
  }

  /** Halving commutes with negation, which a floor division would not do. */
  lemma HalfCommutesWithNegation(x: int)
    ensures Half(-x) == -Half(x)
  {
  }

  /** The absolute value of a signed integer. */
  function Abs(x: int): (a: int)
    ensures 0 <= a
    ensures a == x || a == -x
  {
    if x < 0 then -x else x
  }

  /** The non-negativity test of a signed integer. */
  predicate IsNonNegative(x: int)
    ensures IsNonNegative(x) <==> Abs(x) == x
  {
    0 <= x
  }
}
