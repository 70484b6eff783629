/**
 * Python floats as the map helpers use them: either NaN or a finite value.
 * Finite values are held exactly as reals, so IEEE rounding is not modelled.
 */
module Floats {

  datatype Float = NaN | Num(value: real)

  /** `int(x)` on a finite float: truncation toward zero. */
  function Trunc(x: real): (n: int)
    ensures 0.0 <= x ==> 0 <= n && n as real <= x < n as real + 1.0
    ensures x < 0.0 ==> n <= 0 && n as real - 1.0 < x <= n as real
  {
    if x >= 0.0 then x.Floor else -((-x).Floor)
  }

  /** Truncation leaves whole numbers alone. */
  lemma TruncOfInt(n: int)
    ensures Trunc(n as real) == n
  {
  }

  /** `x < y`; every comparison with NaN is false. */
  predicate FloatLess(x: Float, y: Float)
  {
    x.Num? && y.Num? && x.value < y.value
  }

  /** `x + d` */
  function Plus(x: Float, d: real): Float
  {
    if x.NaN? then NaN else Num(x.value + d)
  }

  /** `x / d` for a non-zero `d` */
  function Over(x: Float, d: real): Float
    requires d != 0.0
  {
    if x.NaN? then NaN else Num(x.value / d)
  }

  /** `x * d` */
  function Times(x: Float, d: real): Float
  {
    if x.NaN? then NaN else Num(x.value * d)
  }

  /** The midpoint of `x` and `y`. */
  function Mid(x: Float, y: Float): Float
  {
    if x.NaN? || y.NaN? then NaN else Num((x.value + y.value) / 2.0)
  }

  /** Python's `min(a, b)`: the first argument unless the second is smaller. */
  function PyMin(a: Float, b: Float): (r: Float)
    ensures a.Num? && b.Num? ==> r.Num? && r.value <= a.value && r.value <= b.value
                                 && (r == a || r == b)
    ensures b.NaN? ==> r == a
    ensures a.NaN? ==> r == a
  {
    if FloatLess(b, a) then b else a
  }

  /** Python's `max(a, b)`: the first argument unless the second is larger. */
  function PyMax(a: Float, b: Float): (r: Float)
    ensures a.Num? && b.Num? ==> r.Num? && a.value <= r.value && b.value <= r.value
                                 && (r == a || r == b)
    ensures b.NaN? ==> r == a
    ensures a.NaN? ==> r == a
  {
    if FloatLess(a, b) then b else a
  }
}
