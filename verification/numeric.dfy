/** Integer conversions of the C++ and Python sources, stated over exact
    arithmetic. */
module Numeric {
  /** `EPSILON`, the damping term added to the divisors of averages. */
  const Epsilon: real := 0.0000001

  /** C `round`: halves are rounded away from zero. */
  function Round(v: real): (r: int)
    ensures v >= 0.0 ==> r >= 0
    ensures (r as real) - 0.5 <= v <= (r as real) + 0.5
    ensures v >= 0.0 ==> v < (r as real) + 0.5
    ensures v < 0.0 ==> (r as real) - 0.5 < v
  {
    if v >= 0.0 then (v + 0.5).Floor else -((-v + 0.5).Floor)
  }

  /** A value within `[lo, hi]` rounds into `[lo, hi]` when the bounds are
      integers. */
  lemma RoundWithin(v: real, lo: int, hi: int)
    requires lo as real <= v <= hi as real
    ensures lo <= Round(v) <= hi
  {
  }

  /** Python `int()` of a float: the integer part, truncated toward zero. */
  function Trunc(v: real): (r: int)
    ensures v >= 0.0 ==> 0 <= r && r as real <= v < r as real + 1.0
    ensures v < 0.0 ==> r <= 0 && r as real - 1.0 < v <= r as real
  {
    if v >= 0.0 then v.Floor else -((-v).Floor)
  }

  /** Python `//` on integers: the quotient rounded toward minus infinity. */
  function FloorDiv(a: int, b: int): (q: int)
    requires b != 0
    ensures b > 0 ==> b * q <= a < b * q + b
    ensures b < 0 ==> b * q >= a > b * q + b
  {
    if b > 0 then a / b else (-a) / (-b)
  }

  function Abs(v: int): (r: nat)
    ensures r == v || r == -v
  {
    if v < 0 then -v else v
  }

  function AbsReal(v: real): (r: real)
    ensures r >= 0.0 && (r == v || r == -v)
  {
    if v < 0.0 then -v else v
  }

  function Max(a: int, b: int): (r: int)
    ensures r >= a && r >= b && (r == a || r == b)
  {
    if a >= b then a else b
  }
}
