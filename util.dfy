/** The numeric helpers of `util.rs`. */
module Util {
  import opened RealArith

  /** `std::f64::consts::PI`, written with the digits of the literal that defines it. */
  const Pi: real := 3.14159265358979323846264338327950288

  /** `degrees * PI / 180`. */
  function DegreesToRadians(degrees: real): (radians: real)
    ensures radians * 180.0 == degrees * Pi
    ensures degrees == 180.0 ==> radians == Pi
    ensures degrees == 0.0 ==> radians == 0.0
  {
    degrees * Pi / 180.0
  }

  /** The conversion is additive and strictly increasing. */
  lemma DegreesToRadiansLinear(a: real, b: real)
    ensures DegreesToRadians(a + b) == DegreesToRadians(a) + DegreesToRadians(b)
    ensures a < b ==> DegreesToRadians(a) < DegreesToRadians(b)
  {
  }

  /**
   * `min + (max - min) * rand::random::<f64>()`, with the random draw `u` passed in;
   * the generator draws `u` from [0, 1).
   */
  function RandomDouble(min: real, max: real, u: real): (r: real)
    ensures u == 0.0 ==> r == min
    ensures min < max && 0.0 <= u < 1.0 ==> min <= r < max
  {
    InWidthWhenOrdered(min, max, u);
    min + (max - min) * u
  }

  /** A draw of 0 gives `lo`; a draw in [0, 1) over a non-empty width stays in [lo, hi). */
  lemma InWidthWhenOrdered(lo: real, hi: real, u: real)
    ensures u == 0.0 ==> lo + (hi - lo) * u == lo
    ensures lo < hi && 0.0 <= u < 1.0 ==> lo <= lo + (hi - lo) * u < hi
  {
    if u == 0.0 {
      assert (hi - lo) * u == 0.0;
    }
    if lo < hi && 0.0 <= u < 1.0 {
      FractionOfWidth(lo, hi, u);
    }
  }
}
