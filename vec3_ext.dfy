/**
 * The vector helpers the materials call that are not among the modelled files:
 * `near_zero`, `reflect` and `refract` (written as in "Ray Tracing in One Weekend",
 * which the repository follows), with the properties the materials rely on.
 */
module VectorHelpers {
  import opened RealArith
  import opened Vectors

  function Abs(x: real): (a: real)
    ensures a >= 0.0 && (a == x || a == -x)
  {
    if x < 0.0 then -x else x
  }

  /** The bound below which a component counts as zero. */
  const NearZeroBound: real := 0.00000001

  /** `near_zero`: every component is within `1e-8` of zero. */
  predicate NearZero(v: Vec3)
  {
    Abs(v.x) < NearZeroBound && Abs(v.y) < NearZeroBound && Abs(v.z) < NearZeroBound
  }

  /** `reflect`: `v - 2 (v.n) n`, the mirror image of `v` in the plane normal to `n`. */
  function Reflect(v: Vec3, n: Vec3): Vec3
  {
    Sub(v, MulScalar(n, 2.0 * Dot(v, n)))
  }

  /** For a unit normal, reflecting flips the component of `v` along `n`. */
  lemma ReflectFlipsNormalPart(v: Vec3, n: Vec3)
    requires LengthSquared(n) == 1.0
    ensures Dot(Reflect(v, n), n) == -Dot(v, n)
  {
    var k := 2.0 * Dot(v, n);
    assert Dot(Reflect(v, n), n) == Dot(v, n) - k * Dot(n, n);
  }

  /** For a unit normal, reflecting keeps the length. */
  lemma ReflectKeepsLength(v: Vec3, n: Vec3)
    requires LengthSquared(n) == 1.0
    ensures LengthSquared(Reflect(v, n)) == LengthSquared(v)
  {
    var d := Dot(v, n);
    var m := MulScalar(n, 2.0 * d);
    DotSubSelf(v, m);
    DotScaled(v, n, 2.0 * d);
    DotScaledSelf(n, 2.0 * d);
    MirrorTerms(d);
  }

  lemma DotSubSelf(a: Vec3, b: Vec3)
    ensures Dot(Sub(a, b), Sub(a, b)) == Dot(a, a) - 2.0 * Dot(a, b) + Dot(b, b)
  {
  }

  lemma DotScaled(a: Vec3, n: Vec3, k: real)
    ensures Dot(a, MulScalar(n, k)) == k * Dot(a, n)
  {
  }

  lemma DotScaledSelf(n: Vec3, k: real)
    ensures Dot(MulScalar(n, k), MulScalar(n, k)) == k * k * Dot(n, n)
  {
  }

  lemma MirrorTerms(d: real)
    ensures 2.0 * ((2.0 * d) * d) == (2.0 * d) * (2.0 * d) * 1.0
  {
  }

  /** For a unit normal, reflecting twice gives the vector back. */
  lemma ReflectInvolution(v: Vec3, n: Vec3)
    requires LengthSquared(n) == 1.0
    ensures Reflect(Reflect(v, n), n) == v
  {
    ReflectFlipsNormalPart(v, n);
    var w := Reflect(v, n);
    assert Reflect(w, n) == Sub(w, MulScalar(n, -2.0 * Dot(v, n)));
  }

  /**
   * `refract`: the direction bent by Snell's law with `etai_over_etat`, as the sum of
   * the part perpendicular to `n` and the part parallel to it.
   */
  function Refract(uv: Vec3, n: Vec3, etaiOverEtat: real, sqrt: real -> real): Vec3
  {
    var d := Dot(Neg(uv), n);
    var cosTheta := if d < 1.0 then d else 1.0;
    var perpendicular := MulScalar(Add(uv, MulScalar(n, cosTheta)), etaiOverEtat);
    var parallel := MulScalar(n, -sqrt(Abs(1.0 - LengthSquared(perpendicular))));
    Add(perpendicular, parallel)
  }
}
