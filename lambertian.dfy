/**
 * `material/lambertian.rs`: diffuse scattering along the normal plus a random unit
 * vector, falling back to the normal when that sum is degenerate.
 */
module Lambertians {
  import opened Options
  import opened RealArith
  import opened Vectors
  import opened VectorHelpers
  import opened Rays
  import opened Materials
  import opened HittableMod

  /**
   * `Lambertian::scatter`: always scatters from the hit point with the albedo as
   * attenuation, towards `normal + random_unit` unless that is near zero, in which
   * case towards the normal itself. The incoming ray is not used.
   */
  function Scatter(albedo: Vec3, rIn: Ray, rec: HitRecord, randomUnit: Vec3): (s: Option<Scattered>)
    ensures s.Some? && s.value.attenuation == albedo && s.value.scattered.origin == rec.p
    ensures !NearZero(Add(rec.normal, randomUnit)) ==> s.value.scattered.direction == Add(rec.normal, randomUnit)
    ensures NearZero(Add(rec.normal, randomUnit)) ==> s.value.scattered.direction == rec.normal
  {
    var scatterDirection := Add(rec.normal, randomUnit);
    var direction := if NearZero(scatterDirection) then rec.normal else scatterDirection;
    Some(Scattered(albedo, Ray(rec.p, direction)))
  }

  /** The scattered ray is the same whatever the incoming ray. */
  lemma ScatterIgnoresIncoming(albedo: Vec3, r1: Ray, r2: Ray, rec: HitRecord, randomUnit: Vec3)
    ensures Scatter(albedo, r1, rec, randomUnit) == Scatter(albedo, r2, rec, randomUnit)
  {
  }

  /** The fallback keeps the direction away from zero whenever the normal is. */
  lemma ScatterNotDegenerate(albedo: Vec3, rIn: Ray, rec: HitRecord, randomUnit: Vec3)
    requires !NearZero(rec.normal)
    ensures !NearZero(Scatter(albedo, rIn, rec, randomUnit).value.scattered.direction)
  {
  }

  /** A unit vector is never near zero: its squared components sum to 1. */
  lemma UnitNotNearZero(n: Vec3)
    requires LengthSquared(n) == 1.0
    ensures !NearZero(n)
  {
    if NearZero(n) {
      var b := NearZeroBound;
      SquareStrictMono(b, Abs(n.x));
      SquareStrictMono(b, Abs(n.y));
      SquareStrictMono(b, Abs(n.z));
      assert false;
    }
  }

  /** For a unit normal, the scattered direction is never near zero, hence never zero. */
  lemma ScatterDirectionNonZero(albedo: Vec3, rIn: Ray, rec: HitRecord, randomUnit: Vec3)
    requires LengthSquared(rec.normal) == 1.0
    ensures !NearZero(Scatter(albedo, rIn, rec, randomUnit).value.scattered.direction)
    ensures Scatter(albedo, rIn, rec, randomUnit).value.scattered.direction != Zero
  {
    UnitNotNearZero(rec.normal);
    ScatterNotDegenerate(albedo, rIn, rec, randomUnit);
  }
}
