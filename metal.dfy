/**
 * `material/metal.rs`: mirror reflection of the unit incoming direction, blurred by
 * `fuzz` times a random unit vector; the ray is absorbed unless it leaves the surface.
 */
module Metals {
  import opened Options
  import opened RealArith
  import opened Vectors
  import opened VectorHelpers
  import opened Rays
  import opened Materials
  import opened HittableMod

  /** The direction `Metal::scatter` sends the ray in, before the absorption test. */
  function FuzzedReflection(fuzz: real, rIn: Ray, rec: HitRecord, randomUnit: Vec3, sqrt: real -> real): Vec3
    requires IsSqrt(sqrt)
    requires LengthSquared(rIn.direction) > 0.0
  {
    Add(Reflect(UnitVector(rIn.direction, sqrt), rec.normal), ScalarMul(fuzz, randomUnit))
  }

  /**
   * `Metal::scatter`: scatters from the hit point along the fuzzed reflection, with
   * the albedo as attenuation, exactly when that direction makes a positive dot
   * product with the normal; otherwise the ray is absorbed.
   */
  function Scatter(albedo: Vec3, fuzz: real, rIn: Ray, rec: HitRecord, randomUnit: Vec3, sqrt: real -> real)
    : (s: Option<Scattered>)
    requires IsSqrt(sqrt)
    requires LengthSquared(rIn.direction) > 0.0
    ensures s.Some? <==> Dot(FuzzedReflection(fuzz, rIn, rec, randomUnit, sqrt), rec.normal) > 0.0
    ensures s.Some? ==>
      && s.value.attenuation == albedo
      && s.value.scattered.origin == rec.p
      && s.value.scattered.direction == FuzzedReflection(fuzz, rIn, rec, randomUnit, sqrt)
      && Dot(s.value.scattered.direction, rec.normal) > 0.0
  {
    var reflected := Reflect(UnitVector(rIn.direction, sqrt), rec.normal);
    var scattered := Ray(rec.p, Add(reflected, ScalarMul(fuzz, randomUnit)));
    var attenuation := albedo;
    if Dot(scattered.direction, rec.normal) > 0.0 then Some(Scattered(attenuation, scattered)) else None
  }

  /** Without fuzz the scattered direction is the mirror reflection of the unit direction. */
  lemma ScatterWithoutFuzz(albedo: Vec3, rIn: Ray, rec: HitRecord, randomUnit: Vec3, sqrt: real -> real)
    requires IsSqrt(sqrt)
    requires LengthSquared(rIn.direction) > 0.0
    ensures FuzzedReflection(0.0, rIn, rec, randomUnit, sqrt) == Reflect(UnitVector(rIn.direction, sqrt), rec.normal)
  {
  }

  /**
   * Without fuzz and with a unit normal, a ray scatters exactly when it travels against
   * the normal; a ray that grazes the surface or comes from behind it is absorbed.
   */
  lemma MirrorScattersIff(albedo: Vec3, rIn: Ray, rec: HitRecord, randomUnit: Vec3, sqrt: real -> real)
    requires IsSqrt(sqrt)
    requires LengthSquared(rIn.direction) > 0.0
    requires LengthSquared(rec.normal) == 1.0
    ensures Scatter(albedo, 0.0, rIn, rec, randomUnit, sqrt).Some? <==> Dot(rIn.direction, rec.normal) < 0.0
  {
    var unit := UnitVector(rIn.direction, sqrt);
    var k := 1.0 / Length(rIn.direction, sqrt);
    ScatterWithoutFuzz(albedo, rIn, rec, randomUnit, sqrt);
    ReflectFlipsNormalPart(unit, rec.normal);
    assert Dot(unit, rec.normal) == k * Dot(rIn.direction, rec.normal);
    PositiveScaleKeepsSign(k, Dot(rIn.direction, rec.normal));
  }
}
