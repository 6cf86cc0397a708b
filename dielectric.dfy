/**
 * `material/dielectric.rs`: glass, which always scatters, either reflecting (when
 * Snell's law has no solution, or with Schlick's probability) or refracting.
 */
module Dielectrics {
  import opened Options
  import opened RealArith
  import opened Vectors
  import opened VectorHelpers
  import opened Rays
  import opened Materials
  import opened HittableMod

  /**
   * `refraction_ratio`: `1 / ior` when the ray enters through the front face, `ior`
   * when it leaves through the back face.
   */
  function RefractionRatio(frontFace: bool, ior: IndexOfRefraction): (ratio: IndexOfRefraction)
    ensures frontFace ==> ratio * ior == 1.0
    ensures !frontFace ==> ratio == ior
  {
    if frontFace then 1.0 / ior else ior
  }

  /** `powi`: `x` to the `n`-th power. */
  function Pow(x: real, n: nat): real
  {
    if n == 0 then 1.0 else x * Pow(x, n - 1)
  }

  lemma {:induction false} PowInUnit(x: real, n: nat)
    requires 0.0 <= x <= 1.0
    ensures 0.0 <= Pow(x, n) <= 1.0
  {
    if n > 0 {
      PowInUnit(x, n - 1);
      ProductInUnit(x, Pow(x, n - 1));
    }
  }

  /** `r0` of Schlick's approximation: the reflectance at normal incidence. */
  function NormalReflectance(refIdx: real): real
    requires refIdx != -1.0
  {
    var r0 := (1.0 - refIdx) / (1.0 + refIdx);
    r0 * r0
  }

  /** `reflectance`: Schlick's approximation `r0 + (1 - r0) (1 - cosine)^5`. */
  function Reflectance(cosine: real, refIdx: real): real
    requires refIdx != -1.0
  {
    var r0 := NormalReflectance(refIdx);
    r0 + (1.0 - r0) * Pow(1.0 - cosine, 5)
  }

  /** At grazing incidence everything is reflected; head on, `r0` is. */
  lemma ReflectanceEnds(refIdx: real)
    requires refIdx != -1.0
    ensures Reflectance(0.0, refIdx) == 1.0
    ensures Reflectance(1.0, refIdx) == ((1.0 - refIdx) / (1.0 + refIdx)) * ((1.0 - refIdx) / (1.0 + refIdx))
  {
    assert Pow(1.0, 5) == 1.0;
    assert Pow(0.0, 5) == 0.0;
  }

  /** For a positive ratio, `r0` is a probability below 1. */
  lemma NormalReflectanceInUnit(refIdx: real)
    requires refIdx > 0.0
    ensures 0.0 <= NormalReflectance(refIdx) < 1.0
  {
    var r0 := (1.0 - refIdx) / (1.0 + refIdx);
    assert r0 * (1.0 + refIdx) == 1.0 - refIdx;
    assert -1.0 < r0 < 1.0;
    if r0 >= 0.0 {
      SquareStrictMono(1.0, r0);
    } else {
      SquareStrictMono(1.0, -r0);
    }
    SquareNonNegative(r0);
  }

  /** For `cosine` in [0, 1] and a positive ratio, the reflectance is a probability. */
  lemma ReflectanceInUnit(cosine: real, refIdx: real)
    requires 0.0 <= cosine <= 1.0 && refIdx > 0.0
    ensures 0.0 <= Reflectance(cosine, refIdx) <= 1.0
  {
    var r0 := NormalReflectance(refIdx);
    var p := Pow(1.0 - cosine, 5);
    NormalReflectanceInUnit(refIdx);
    PowInUnit(1.0 - cosine, 5);
    MulNonNegative(1.0 - r0, p);
    MulNonNegative(1.0 - r0, 1.0 - p);
  }

  /** `cos_theta`: the cosine between the reversed direction and the normal, capped at 1. */
  function CosTheta(unitDirection: Vec3, normal: Vec3): (c: real)
    ensures c <= 1.0
    ensures Dot(Neg(unitDirection), normal) <= 1.0 ==> c == Dot(Neg(unitDirection), normal)
  {
    var d := Dot(Neg(unitDirection), normal);
    if d < 1.0 then d else 1.0
  }

  /** `sin_theta`: `sqrt(1 - cos^2)`. */
  function SinTheta(cosTheta: real, sqrt: real -> real): real
  {
    sqrt(1.0 - cosTheta * cosTheta)
  }

  /**
   * `cannot_refract`: `ratio * sin_theta > 1`. When `1 - cos^2` is negative the
   * source's square root is NaN and the comparison false.
   */
  predicate CannotRefract(ratio: real, cosTheta: real, sqrt: real -> real)
  {
    1.0 - cosTheta * cosTheta >= 0.0 && ratio * SinTheta(cosTheta, sqrt) > 1.0
  }

  /**
   * Snell's law can fail only when leaving the denser medium: with `cos` in [-1, 1] and
   * a ratio of at most 1 (entering glass from air), refraction is always possible.
   */
  lemma RefractionPossibleBelowOne(ratio: real, cosTheta: real, sqrt: real -> real)
    requires IsSqrt(sqrt)
    requires ratio <= 1.0 && -1.0 <= cosTheta <= 1.0
    ensures !CannotRefract(ratio, cosTheta, sqrt)
  {
    SinThetaInUnit(cosTheta, sqrt);
    ScaledAtMostOne(ratio, SinTheta(cosTheta, sqrt));
    RefractionPossible(ratio, cosTheta, sqrt);
  }

  lemma RefractionPossible(ratio: real, cosTheta: real, sqrt: real -> real)
    requires ratio * SinTheta(cosTheta, sqrt) <= 1.0
    ensures !CannotRefract(ratio, cosTheta, sqrt)
  {
  }

  /** `sin_theta` lies in [0, 1] for `cos` in [-1, 1]. */
  lemma SinThetaInUnit(cosTheta: real, sqrt: real -> real)
    requires IsSqrt(sqrt)
    requires -1.0 <= cosTheta <= 1.0
    ensures 0.0 <= SinTheta(cosTheta, sqrt) <= 1.0
  {
    SquareNonNegative(cosTheta);
    ProductInUnit(Abs(cosTheta), Abs(cosTheta));
    assert Abs(cosTheta) * Abs(cosTheta) == cosTheta * cosTheta;
    AbsBound(SinTheta(cosTheta, sqrt), 1.0);
  }

  lemma ScaledAtMostOne(k: real, s: real)
    requires k <= 1.0 && 0.0 <= s <= 1.0
    ensures k * s <= 1.0
  {
    if k >= 0.0 {
      ProductInUnit(k, s);
    } else {
      MulNonNegative(-k, s);
    }
  }

  /** Whether the ray is reflected: Snell's law has no solution, or Schlick's draw says so. */
  predicate Reflects(ratio: IndexOfRefraction, cosTheta: real, u: real, sqrt: real -> real)
  {
    CannotRefract(ratio, cosTheta, sqrt) || Reflectance(cosTheta, ratio) > u
  }

  /**
   * `Dielectric::scatter` with `u` the `random_double()` draw: always scatters from the
   * hit point with attenuation (1, 1, 1), reflecting the unit direction when
   * `Reflects` holds and refracting it with the ratio otherwise.
   */
  function Scatter(ior: IndexOfRefraction, rIn: Ray, rec: HitRecord, u: real, sqrt: real -> real)
    : (s: Option<Scattered>)
    requires IsSqrt(sqrt)
    requires LengthSquared(rIn.direction) > 0.0
    ensures s.Some? && s.value.attenuation == White && s.value.scattered.origin == rec.p
    ensures var unit := UnitVector(rIn.direction, sqrt);
      var ratio := RefractionRatio(rec.frontFace, ior);
      s.value.scattered.direction
        == if Reflects(ratio, CosTheta(unit, rec.normal), u, sqrt) then Reflect(unit, rec.normal)
           else Refract(unit, rec.normal, ratio, sqrt)
  {
    var attenuation := White;
    var refractionRatio := RefractionRatio(rec.frontFace, ior);
    var unitDirection := UnitVector(rIn.direction, sqrt);
    var cosTheta := CosTheta(unitDirection, rec.normal);
    var cannotRefract := CannotRefract(refractionRatio, cosTheta, sqrt);
    var schlick := Reflectance(cosTheta, refractionRatio) > u;
    var direction := if cannotRefract || schlick then Reflect(unitDirection, rec.normal)
                     else Refract(unitDirection, rec.normal, refractionRatio, sqrt);
    Some(Scattered(attenuation, Ray(rec.p, direction)))
  }

  /** When Snell's law has no solution the ray is reflected whatever the random draw. */
  lemma ForcedReflection(ior: IndexOfRefraction, rIn: Ray, rec: HitRecord, u1: real, u2: real, sqrt: real -> real)
    requires IsSqrt(sqrt)
    requires LengthSquared(rIn.direction) > 0.0
    requires CannotRefract(RefractionRatio(rec.frontFace, ior), CosTheta(UnitVector(rIn.direction, sqrt), rec.normal), sqrt)
    ensures Scatter(ior, rIn, rec, u1, sqrt) == Scatter(ior, rIn, rec, u2, sqrt)
    ensures Scatter(ior, rIn, rec, u1, sqrt).value.scattered.direction
         == Reflect(UnitVector(rIn.direction, sqrt), rec.normal)
  {
  }

  /** When refraction is possible and the draw is at least the reflectance, the ray refracts. */
  lemma Refracts(ior: IndexOfRefraction, rIn: Ray, rec: HitRecord, u: real, sqrt: real -> real)
    requires IsSqrt(sqrt)
    requires LengthSquared(rIn.direction) > 0.0
    requires var ratio := RefractionRatio(rec.frontFace, ior);
      var cosTheta := CosTheta(UnitVector(rIn.direction, sqrt), rec.normal);
      !CannotRefract(ratio, cosTheta, sqrt) && Reflectance(cosTheta, ratio) <= u
    ensures Scatter(ior, rIn, rec, u, sqrt).value.scattered.direction
         == Refract(UnitVector(rIn.direction, sqrt), rec.normal, RefractionRatio(rec.frontFace, ior), sqrt)
  {
  }

  /**
   * A ray entering glass (`ior >= 1`) through the front face with a unit normal is
   * never forced to reflect: it refracts unless Schlick's draw says otherwise.
   */
  lemma EnteringNeverForced(ior: IndexOfRefraction, rIn: Ray, rec: HitRecord, sqrt: real -> real)
    requires IsSqrt(sqrt)
    requires LengthSquared(rIn.direction) > 0.0
    requires LengthSquared(rec.normal) == 1.0
    requires ior >= 1.0 && rec.frontFace
    ensures !CannotRefract(RefractionRatio(rec.frontFace, ior), CosTheta(UnitVector(rIn.direction, sqrt), rec.normal), sqrt)
  {
    var unit := UnitVector(rIn.direction, sqrt);
    var ratio := RefractionRatio(rec.frontFace, ior);
    assert ratio <= 1.0 by {
      assert ratio * ior == 1.0;
    }
    UnitDotBound(Neg(unit), rec.normal);
    RefractionPossibleBelowOne(ratio, CosTheta(unit, rec.normal), sqrt);
  }

  /** The dot product of two unit vectors is at least -1. */
  lemma UnitDotBound(a: Vec3, b: Vec3)
    requires LengthSquared(a) == 1.0 && LengthSquared(b) == 1.0
    ensures Dot(a, b) >= -1.0
  {
    var s := Add(a, b);
    assert LengthSquared(s) >= 0.0;
    assert Dot(s, s) == Dot(a, a) + 2.0 * Dot(a, b) + Dot(b, b);
  }
}
