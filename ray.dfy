/**
 * `ray.rs`: a ray, the points along it, and the first lesson's sphere test and
 * background colouring.
 */
module Rays {
  import opened RealArith
  import opened Vectors

  const LightBlue := Vec3(0.5, 0.7, 1.0)
  const White := Vec3(1.0, 1.0, 1.0)
  const Red := Vec3(1.0, 0.0, 0.0)

  datatype Ray = Ray(origin: Vec3, direction: Vec3)

  /** `Ray::new`. */
  function New(origin: Vec3, direction: Vec3): (r: Ray)
    ensures r.origin == origin && r.direction == direction
  {
    Ray(origin, direction)
  }

  /** `origin + direction * t`: the point reached after moving `t` times the direction. */
  function At(r: Ray, t: real): (p: Vec3)
    ensures Sub(p, r.origin) == MulScalar(r.direction, t)
    ensures t == 0.0 ==> p == r.origin
    ensures t == 1.0 ==> p == Add(r.origin, r.direction)
  {
    Add(r.origin, MulScalar(r.direction, t))
  }

  /** Moving `s` and then `t` along the ray is moving `s + t`. */
  lemma AtShift(r: Ray, s: real, t: real)
    ensures At(r, s + t) == Add(At(r, s), MulScalar(r.direction, t))
  {
  }

  /** `p` lies on the sphere of the given centre and radius. */
  predicate OnSphere(center: Vec3, radius: real, p: Vec3)
  {
    LengthSquared(Sub(p, center)) == radius * radius
  }

  /**
   * The squared distance from `center` of the point at `t` is the quadratic
   * `(d.d) t^2 + 2 (oc.d) t + oc.oc`, where `oc` runs from the centre to the origin.
   */
  lemma AtDistanceSquared(r: Ray, center: Vec3, t: real)
    ensures LengthSquared(Sub(At(r, t), center))
         == Quadratic(Dot(r.direction, r.direction), Dot(Sub(r.origin, center), r.direction),
                      Dot(Sub(r.origin, center), Sub(r.origin, center)), t)
  {
    var oc := Sub(r.origin, center);
    var d := r.direction;
    assert Sub(At(r, t), center) == Vec3(oc.x + d.x * t, oc.y + d.y * t, oc.z + d.z * t);
  }

  /** The point at `t` is on the sphere exactly when `t` is a root of that quadratic. */
  lemma OnSphereQuadratic(center: Vec3, radius: real, r: Ray, t: real)
    ensures OnSphere(center, radius, At(r, t)) <==>
      Quadratic(Dot(r.direction, r.direction), Dot(Sub(r.origin, center), r.direction),
                Dot(Sub(r.origin, center), Sub(r.origin, center)), t) == radius * radius
  {
    AtDistanceSquared(r, center, t);
  }

  /**
   * `hit_sphere`: whether the quadratic for the sphere has a real root, decided
   * from the sign of its discriminant without a square root.
   */
  function HitSphere(center: Vec3, radius: real, r: Ray): bool
  {
    var oc := Sub(r.origin, center);
    var a := Dot(r.direction, r.direction);
    var b := 2.0 * Dot(oc, r.direction);
    var c := Dot(oc, oc) - radius * radius;
    var discriminant := b * b - 4.0 * a * c;
    discriminant >= 0.0
  }

  /** The discriminant is four times its "half b" form. */
  lemma HitSphereReduced(center: Vec3, radius: real, r: Ray)
    ensures HitSphere(center, radius, r)
        <==> Dot(Sub(r.origin, center), r.direction) * Dot(Sub(r.origin, center), r.direction)
             - Product(Dot(r.direction, r.direction),
                       Dot(Sub(r.origin, center), Sub(r.origin, center)) - radius * radius) >= 0.0
  {
    assert Product(Dot(r.direction, r.direction),
                   Dot(Sub(r.origin, center), Sub(r.origin, center)) - radius * radius)
        == Dot(r.direction, r.direction)
         * (Dot(Sub(r.origin, center), Sub(r.origin, center)) - radius * radius);
  }

  /** A ray starting inside or on the sphere always passes the test. */
  lemma HitSphereFromInside(center: Vec3, radius: real, r: Ray)
    requires LengthSquared(Sub(r.origin, center)) <= radius * radius
    ensures HitSphere(center, radius, r)
  {
    HitSphereReduced(center, radius, r);
    ProductNonPositive(Dot(r.direction, r.direction),
                       Dot(Sub(r.origin, center), Sub(r.origin, center)) - radius * radius);
    SquareNonNegative(Dot(Sub(r.origin, center), r.direction));
  }

  /** A ray with a point on the sphere passes the test. */
  lemma HitSphereSound(center: Vec3, radius: real, r: Ray, t: real)
    requires OnSphere(center, radius, At(r, t))
    ensures HitSphere(center, radius, r)
  {
    AtDistanceSquared(r, center, t);
    HitSphereReduced(center, radius, r);
    HalfBDiscriminantOfRoot(Dot(r.direction, r.direction),
                            Dot(Sub(r.origin, center), r.direction),
                            Dot(Sub(r.origin, center), Sub(r.origin, center)) - radius * radius,
                            t);
  }

  /**
   * Conversely, a ray with a non-zero direction that passes the test meets the
   * sphere, at the smaller root of the quadratic.
   */
  lemma HitSphereComplete(center: Vec3, radius: real, r: Ray, sqrt: real -> real)
    requires IsSqrt(sqrt)
    requires LengthSquared(r.direction) > 0.0
    requires HitSphere(center, radius, r)
    ensures exists t :: OnSphere(center, radius, At(r, t))
  {
    var a := Dot(r.direction, r.direction);
    var h := Dot(Sub(r.origin, center), r.direction);
    var c := Dot(Sub(r.origin, center), Sub(r.origin, center)) - radius * radius;
    HitSphereReduced(center, radius, r);
    var s := sqrt(h * h - Product(a, c));
    var t := (-h - s) / a;
    HalfBRoots(a, h, c, s, t);
    AtDistanceSquared(r, center, t);
    assert OnSphere(center, radius, At(r, t));
  }

  /** For a non-zero direction the test is exact: it passes iff the ray meets the sphere. */
  lemma HitSphereIff(center: Vec3, radius: real, r: Ray, sqrt: real -> real)
    requires IsSqrt(sqrt)
    requires LengthSquared(r.direction) > 0.0
    ensures HitSphere(center, radius, r) <==> exists t :: OnSphere(center, radius, At(r, t))
  {
    if HitSphere(center, radius, r) {
      HitSphereComplete(center, radius, r, sqrt);
    }
    if exists t :: OnSphere(center, radius, At(r, t)) {
      var t :| OnSphere(center, radius, At(r, t));
      HitSphereSound(center, radius, r, t);
    }
  }

  /**
   * A ray with a zero direction passes the test for every sphere (its discriminant
   * is zero), so `ray_color` never normalises a zero direction.
   */
  lemma ZeroDirectionHits(center: Vec3, radius: real, r: Ray)
    ensures LengthSquared(r.direction) > 0.0 || HitSphere(center, radius, r)
  {
    if LengthSquared(r.direction) <= 0.0 {
      ZeroLengthIsZero(r.direction);
      HitSphereZeroDirection(center, radius, r);
    }
  }

  lemma HitSphereZeroDirection(center: Vec3, radius: real, r: Ray)
    requires r.direction == Zero
    ensures HitSphere(center, radius, r)
  {
    HitSphereReduced(center, radius, r);
    assert Dot(Sub(r.origin, center), r.direction) == 0.0;
    assert Dot(r.direction, r.direction) == 0.0;
    ProductOfZero(Dot(r.direction, r.direction),
                  Dot(Sub(r.origin, center), Sub(r.origin, center)) - radius * radius);
  }

  /**
   * `(1 - a) * WHITE + a * LIGHT_BLUE` with `a = 0.5 (y + 1)`: the background blends
   * from white at `y = -1` to light blue at `y = 1`.
   */
  function SkyGradient(y: real): (c: Vec3)
    ensures c.z == 1.0
    ensures y == 1.0 ==> c == LightBlue
    ensures y == -1.0 ==> c == White
    ensures -1.0 <= y <= 1.0 ==>
      LightBlue.x <= c.x <= White.x && LightBlue.y <= c.y <= White.y
    ensures c.x == 0.75 - 0.25 * y && c.y == 0.85 - 0.15 * y
  {
    var a := 0.5 * (y + 1.0);
    Add(ScalarMul(1.0 - a, White), ScalarMul(a, LightBlue))
  }

  const SphereCenter := Vec3(0.0, 0.0, -1.0)
  const SphereRadius := 0.5

  /**
   * `Ray::ray_color`: red where the ray passes the test for the sphere of radius 0.5
   * at (0, 0, -1), the background gradient of the unit direction elsewhere.
   */
  function RayColor(r: Ray, sqrt: real -> real): (c: Vec3)
    requires IsSqrt(sqrt)
    ensures c == Red <==> HitSphere(SphereCenter, SphereRadius, r)
    ensures !HitSphere(SphereCenter, SphereRadius, r) ==>
      LengthSquared(r.direction) > 0.0 && c == SkyGradient(UnitVector(r.direction, sqrt).y)
  {
    if HitSphere(SphereCenter, SphereRadius, r) then
      Red
    else
      ZeroDirectionHits(SphereCenter, SphereRadius, r);
      var unitDirection := UnitVector(r.direction, sqrt);
      SkyGradient(unitDirection.y)
  }

  /** The background colour of `RayColor` lies between white and light blue. */
  lemma RayColorMissBounds(r: Ray, sqrt: real -> real)
    requires IsSqrt(sqrt)
    requires !HitSphere(SphereCenter, SphereRadius, r)
    ensures var c := RayColor(r, sqrt);
      LightBlue.x <= c.x <= White.x && LightBlue.y <= c.y <= White.y && c.z == 1.0
  {
  }
}
