/**
 * `hittable.rs`: the hit record of the lesson whose `hit` takes `ray_tmin` and
 * `ray_tmax`, and the orientation of its normal against the ray.
 */
module Hittable {
  import opened Vectors
  import opened Rays

  /** The ray strikes the front face when it travels against the outward normal. */
  predicate FrontFace(r: Ray, outward: Vec3)
  {
    Dot(r.direction, outward) < 0.0
  }

  /**
   * The normal `set_face_normal` stores: the outward normal on the front face, its
   * negation on the back face. It never points along the ray, keeps the length of
   * the outward normal, and points strictly against the ray unless the ray grazes
   * the surface.
   */
  function FacingNormal(r: Ray, outward: Vec3): (n: Vec3)
    ensures n == outward || n == Neg(outward)
    ensures Dot(r.direction, n) <= 0.0
    ensures Dot(r.direction, outward) != 0.0 ==> Dot(r.direction, n) < 0.0
    ensures LengthSquared(n) == LengthSquared(outward)
    ensures Dot(r.direction, n) * Dot(r.direction, n)
         == Dot(r.direction, outward) * Dot(r.direction, outward)
  {
    if FrontFace(r, outward) then outward else Neg(outward)
  }

  /** `FacingNormal` tells the two faces apart exactly when the outward normal is not zero. */
  lemma FacingNormalFace(r: Ray, outward: Vec3)
    requires outward != Zero
    ensures FacingNormal(r, outward) == outward <==> FrontFace(r, outward)
    ensures FacingNormal(r, outward) == Neg(outward) <==> !FrontFace(r, outward)
  {
  }

  /** `HitRecord`, whose `Default` is all zeros and `false`. */
  class HitRecord {
    var frontFace: bool
    var normal: Vec3
    var p: Vec3
    var t: real

    constructor ()
      ensures !frontFace && normal == Zero && p == Zero && t == 0.0
    {
      frontFace := false;
      normal := Zero;
      p := Zero;
      t := 0.0;
    }

    /**
     * `set_face_normal`: records which face the ray struck and stores the normal
     * oriented against the ray; `p` and `t` are left alone.
     */
    method SetFaceNormal(r: Ray, outward: Vec3)
      modifies this
      ensures frontFace == FrontFace(r, outward)
      ensures normal == FacingNormal(r, outward)
      ensures p == old(p) && t == old(t)
    {
      frontFace := Dot(r.direction, outward) < 0.0;
      normal := if frontFace then outward else Neg(outward);
    }
  }

  /**
   * A fresh record after `SetFaceNormal`: the face it reports and the normal it
   * stores, which never points along the ray.
   */
  method RecordFace(r: Ray, outward: Vec3) returns (front: bool, n: Vec3)
    ensures front == FrontFace(r, outward)
    ensures Dot(r.direction, n) <= 0.0
    ensures LengthSquared(n) == LengthSquared(outward)
    ensures front ==> n == outward
    ensures !front ==> n == Neg(outward)
  {
    var rec := new HitRecord();
    rec.SetFaceNormal(r, outward);
    front, n := rec.frontFace, rec.normal;
  }
}
