/**
 * `hittable_list.rs`: a list of hittable objects whose `hit` queries every member
 * in order, narrowing the upper end of the `t` window to the nearest hit so far.
 *
 * The `Hittable` trait becomes the closed datatype `Object`; its one variant is the
 * sphere of `sphere.rs`, queried through `ObjectHit`.
 */
module HittableLists {
  import opened Options
  import opened Vectors
  import opened Rays
  import Hittable
  import opened Spheres

  datatype Object = SphereObject(sphere: Sphere)

  /** Which member produced the nearest hit, and at which `t`. */
  datatype Nearest = Nearest(index: nat, t: real)

  /** The `t` a member reports for the window `[tmin, tmax]`, if it is hit there. */
  function ObjectT(o: Object, r: Ray, tmin: real, tmax: real, sqrt: real -> real): Option<real>
    requires IsSqrt(sqrt)
  {
    NearestRoot(o.sphere, r, RangeInclusive(tmin, tmax), sqrt)
  }

  /** The upper end of the window after a scan: the `t` found so far, else `tmax`. */
  function Closest(found: Option<Nearest>, tmax: real): real
  {
    if found.Some? then found.value.t else tmax
  }

  /**
   * What the loop of `hit` has found after the members `objects`: the last member whose
   * query with the window `[tmin, closest_so_far]` succeeded, with the `t` it reported.
   */
  function ListHit(objects: seq<Object>, r: Ray, tmin: real, tmax: real, sqrt: real -> real): (found: Option<Nearest>)
    requires IsSqrt(sqrt)
    ensures found.Some? ==> found.value.index < |objects|
  {
    if |objects| == 0 then
      None
    else
      var prev := ListHit(objects[..|objects| - 1], r, tmin, tmax, sqrt);
      var query := ObjectT(objects[|objects| - 1], r, tmin, Closest(prev, tmax), sqrt);
      if query.Some? then Some(Nearest(|objects| - 1, query.value)) else prev
  }

  /**
   * The point and the outward normal a member writes on a hit at `t`; the record's
   * `front_face` keeps its default `false`.
   */
  predicate RecordOf(rec: Hittable.HitRecord, o: Object, r: Ray, t: real)
    reads rec
  {
    && rec.t == t
    && rec.p == At(r, t)
    && rec.normal == DivScalar(Sub(At(r, t), o.sphere.center), o.sphere.radius)
    && !rec.frontFace
  }

  /**
   * A member's `hit(r, ray_tmin, ray_tmax)`: a default record filled in by the sphere's
   * hit over the inclusive range `ray_tmin..=ray_tmax`, returned when the sphere is hit.
   */
  method ObjectHit(o: Object, r: Ray, tmin: real, tmax: real, sqrt: real -> real)
    returns (rec: Option<Hittable.HitRecord>)
    requires IsSqrt(sqrt)
    ensures rec.Some? <==> ObjectT(o, r, tmin, tmax, sqrt).Some?
    ensures rec.Some? ==> fresh(rec.value) && RecordOf(rec.value, o, r, ObjectT(o, r, tmin, tmax, sqrt).value)
  {
    var record := new Hittable.HitRecord();
    var hit := Spheres.Hit(o.sphere, r, RangeInclusive(tmin, tmax), record, sqrt);
    if hit {
      rec := Some(record);
    } else {
      rec := None;
    }
  }

  class HittableList {
    var objects: seq<Object>

    /** `HittableList::new`: the empty list. */
    constructor ()
      ensures objects == []
    {
      objects := [];
    }

    /** `clear`: removes every member. */
    method Clear()
      modifies this
      ensures objects == []
    {
      objects := [];
    }

    /** `add`: appends `o` after the members already there. */
    method Add(o: Object)
      modifies this
      ensures objects == old(objects) + [o]
    {
      objects := objects + [o];
    }

    /**
     * `hit`: queries every member in order with `[ray_tmin, closest_so_far]`, where
     * `closest_so_far` starts at `ray_tmax` and becomes the `t` of each hit. Returns the
     * record of the last member that was hit, which `ListHit` describes.
     */
    method Hit(r: Ray, tmin: real, tmax: real, sqrt: real -> real) returns (rec: Option<Hittable.HitRecord>)
      requires IsSqrt(sqrt)
      ensures rec.Some? <==> ListHit(objects, r, tmin, tmax, sqrt).Some?
      ensures rec.Some? ==>
        var found := ListHit(objects, r, tmin, tmax, sqrt).value;
        RecordOf(rec.value, objects[found.index], r, found.t)
      ensures objects == [] ==> rec.None?
    {
      var hitAnything: Option<Hittable.HitRecord> := None;
      var closestSoFar := tmax;
      ghost var found: Option<Nearest> := None;

      for i := 0 to |objects|
        invariant found == ListHit(objects[..i], r, tmin, tmax, sqrt)
        invariant closestSoFar == Closest(found, tmax)
        invariant hitAnything.Some? <==> found.Some?
        invariant found.Some? ==> found.value.index < i
        invariant hitAnything.Some? ==> RecordOf(hitAnything.value, objects[found.value.index], r, found.value.t)
      {
        assert objects[..i + 1][..i] == objects[..i];
        var o := objects[i];
        var hit := ObjectHit(o, r, tmin, closestSoFar, sqrt);
        if hit.Some? {
          closestSoFar := hit.value.t;
          hitAnything := hit;
          found := Some(Nearest(i, hit.value.t));
        }
      }

      assert objects[..|objects|] == objects;
      rec := hitAnything;
    }
  }

  /**
   * The window only narrows: the `t` found lies in `[tmin, tmax]`, is on the surface of
   * the member that reported it, and no later member is hit in `[tmin, t]`.
   */
  lemma {:induction false} ListHitInWindow(objects: seq<Object>, r: Ray, tmin: real, tmax: real, sqrt: real -> real)
    requires IsSqrt(sqrt)
    ensures var found := ListHit(objects, r, tmin, tmax, sqrt);
      found.Some? ==>
        && tmin <= found.value.t <= tmax
        && OnSurface(objects[found.value.index].sphere, r, found.value.t)
        && forall j :: found.value.index < j < |objects| ==>
             ObjectT(objects[j], r, tmin, found.value.t, sqrt).None?
  {
    if |objects| > 0 {
      var init := objects[..|objects| - 1];
      ListHitInWindow(init, r, tmin, tmax, sqrt);
      var prev := ListHit(init, r, tmin, tmax, sqrt);
      var found := ListHit(objects, r, tmin, tmax, sqrt);
      if found.Some? && found != prev {
        assert found.value.index == |objects| - 1;
      } else if found.Some? {
        forall j | found.value.index < j < |objects|
          ensures ObjectT(objects[j], r, tmin, found.value.t, sqrt).None?
        {
          if j < |objects| - 1 {
            assert objects[j] == init[j];
          }
        }
      }
    }
  }

  /** `t` is on the surface of some member and inside `[tmin, tmax]`. */
  predicate HitsSomeMember(objects: seq<Object>, r: Ray, tmin: real, tmax: real, t: real)
  {
    tmin <= t <= tmax && exists j :: 0 <= j < |objects| && OnSurface(objects[j].sphere, r, t)
  }

  /**
   * For a ray with a non-zero direction, the scan finds the nearest hit over all members:
   * its `t` is at most every `t` in `[tmin, tmax]` where some member is hit, and when it
   * finds nothing no member is hit anywhere in `[tmin, tmax]`.
   */
  lemma {:induction false} ListHitNearest(objects: seq<Object>, r: Ray, tmin: real, tmax: real, sqrt: real -> real, t: real)
    requires IsSqrt(sqrt)
    requires LengthSquared(r.direction) > 0.0
    requires HitsSomeMember(objects, r, tmin, tmax, t)
    ensures ListHit(objects, r, tmin, tmax, sqrt).Some?
    ensures ListHit(objects, r, tmin, tmax, sqrt).value.t <= t
  {
    var init := objects[..|objects| - 1];
    var last := objects[|objects| - 1];
    var prev := ListHit(init, r, tmin, tmax, sqrt);
    var window := Closest(prev, tmax);
    var query := ObjectT(last, r, tmin, window, sqrt);
    var j :| 0 <= j < |objects| && OnSurface(objects[j].sphere, r, t);
    ListHitInWindow(init, r, tmin, tmax, sqrt);
    assert window <= tmax;
    if j < |objects| - 1 {
      assert init[j] == objects[j];
      ListHitNearest(init, r, tmin, tmax, sqrt, t);
      // `prev.value.t <= t`; a later hit can only be nearer.
    } else if t <= window {
      // `t` is inside the last window, so the last member reports at most `t`.
      assert RangeInclusive(tmin, window).Contains(t);
    } else {
      // `t` lies beyond the current window, which is narrower than `tmax` only after a hit.
      assert prev.Some?;
    }
  }

  /**
   * Ties go to the later member: the window's upper end is inclusive, so a member
   * appended after the scan that meets the ray at the `t` found so far replaces the
   * earlier member, at that `t` or nearer.
   */
  lemma ListHitTieGoesToLater(objects: seq<Object>, o: Object, r: Ray, tmin: real, tmax: real, sqrt: real -> real)
    requires IsSqrt(sqrt)
    requires LengthSquared(r.direction) > 0.0
    requires ListHit(objects, r, tmin, tmax, sqrt).Some?
    requires OnSurface(o.sphere, r, ListHit(objects, r, tmin, tmax, sqrt).value.t)
    ensures ListHit(objects + [o], r, tmin, tmax, sqrt).Some?
    ensures ListHit(objects + [o], r, tmin, tmax, sqrt).value.index == |objects|
    ensures ListHit(objects + [o], r, tmin, tmax, sqrt).value.t <= ListHit(objects, r, tmin, tmax, sqrt).value.t
  {
    var t := ListHit(objects, r, tmin, tmax, sqrt).value.t;
    assert (objects + [o])[..|objects|] == objects;
    ListHitInWindow(objects, r, tmin, tmax, sqrt);
    assert RangeInclusive(tmin, t).Contains(t);
  }

  /** A member listed twice: the second copy reports the hit. */
  lemma DuplicateMemberLaterWins(o: Object, r: Ray, tmin: real, tmax: real, sqrt: real -> real)
    requires IsSqrt(sqrt)
    requires LengthSquared(r.direction) > 0.0
    requires ObjectT(o, r, tmin, tmax, sqrt).Some?
    ensures ListHit([o, o], r, tmin, tmax, sqrt).Some?
    ensures ListHit([o, o], r, tmin, tmax, sqrt).value.index == 1
  {
    assert [o] + [o] == [o, o];
    assert [o][..0] == [];
    ListHitTieGoesToLater([o], o, r, tmin, tmax, sqrt);
  }

  /** With a non-zero direction, the scan finds nothing exactly when no member is hit in `[tmin, tmax]`. */
  lemma ListMissIff(objects: seq<Object>, r: Ray, tmin: real, tmax: real, sqrt: real -> real)
    requires IsSqrt(sqrt)
    requires LengthSquared(r.direction) > 0.0
    ensures ListHit(objects, r, tmin, tmax, sqrt).None? <==>
      forall j :: 0 <= j < |objects| ==> ObjectT(objects[j], r, tmin, tmax, sqrt).None?
  {
    var found := ListHit(objects, r, tmin, tmax, sqrt);
    ListHitInWindow(objects, r, tmin, tmax, sqrt);
    if found.None? {
      forall j | 0 <= j < |objects|
        ensures ObjectT(objects[j], r, tmin, tmax, sqrt).None?
      {
        var q := ObjectT(objects[j], r, tmin, tmax, sqrt);
        if q.Some? {
          ListHitNearest(objects, r, tmin, tmax, sqrt, q.value);
        }
      }
    } else {
      var k := found.value.index;
      var t := found.value.t;
      assert RangeInclusive(tmin, tmax).Contains(t);
      Roots(objects[k].sphere, r, sqrt);
      assert ObjectT(objects[k], r, tmin, tmax, sqrt).Some?;
    }
  }
}
