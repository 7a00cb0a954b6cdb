/** The ray `P(t) = O + t d` (ray.h, ray.cc). */
module Rays {
  import opened Vectors

  /** `Ray(origin, direction)`; `origin()` and `direction()` are the two fields. */
  datatype Ray = Ray(origin: Point3, direction: Vec3) {

    /** `at(t)`: the point reached after moving `t` times the direction from the origin. */
    function At(t: real): (p: Point3)
      ensures Sub(p, origin) == Scale(t, direction)
    {
      Add(origin, Scale(t, direction))
    }
  }

  /** The accessors return what the constructor was given. */
  lemma AccessorsReturnArguments(o: Point3, d: Vec3)
    ensures Ray(o, d).origin == o && Ray(o, d).direction == d
  {
  }

  lemma AtZeroIsOrigin(r: Ray)
    ensures r.At(0.0) == r.origin
  {
  }

  /** Moving `s` and then `t` along the ray is moving `s + t`; `t` may be negative. */
  lemma AtAdditive(r: Ray, s: real, t: real)
    ensures r.At(s + t) == Add(r.At(s), Scale(t, r.direction))
  {
  }

  /** `at(1)` is one whole direction away from the origin, whatever the direction's length. */
  lemma AtOne(r: Ray)
    ensures r.At(1.0) == Add(r.origin, r.direction)
  {
  }

  /** The squared distance from a point `c` to `at(t)` is a quadratic in `t`. */
  lemma {:induction false} AtDistanceQuadratic(r: Ray, c: Point3, t: real)
    ensures Sub(r.At(t), c).LengthSquared()
         == Dot(r.direction, r.direction) * t * t
          + 2.0 * Dot(Sub(r.origin, c), r.direction) * t
          + Dot(Sub(r.origin, c), Sub(r.origin, c))
  {
    Expand(Sub(r.At(t), c), Sub(r.origin, c), r.direction, t);
  }

  /** The squared length of `o + t d`, coordinate by coordinate. */
  lemma Expand(w: Vec3, o: Vec3, d: Vec3, t: real)
    requires w.x == o.x + t * d.x && w.y == o.y + t * d.y && w.z == o.z + t * d.z
    ensures w.LengthSquared() == Dot(d, d) * t * t + 2.0 * Dot(o, d) * t + Dot(o, o)
  {
  }
}
