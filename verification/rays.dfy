/** The tracer's Ray: an origin and a direction, normalized when the ray is
    made. The direction is a mutable field because the tracer negates it in
    place. */
module Rays {

  import opened Vectors

  /** The point `o + t·d`. */
  function PointOn(o: Vec3, d: Vec3, t: real): Vec3 { Add(o, Scale(d, t)) }

  /** The point at parameter t lies t·d away from the origin; along a unit
      direction its distance from the origin is |t|. */
  lemma PointOnOffset(o: Vec3, d: Vec3, t: real)
    ensures Sub(PointOn(o, d, t), o) == Scale(d, t)
    ensures LengthSq(Sub(PointOn(o, d, t), o)) == t * t * LengthSq(d)
  {
    LengthSqScale(d, t);
  }

  class Ray {
    var o: Vec3
    var d: Vec3

    /** Copies the origin and stores the normalized direction. */
    constructor (m: Numerics, origin: Vec3, direction: Vec3)
      ensures o == origin && d == Normalize(m, direction)
    {
      o := origin;
      d := Normalize(m, direction);
    }

    /** P(t) = o + t·d, computed on a copy: the ray itself is only read. */
    function PointAt(t: real): (p: Vec3)
      reads this
      ensures Sub(p, o) == Scale(d, t)
    {
      PointOn(o, d, t)
    }

    /** `ray.d.negate()`: flips the direction in place and returns it. */
    method NegateDirection() returns (l: Vec3)
      modifies this
      ensures o == old(o) && d == Neg(old(d)) && l == d
    {
      d := Neg(d);
      l := d;
    }
  }
}
