/** The `Ray` value type of RTI1W/Ray.cs, and the bounds of the ray-parameter windows the hit queries use. */
module Rays {
  import opened RealArith
  import opened Vectors

  /** A ray. RTI1W/Ray.cs declares no time field, but `MovingSphere.Hit` reads `r.Time` (RTI1W/Hittable.cs:189),
      so the model carries one. */
  datatype Ray = Ray(origin: Vec3, direction: Vec3, time: real)

  /** The two-argument constructor: origin and direction are stored as given (the direction is not
      normalised) and the time is the default zero. */
  function NewRay(origin: Vec3, direction: Vec3): (r: Ray)
    ensures At(r, 0.0) == origin
    ensures At(r, 1.0) == Add(origin, direction)
    ensures Sub(At(r, 1.0), At(r, 0.0)) == direction
    ensures r.time == 0.0
  {
    Ray(origin, direction, 0.0)
  }

  /** `At(t)`: the point `Origin + t * Direction`. */
  function At(r: Ray, t: real): (p: Vec3)
    ensures Sub(p, r.origin) == ScaleLeft(t, r.direction)
  {
    Add(r.origin, ScaleLeft(t, r.direction))
  }

  lemma AtZero(r: Ray)
    ensures At(r, 0.0) == r.origin
  {
  }

  /** Two points on a ray differ by the parameter difference times the direction. */
  lemma AtDifference(r: Ray, t1: real, t2: real)
    ensures Sub(At(r, t1), At(r, t2)) == ScaleLeft(t1 - t2, r.direction)
  {
  }

  /** With a non-zero direction, distinct parameters give distinct points. */
  lemma AtInjective(r: Ray, t1: real, t2: real)
    requires r.direction != Zero
    ensures At(r, t1) == At(r, t2) <==> t1 == t2
  {
    if At(r, t1) == At(r, t2) {
      AtDifference(r, t1, t2);
      var d := r.direction;
      if d.x != 0.0 {
        assert Prod(t1 - t2, d.x) == 0.0;
        ProdZeroFactor(t1 - t2, d.x);
      } else if d.y != 0.0 {
        assert Prod(t1 - t2, d.y) == 0.0;
        ProdZeroFactor(t1 - t2, d.y);
      } else {
        assert Prod(t1 - t2, d.z) == 0.0;
        ProdZeroFactor(t1 - t2, d.z);
      }
    }
  }

  /** The upper end of a parameter window: a finite value or the source's `double.PositiveInfinity`. */
  datatype Bound = Finite(value: real) | Infinity

  /** `t < hi`. */
  predicate Below(t: real, hi: Bound) {
    hi.Infinity? || t < hi.value
  }

  /** `t <= hi`. */
  predicate AtMost(t: real, hi: Bound) {
    hi.Infinity? || t <= hi.value
  }

  /** `lo <= t <= hi`: the closed window the sphere test accepts a root in. */
  predicate InWindow(t: real, lo: real, hi: Bound) {
    lo <= t && AtMost(t, hi)
  }

  /** `a <= b` on upper bounds. */
  predicate BoundLe(a: Bound, b: Bound) {
    b.Infinity? || (a.Finite? && a.value <= b.value)
  }
}
