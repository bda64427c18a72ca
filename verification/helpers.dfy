/** The vector helpers of RTI1W/Helpers.cs: dot and cross products, reflection, linear interpolation and the
    scalar near-zero test. The slab test of the same file lives in module SlabTest. */
module Helpers {
  import opened RealArith
  import opened Vectors

  function Dot(a: Vec3, b: Vec3): real {
    a.x * b.x + a.y * b.y + a.z * b.z
  }

  function Cross(a: Vec3, b: Vec3): Vec3 {
    Vec3(a.y * b.z - a.z * b.y, a.z * b.x - a.x * b.z, a.x * b.y - a.y * b.x)
  }

  /** `v - 2 * Dot(v, n) * n`: `v` mirrored in the plane with normal `n`. */
  function Reflect(v: Vec3, n: Vec3): Vec3 {
    Sub(v, ScaleLeft(2.0 * Dot(v, n), n))
  }

  /** `(1 - t) * v1 + t * v2`. */
  function Lerp(t: real, v1: real, v2: real): real {
    (1.0 - t) * v1 + t * v2
  }

  /** The scalar near-zero test, with the same 1e-8 threshold as the vector one. */
  predicate IsNearZero(v: real) {
    Abs(v) < NearZeroThreshold
  }

  lemma DotSymmetric(a: Vec3, b: Vec3)
    ensures Dot(a, b) == Dot(b, a)
  {
  }

  /** The squared length is the dot product of a vector with itself. */
  lemma DotSelf(v: Vec3)
    ensures Dot(v, v) == LengthSquared(v)
    ensures Dot(v, v) >= 0.0
  {
  }

  /** The cross product is perpendicular to both factors. */
  lemma CrossOrthogonal(a: Vec3, b: Vec3)
    ensures Dot(Cross(a, b), a) == 0.0
    ensures Dot(Cross(a, b), b) == 0.0
  {
  }

  lemma CrossAntiCommutes(a: Vec3, b: Vec3)
    ensures Cross(a, b) == Neg(Cross(b, a))
  {
  }

  lemma DotSub(a: Vec3, b: Vec3, n: Vec3)
    ensures Dot(Sub(a, b), n) == Dot(a, n) - Dot(b, n)
  {
  }

  lemma DotNeg(a: Vec3, n: Vec3)
    ensures Dot(a, Neg(n)) == -Dot(a, n)
  {
  }

  lemma DotScale(s: real, a: Vec3, n: Vec3)
    ensures Dot(ScaleLeft(s, a), n) == s * Dot(a, n)
    ensures Dot(n, ScaleLeft(s, a)) == s * Dot(n, a)
  {
  }

  /** Reflecting in a unit normal flips the normal component of `v`. */
  lemma ReflectFlipsNormalComponent(v: Vec3, n: Vec3)
    requires Dot(n, n) == 1.0
    ensures Dot(Reflect(v, n), n) == -Dot(v, n)
  {
    var k := 2.0 * Dot(v, n);
    DotSub(v, ScaleLeft(k, n), n);
    DotScale(k, n, n);
  }

  /** Reflecting in a unit normal keeps the length. */
  lemma ReflectPreservesLength(v: Vec3, n: Vec3)
    requires Dot(n, n) == 1.0
    ensures LengthSquared(Reflect(v, n)) == LengthSquared(v)
  {
    var k := 2.0 * Dot(v, n);
    var w := ScaleLeft(k, n);
    var r := Reflect(v, n);
    DotSelf(r);
    DotSelf(v);
    DotSub(v, w, r);
    DotSymmetric(v, r);
    DotSymmetric(w, r);
    DotSub(v, w, v);
    DotSub(v, w, n);
    DotScale(k, n, r);
    DotScale(k, n, v);
    DotSymmetric(n, r);
    DotSymmetric(n, v);
    DotScale(k, n, n);
    ReflectExpand(Dot(v, v), Dot(v, n), Dot(r, r), Dot(v, r), Dot(w, r), Dot(r, n), k);
  }

  /** The scalar step of `ReflectPreservesLength`, with every dot product named. */
  lemma ReflectExpand(vv: real, vn: real, rr: real, vr: real, wr: real, rn: real, k: real)
    requires k == 2.0 * vn
    requires rn == -vn
    requires rr == vr - wr
    requires wr == k * rn
    requires vr == vv - k * vn
    ensures rr == vv
  {
  }

  /** Reflecting twice in the same unit normal gives back the vector. */
  lemma ReflectInvolution(v: Vec3, n: Vec3)
    requires Dot(n, n) == 1.0
    ensures Reflect(Reflect(v, n), n) == v
  {
    ReflectFlipsNormalComponent(v, n);
  }

  lemma LerpEnds(v1: real, v2: real)
    ensures Lerp(0.0, v1, v2) == v1
    ensures Lerp(1.0, v1, v2) == v2
  {
  }

  /** For `t` in [0, 1] the interpolated value lies between the two ends. */
  lemma LerpBetween(t: real, v1: real, v2: real)
    requires 0.0 <= t <= 1.0 && v1 <= v2
    ensures v1 <= Lerp(t, v1, v2) <= v2
  {
    assert Lerp(t, v1, v2) == v1 + Prod(t, v2 - v1);
    ProdNonneg(t, v2 - v1);
    MulRightMono(t, 1.0, v2 - v1);
  }

  /** The vector near-zero test is the scalar one on every axis. */
  lemma NearZeroPerAxis(v: Vec3)
    ensures Vectors.IsNearZero(v) <==> forall a :: IsNearZero(Get(v, a))
  {
    assert Get(v, X) == v.x && Get(v, Y) == v.y && Get(v, Z) == v.z;
  }
}
