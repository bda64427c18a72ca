/** The axis-aligned box `Box3` of RTI1W/Box3.cs: constructors, containment, size and middle, union,
    intersection and overlap. */
module Boxes {
  import opened RealArith
  import opened Vectors
  import Helpers

  /** `double.MaxValue`; `double.MinValue` is its negation. */
  const MaxDouble: real := 179769313486231570814527423731704356798070567525844996598917476803157260780028538760589558632766878171540458953514382464234321326889464182768467546703537516986049910576551282076245490090389328944075868508455133942304583236903222948165808559332123348274797826204144723168738177180919299881250404026184124858368.0

  datatype Box3 = Box3(min: Vec3, max: Vec3)

  /** `Math.Min` on two reals. */
  function Min(a: real, b: real): (m: real)
    ensures m <= a && m <= b && (m == a || m == b)
  {
    if a <= b then a else b
  }

  /** `Math.Max` on two reals. */
  function Max(a: real, b: real): (m: real)
    ensures m >= a && m >= b && (m == a || m == b)
  {
    if a >= b then a else b
  }

  function MinVec(p: Vec3, q: Vec3): (m: Vec3)
    ensures forall a :: Get(m, a) == Min(Get(p, a), Get(q, a))
  {
    Vec3(Min(p.x, q.x), Min(p.y, q.y), Min(p.z, q.z))
  }

  function MaxVec(p: Vec3, q: Vec3): (m: Vec3)
    ensures forall a :: Get(m, a) == Max(Get(p, a), Get(q, a))
  {
    Vec3(Max(p.x, q.x), Max(p.y, q.y), Max(p.z, q.z))
  }

  /** A box whose minimum corner is nowhere above its maximum corner. */
  predicate IsValid(b: Box3) {
    forall a :: Get(b.min, a) <= Get(b.max, a)
  }

  /** Every coordinate of the box is a finite double. */
  predicate IsFinite(b: Box3) {
    forall a :: -MaxDouble <= Get(b.min, a) <= MaxDouble && -MaxDouble <= Get(b.max, a) <= MaxDouble
  }

  /** `outer` reaches at least as far as `inner` on every side. */
  predicate Encloses(outer: Box3, inner: Box3) {
    forall a :: Get(outer.min, a) <= Get(inner.min, a) && Get(inner.max, a) <= Get(outer.max, a)
  }

  predicate Contains(b: Box3, p: Vec3) {
    b.min.x <= p.x && b.min.y <= p.y && b.min.z <= p.z &&
    p.x <= b.max.x && p.y <= b.max.y && p.z <= b.max.z
  }

  lemma ContainsPerAxis(b: Box3, p: Vec3)
    ensures Contains(b, p) <==> forall a :: Get(b.min, a) <= Get(p, a) <= Get(b.max, a)
  {
    assert Get(p, X) == p.x && Get(p, Y) == p.y && Get(p, Z) == p.z;
  }

  /** `Box3()`: the inverted sentinel from `double.MaxValue` down to `double.MinValue`. */
  function EmptyBox(): (b: Box3)
    ensures forall a :: Get(b.min, a) == MaxDouble && Get(b.max, a) == -MaxDouble
    ensures forall p :: !Contains(b, p)
  {
    Box3(Vec3(MaxDouble, MaxDouble, MaxDouble), Vec3(-MaxDouble, -MaxDouble, -MaxDouble))
  }

  /** `Box3(p)`: the box holding the single point `p`. */
  function PointBox(p: Vec3): (b: Box3)
    ensures b.min == p && b.max == p
    ensures IsValid(b)
    ensures forall q :: Contains(b, q) <==> q == p
  {
    Box3(p, p)
  }

  /** `Box3(p1, p2)`: the box spanned by two corners given in any order. */
  function FromPoints(p1: Vec3, p2: Vec3): (b: Box3)
    ensures IsValid(b)
    ensures Contains(b, p1) && Contains(b, p2)
    ensures forall a :: Get(b.min, a) == Min(Get(p1, a), Get(p2, a))
    ensures forall a :: Get(b.max, a) == Max(Get(p1, a), Get(p2, a))
  {
    Box3(MinVec(p1, p2), MaxVec(p1, p2))
  }

  lemma FromPointsSymmetric(p1: Vec3, p2: Vec3)
    ensures FromPoints(p1, p2) == FromPoints(p2, p1)
  {
  }

  /** The two-corner box is the smallest box holding both corners. */
  lemma FromPointsTightest(p1: Vec3, p2: Vec3, c: Box3)
    requires Contains(c, p1) && Contains(c, p2)
    ensures Encloses(c, FromPoints(p1, p2))
  {
    ContainsPerAxis(c, p1);
    ContainsPerAxis(c, p2);
  }

  /** A valid box is its own two-corner box. */
  lemma FromPointsOfValid(b: Box3)
    requires IsValid(b)
    ensures FromPoints(b.min, b.max) == b
  {
    assert Get(b.min, X) <= Get(b.max, X);
    assert Get(b.min, Y) <= Get(b.max, Y);
    assert Get(b.min, Z) <= Get(b.max, Z);
  }

  /** `Equals` and `==` on boxes: both corners equal. */
  predicate Equals(b1: Box3, b2: Box3) {
    Vectors.Equals(b1.min, b2.min) && Vectors.Equals(b1.max, b2.max)
  }

  /** `!=` on boxes: the negation of `==`. */
  predicate NotEquals(b1: Box3, b2: Box3) {
    !Equals(b1, b2)
  }

  lemma EqualsIsIdentity(b1: Box3, b2: Box3)
    ensures Equals(b1, b2) <==> b1 == b2
    ensures NotEquals(b1, b2) <==> b1 != b2
  {
    Vectors.EqualsIsIdentity(b1.min, b2.min);
    Vectors.EqualsIsIdentity(b1.max, b2.max);
  }

  /** An enclosing box contains every point of the enclosed one; for a valid inner box the converse holds. */
  lemma EnclosesMeansContainsAll(outer: Box3, inner: Box3)
    ensures Encloses(outer, inner) ==> forall p :: Contains(inner, p) ==> Contains(outer, p)
    ensures IsValid(inner) && (forall p :: Contains(inner, p) ==> Contains(outer, p)) ==> Encloses(outer, inner)
  {
    if Encloses(outer, inner) {
      forall p | Contains(inner, p)
        ensures Contains(outer, p)
      {
        ContainsPerAxis(inner, p);
        ContainsPerAxis(outer, p);
      }
    }
    if IsValid(inner) && forall p :: Contains(inner, p) ==> Contains(outer, p) {
      assert Contains(inner, inner.min) && Contains(inner, inner.max) by {
        ContainsPerAxis(inner, inner.min);
        ContainsPerAxis(inner, inner.max);
      }
      ContainsPerAxis(outer, inner.min);
      ContainsPerAxis(outer, inner.max);
    }
  }

  lemma EnclosesTransitive(a: Box3, b: Box3, c: Box3)
    requires Encloses(a, b) && Encloses(b, c)
    ensures Encloses(a, c)
  {
  }

  lemma EnclosesReflexive(b: Box3)
    ensures Encloses(b, b)
  {
  }

  /** Two boxes each enclosing the other are the same box. */
  lemma EnclosesAntisymmetric(a: Box3, b: Box3)
    requires Encloses(a, b) && Encloses(b, a)
    ensures a == b
  {
    assert forall axis :: Get(a.min, axis) == Get(b.min, axis) && Get(a.max, axis) == Get(b.max, axis);
    assert a.min.x == Get(a.min, X) == Get(b.min, X) == b.min.x;
    assert a.min.y == Get(a.min, Y) == Get(b.min, Y) == b.min.y;
    assert a.min.z == Get(a.min, Z) == Get(b.min, Z) == b.min.z;
    assert a.max.x == Get(a.max, X) == Get(b.max, X) == b.max.x;
    assert a.max.y == Get(a.max, Y) == Get(b.max, Y) == b.max.y;
    assert a.max.z == Get(a.max, Z) == Get(b.max, Z) == b.max.z;
  }

  function GetSize(b: Box3): (s: Vec3)
    ensures forall a :: Get(s, a) == Get(b.max, a) - Get(b.min, a)
    ensures IsValid(b) ==> forall a :: Get(s, a) >= 0.0
  {
    Sub(b.max, b.min)
  }

  /** `Min + GetSize() / 2`: halfway between the corners on every axis. */
  function GetMiddle(b: Box3): (m: Vec3)
    ensures forall a :: Get(m, a) == (Get(b.min, a) + Get(b.max, a)) / 2.0
    ensures IsValid(b) ==> Contains(b, m)
  {
    var r := Add(b.min, DivScalar(GetSize(b), 2.0));
    ContainsPerAxis(b, r);
    r
  }

  function GetVolume(b: Box3): (v: real)
    ensures IsValid(b) ==> v >= 0.0
  {
    var s := GetSize(b);
    assert Get(s, X) == s.x && Get(s, Y) == s.y && Get(s, Z) == s.z;
    VolumeSign(s.x, s.y, s.z);
    s.x * s.y * s.z
  }

  lemma VolumeSign(x: real, y: real, z: real)
    ensures x >= 0.0 && y >= 0.0 && z >= 0.0 ==> Prod(Prod(x, y), z) >= 0.0
  {
    if x >= 0.0 && y >= 0.0 && z >= 0.0 {
      ProdNonneg(x, y);
      ProdNonneg(Prod(x, y), z);
    }
  }

  /** The point at fraction `t` of the way from `Min` to `Max`, per axis. */
  function Lerp(b: Box3, t: Vec3): Vec3 {
    Vec3(Helpers.Lerp(t.x, b.min.x, b.max.x), Helpers.Lerp(t.y, b.min.y, b.max.y), Helpers.Lerp(t.z, b.min.z, b.max.z))
  }

  lemma LerpCorners(b: Box3)
    ensures Lerp(b, Zero) == b.min
    ensures Lerp(b, One) == b.max
  {
    Helpers.LerpEnds(b.min.x, b.max.x);
    Helpers.LerpEnds(b.min.y, b.max.y);
    Helpers.LerpEnds(b.min.z, b.max.z);
  }

  /** Fractions in the unit cube land inside a valid box. */
  lemma LerpInside(b: Box3, t: Vec3)
    requires IsValid(b)
    requires forall a :: 0.0 <= Get(t, a) <= 1.0
    ensures Contains(b, Lerp(b, t))
  {
    assert b.min.x <= b.max.x && b.min.y <= b.max.y && b.min.z <= b.max.z by {
      assert Get(b.min, X) <= Get(b.max, X);
      assert Get(b.min, Y) <= Get(b.max, Y);
      assert Get(b.min, Z) <= Get(b.max, Z);
    }
    assert Get(t, X) == t.x && Get(t, Y) == t.y && Get(t, Z) == t.z;
    Helpers.LerpBetween(t.x, b.min.x, b.max.x);
    Helpers.LerpBetween(t.y, b.min.y, b.max.y);
    Helpers.LerpBetween(t.z, b.min.z, b.max.z);
  }

  /** `Union`: the two-corner box of the smaller minima and the larger maxima. */
  function Union(b1: Box3, b2: Box3): (u: Box3)
    ensures IsValid(u)
    ensures Encloses(u, b1) && Encloses(u, b2)
  {
    FromPoints(MinVec(b1.min, b2.min), MaxVec(b1.max, b2.max))
  }

  lemma UnionCommutes(b1: Box3, b2: Box3)
    ensures Union(b1, b2) == Union(b2, b1)
  {
  }

  /** For valid boxes the union is the corner-wise minimum and maximum. */
  lemma UnionOfValid(b1: Box3, b2: Box3)
    requires IsValid(b1) || IsValid(b2)
    ensures Union(b1, b2) == Box3(MinVec(b1.min, b2.min), MaxVec(b1.max, b2.max))
  {
    var lo := MinVec(b1.min, b2.min);
    var hi := MaxVec(b1.max, b2.max);
    assert forall a :: Get(lo, a) <= Get(hi, a) by {
      if IsValid(b1) {
        assert forall a :: Get(b1.min, a) <= Get(b1.max, a);
      } else {
        assert forall a :: Get(b2.min, a) <= Get(b2.max, a);
      }
    }
    FromPointsOfValid(Box3(lo, hi));
  }

  /** Any box enclosing two boxes, one of them valid, encloses their union. */
  lemma UnionIsLeast(b1: Box3, b2: Box3, c: Box3)
    requires IsValid(b1) || IsValid(b2)
    requires Encloses(c, b1) && Encloses(c, b2)
    ensures Encloses(c, Union(b1, b2))
  {
    UnionOfValid(b1, b2);
  }

  lemma UnionAssociates(b1: Box3, b2: Box3, b3: Box3)
    requires IsValid(b1) && IsValid(b2) && IsValid(b3)
    ensures Union(Union(b1, b2), b3) == Union(b1, Union(b2, b3))
  {
    UnionOfValid(b1, b2);
    UnionOfValid(b2, b3);
    UnionOfValid(Union(b1, b2), b3);
    UnionOfValid(b1, Union(b2, b3));
  }

  /** The sentinel is the identity of `Union` on valid boxes of finite doubles. */
  lemma UnionWithEmpty(b: Box3)
    requires IsValid(b) && IsFinite(b)
    ensures Union(EmptyBox(), b) == b
    ensures Union(b, EmptyBox()) == b
  {
    UnionOfValid(EmptyBox(), b);
    UnionCommutes(b, EmptyBox());
    var u := Union(EmptyBox(), b);
    assert forall a :: Get(u.min, a) == Get(b.min, a) && Get(u.max, a) == Get(b.max, a);
    assert u.min == Vec3(Get(u.min, X), Get(u.min, Y), Get(u.min, Z));
    assert u.max == Vec3(Get(u.max, X), Get(u.max, Y), Get(u.max, Z));
  }

  predicate Overlaps(b1: Box3, b2: Box3) {
    b1.max.x >= b2.min.x && b1.min.x <= b2.max.x &&
    b1.max.y >= b2.min.y && b1.min.y <= b2.max.y &&
    b1.max.z >= b2.min.z && b1.min.z <= b2.max.z
  }

  lemma OverlapsPerAxis(b1: Box3, b2: Box3)
    ensures Overlaps(b1, b2) <==> forall a :: Get(b1.max, a) >= Get(b2.min, a) && Get(b1.min, a) <= Get(b2.max, a)
  {
    assert Get(b1.max, X) == b1.max.x && Get(b1.max, Y) == b1.max.y && Get(b1.max, Z) == b1.max.z;
  }

  lemma OverlapsSymmetric(b1: Box3, b2: Box3)
    ensures Overlaps(b1, b2) <==> Overlaps(b2, b1)
  {
  }

  lemma OverlapsReflexive(b: Box3)
    requires IsValid(b)
    ensures Overlaps(b, b)
  {
    OverlapsPerAxis(b, b);
  }

  /** Two valid boxes overlap exactly when they share a point. */
  lemma OverlapsIffCommonPoint(b1: Box3, b2: Box3)
    requires IsValid(b1) && IsValid(b2)
    ensures Overlaps(b1, b2) <==> exists p :: Contains(b1, p) && Contains(b2, p)
  {
    OverlapsPerAxis(b1, b2);
    if Overlaps(b1, b2) {
      var p := MaxVec(b1.min, b2.min);
      ContainsPerAxis(b1, p);
      ContainsPerAxis(b2, p);
      assert Contains(b1, p) && Contains(b2, p);
    }
  }

  /** `Intersect`: the two-corner box of the larger minima and the smaller maxima. It is re-normalised, so
      it is valid even when the boxes are disjoint. */
  function Intersect(b1: Box3, b2: Box3): (i: Box3)
    ensures IsValid(i)
  {
    FromPoints(MaxVec(b1.min, b2.min), MinVec(b1.max, b2.max))
  }

  /** The order of the operands does not matter. */
  lemma IntersectCommutes(b1: Box3, b2: Box3)
    ensures Intersect(b1, b2) == Intersect(b2, b1)
  {
    assert MaxVec(b1.min, b2.min) == MaxVec(b2.min, b1.min);
    assert MinVec(b1.max, b2.max) == MinVec(b2.max, b1.max);
  }

  /** For valid boxes, `Overlaps` holds exactly when the intersection needed no re-normalisation. */
  lemma IntersectOfOverlapping(b1: Box3, b2: Box3)
    requires IsValid(b1) && IsValid(b2)
    ensures Overlaps(b1, b2) <==> Intersect(b1, b2) == Box3(MaxVec(b1.min, b2.min), MinVec(b1.max, b2.max))
  {
    OverlapsPerAxis(b1, b2);
    var lo := MaxVec(b1.min, b2.min);
    var hi := MinVec(b1.max, b2.max);
    if Overlaps(b1, b2) {
      FromPointsOfValid(Box3(lo, hi));
    }
    if Intersect(b1, b2) == Box3(lo, hi) {
      assert IsValid(Box3(lo, hi));
      assert forall a :: Get(lo, a) <= Get(hi, a);
    }
  }

  /** When valid boxes overlap, their intersection holds exactly their common points. */
  lemma IntersectHoldsCommonPoints(b1: Box3, b2: Box3)
    requires IsValid(b1) && IsValid(b2) && Overlaps(b1, b2)
    ensures Encloses(b1, Intersect(b1, b2)) && Encloses(b2, Intersect(b1, b2))
    ensures forall p :: Contains(Intersect(b1, b2), p) <==> Contains(b1, p) && Contains(b2, p)
  {
    IntersectOfOverlapping(b1, b2);
    var i := Intersect(b1, b2);
    forall p
      ensures Contains(i, p) <==> Contains(b1, p) && Contains(b2, p)
    {
      ContainsPerAxis(i, p);
      ContainsPerAxis(b1, p);
      ContainsPerAxis(b2, p);
    }
  }
}
