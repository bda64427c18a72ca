/** The hittable objects of RTI1W/Hittable.cs: the hit record and its face-normal rule, spheres and moving
    spheres, the linear `HittableList`, the box-pruned `BvhHittable` node, and an abstract primitive whose hits
    are a given finite set of ray parameters.

    Every hit query is `Hit(h, ray, tMin, tMax)`. The square root the sphere test calls is a parameter
    `sqrt` that is only known to be a square root on non-negative arguments. */
module Hittables {
  import opened Wrappers
  import opened RealArith
  import opened Vectors
  import opened Rays
  import opened Helpers
  import opened Boxes
  import opened SlabTest
  import opened Nearest

  /** A material, kept as an opaque handle: the hit record only carries it along. */
  datatype MaterialRef = MaterialRef(id: nat)

  datatype HitRecord = HitRecord(p: Vec3, normal: Vec3, material: MaterialRef, t: real, frontFace: bool)

  /** `HitRecord.SetFaceNormal`: the face is the front one when the ray runs against the outward normal, and
      the stored normal always opposes the ray. */
  function SetFaceNormal(rec: HitRecord, r: Ray, outward: Vec3): (rec': HitRecord)
    ensures rec'.frontFace <==> Dot(r.direction, outward) < 0.0
    ensures rec'.normal == outward || rec'.normal == Neg(outward)
    ensures Dot(r.direction, rec'.normal) <= 0.0
    ensures rec'.p == rec.p && rec'.material == rec.material && rec'.t == rec.t
  {
    DotNeg(r.direction, outward);
    var front := Dot(r.direction, outward) < 0.0;
    rec.(frontFace := front, normal := if front then outward else Neg(outward))
  }

  /** A record fresh from a hit: point, parameter and material set, the normal still to be chosen. */
  function NewRecord(r: Ray, t: real, material: MaterialRef): (rec: HitRecord)
    ensures rec.p == At(r, t) && rec.t == t && rec.material == material
  {
    HitRecord(At(r, t), Zero, material, t, false)
  }

  /** `sqrt` returns a non-negative square root of every non-negative argument. */
  ghost predicate IsSquareRoot(sqrt: real -> real) {
    forall d :: d >= 0.0 ==> sqrt(d) >= 0.0 && Sq(sqrt(d)) == d
  }

  /** The quadratic `a t^2 + 2 halfB t + c` whose roots are the parameters at which a ray meets a sphere. */
  datatype Quadratic = Quadratic(a: real, halfB: real, c: real)

  function SphereQuadratic(center: Vec3, radius: real, r: Ray): (q: Quadratic)
    ensures r.direction != Zero ==> q.a > 0.0
  {
    var oc := Sub(r.origin, center);
    Quadratic(LengthSquared(r.direction), Dot(oc, r.direction), LengthSquared(oc) - Sq(radius))
  }

  function Discriminant(q: Quadratic): real {
    Sq(q.halfB) - Prod(q.a, q.c)
  }

  /** The two roots, nearer first; no root when the discriminant is negative. */
  function Roots(q: Quadratic, sqrt: real -> real): (rs: seq<real>)
    requires q.a > 0.0 && IsSquareRoot(sqrt)
    ensures |rs| == 0 || (|rs| == 2 && rs[0] <= rs[1])
    ensures |rs| == 0 <==> Discriminant(q) < 0.0
  {
    if Discriminant(q) < 0.0 then []
    else
      var s := sqrt(Discriminant(q));
      QuotientMono(-q.halfB - s, -q.halfB + s, q.a);
      [(-q.halfB - s) / q.a, (-q.halfB + s) / q.a]
  }

  lemma QuotientMono(x: real, y: real, a: real)
    requires a > 0.0 && x <= y
    ensures x / a <= y / a
  {
    assert x / a == Prod(x, 1.0 / a) && y / a == Prod(y, 1.0 / a);
    MulRightMono(x, y, 1.0 / a);
  }

  /** The root selection of `Sphere.Hit`: the nearer root if it lies in the closed window, else the farther
      one if it does, else none. */
  function SelectRoot(q: Quadratic, lo: real, hi: Bound, sqrt: real -> real): (t: Option<real>)
    requires q.a > 0.0 && IsSquareRoot(sqrt)
    ensures Discriminant(q) < 0.0 ==> t.None?
    ensures t.Some? ==> InWindow(t.value, lo, hi)
  {
    if Discriminant(q) < 0.0 then None
    else
      var sqrtD := sqrt(Discriminant(q));
      var near := (-q.halfB - sqrtD) / q.a;
      if InWindow(near, lo, hi) then Some(near)
      else
        var far := (-q.halfB + sqrtD) / q.a;
        if InWindow(far, lo, hi) then Some(far) else None
  }

  /** The root selection finds the least root inside the window. */
  lemma SelectRootIsNearest(q: Quadratic, lo: real, hi: Bound, sqrt: real -> real)
    requires q.a > 0.0 && IsSquareRoot(sqrt)
    ensures SelectRoot(q, lo, hi, sqrt) == NearestIn(Roots(q, sqrt), lo, hi)
  {
    NearestUnique(SelectRoot(q, lo, hi, sqrt), Roots(q, sqrt), lo, hi);
  }

  /** The scalar step of `RootsOnSphere`: both roots solve the quadratic. */
  lemma QuadraticRoot(q: Quadratic, s: real, x: real, t: real)
    requires q.a > 0.0
    requires Sq(s) == Discriminant(q)
    requires x == -q.halfB - s || x == -q.halfB + s
    requires t == x / q.a
    ensures Prod(q.a, Sq(t)) + 2.0 * Prod(q.halfB, t) + q.c == 0.0
  {
    var a, h, c := q.a, q.halfB, q.c;
    assert Prod(a, t) == x;
    assert Prod(a, Prod(a, Sq(t))) == Sq(x);
    assert Sq(x) == Sq(h) + Sq(s) + 2.0 * Prod(h, -x - h);
    var v := Prod(a, Sq(t)) + 2.0 * Prod(h, t) + c;
    assert Prod(a, v) == Sq(x) + 2.0 * Prod(h, x) + Prod(a, c);
    ProdZeroFactor(v, a);
  }

  /** One axis of the ray's offset from the centre at `t`: its square is a quadratic in `t`. */
  lemma AxisDistance(o: real, d: real, t: real)
    ensures Sq(o + Prod(t, d)) == Sq(o) + 2.0 * Prod(Prod(o, d), t) + Prod(Sq(d), Sq(t))
  {
    SqOfSum(o, Prod(t, d));
    SqOfProd(t, d);
    ProdRotate(o, t, d);
  }

  /** Both roots are parameters at which the ray's point lies on the sphere. */
  lemma RootsOnSphere(center: Vec3, radius: real, r: Ray, sqrt: real -> real, t: real)
    requires r.direction != Zero && IsSquareRoot(sqrt)
    requires t in Roots(SphereQuadratic(center, radius, r), sqrt)
    ensures LengthSquared(Sub(At(r, t), center)) == Sq(radius)
  {
    var q := SphereQuadratic(center, radius, r);
    var s := sqrt(Discriminant(q));
    var oc := Sub(r.origin, center);
    var d := r.direction;
    assert Sub(At(r, t), center) == Vec3(oc.x + Prod(t, d.x), oc.y + Prod(t, d.y), oc.z + Prod(t, d.z)) by {
      AtOnAxis(r, t, X);
      AtOnAxis(r, t, Y);
      AtOnAxis(r, t, Z);
    }
    AxisDistance(oc.x, d.x, t);
    AxisDistance(oc.y, d.y, t);
    AxisDistance(oc.z, d.z, t);
    FactorOfThree(Prod(oc.x, d.x), Prod(oc.y, d.y), Prod(oc.z, d.z), t);
    assert Prod(oc.x, d.x) + Prod(oc.y, d.y) + Prod(oc.z, d.z) == Dot(oc, d);
    FactorOfThree(Sq(d.x), Sq(d.y), Sq(d.z), Sq(t));
    assert LengthSquared(Sub(At(r, t), center)) - Sq(radius) == Prod(q.a, Sq(t)) + 2.0 * Prod(q.halfB, t) + q.c;
    if t == (-q.halfB - s) / q.a {
      QuadraticRoot(q, s, -q.halfB - s, t);
    } else {
      QuadraticRoot(q, s, -q.halfB + s, t);
    }
  }

  /** The hittables. `Primitive` stands for any shape whose hits along the ray are the given candidate
      parameters; it reports the least one in the window, with the given outward normal. */
  datatype Hittable =
    | Sphere(center: Vec3, radius: real, material: MaterialRef)
    | MovingSphere(center0: Vec3, center1: Vec3, time0: real, time1: real, radius: real, material: MaterialRef)
    | Primitive(candidates: seq<real>, box: Box3, outward: Vec3, material: MaterialRef)
    | BvhNode(bounds: Box3, left: Hittable, right: Hittable)
    | HittableList(items: seq<Hittable>, cachedBox: Box3)

  /** The divisions the hit queries perform are defined: a non-zero radius (the normal is divided by it)
      and distinct key times (the moving centre divides by their difference). */
  predicate Valid(h: Hittable) {
    match h
    case Sphere(_, radius, _) => radius != 0.0
    case MovingSphere(_, _, time0, time1, radius, _) => radius != 0.0 && time0 != time1
    case Primitive(_, _, _, _) => true
    case BvhNode(_, left, right) => Valid(left) && Valid(right)
    case HittableList(items, _) => forall i | 0 <= i < |items| :: Valid(items[i])
  }

  /** No `BvhNode` anywhere inside: every query answers exactly, whatever its window. */
  predicate NoBvh(h: Hittable) {
    match h
    case BvhNode(_, _, _) => false
    case HittableList(items, _) => forall i | 0 <= i < |items| :: NoBvh(items[i])
    case _ => true
  }

  /** The box of `Sphere.GetBoundingBox`: the two corners `center -/+ (radius, radius, radius)`. */
  function SphereBox(center: Vec3, radius: real): (b: Box3)
    ensures IsValid(b) && Contains(b, center)
  {
    var half := Vec3(radius, radius, radius);
    var b := FromPoints(Sub(center, half), Add(center, half));
    assert Get(half, X) == radius && Get(half, Y) == radius && Get(half, Z) == radius;
    assert Contains(b, center) by {
      ContainsPerAxis(b, center);
    }
    b
  }

  /** The sphere's box holds every point of the closed ball. */
  lemma SphereBoxHoldsBall(center: Vec3, radius: real, p: Vec3)
    requires LengthSquared(Sub(p, center)) <= Sq(radius)
    ensures Contains(SphereBox(center, radius), p)
  {
    var w := Sub(p, center);
    var s := Abs(radius);
    SquareOfNeg(radius);
    SquareNonneg(w.x);
    SquareNonneg(w.y);
    SquareNonneg(w.z);
    SquareAtMost(w.x, s);
    SquareAtMost(w.y, s);
    SquareAtMost(w.z, s);
    var half := Vec3(radius, radius, radius);
    assert Get(half, X) == radius && Get(half, Y) == radius && Get(half, Z) == radius;
    assert Get(w, X) == w.x && Get(w, Y) == w.y && Get(w, Z) == w.z;
    ContainsPerAxis(SphereBox(center, radius), p);
  }

  /** `MovingSphere.GetCenter`: the centre moved linearly from `center0` at `time0` towards `center1`. */
  function GetCenter(center0: Vec3, center1: Vec3, time0: real, time1: real, time: real): Vec3
    requires time0 != time1
  {
    Add(center0, ScaleLeft((time - time0) / (time1 - time0), Sub(center1, center0)))
  }

  /** The centre is at `center0` at `time0` and at `center1` at `time1`. */
  lemma GetCenterAtKeyTimes(center0: Vec3, center1: Vec3, time0: real, time1: real)
    requires time0 != time1
    ensures GetCenter(center0, center1, time0, time1, time0) == center0
    ensures GetCenter(center0, center1, time0, time1, time1) == center1
  {
    assert (time1 - time0) / (time1 - time0) == 1.0;
  }

  /** Between the key times the centre stays within the moving sphere's box. */
  lemma CenterInMovingBox(center0: Vec3, center1: Vec3, time0: real, time1: real, radius: real, time: real)
    requires time0 < time1 && time0 <= time <= time1
    ensures Contains(BoundingBox(MovingSphere(center0, center1, time0, time1, radius, MaterialRef(0))),
                     GetCenter(center0, center1, time0, time1, time))
  {
    var f := (time - time0) / (time1 - time0);
    assert 0.0 <= f <= 1.0 by {
      assert f == Prod(time - time0, 1.0 / (time1 - time0));
      ProdNonneg(time - time0, 1.0 / (time1 - time0));
      MulRightMono(time - time0, time1 - time0, 1.0 / (time1 - time0));
      assert Prod(time1 - time0, 1.0 / (time1 - time0)) == 1.0;
    }
    var c := GetCenter(center0, center1, time0, time1, time);
    var b0, b1 := SphereBox(center0, radius), SphereBox(center1, radius);
    var u := Union(b0, b1);
    ContainsPerAxis(b0, center0);
    ContainsPerAxis(b1, center1);
    forall a
      ensures Get(u.min, a) <= Get(c, a) <= Get(u.max, a)
    {
      CenterOnAxis(center0, center1, f, c, a);
    }
    ContainsPerAxis(u, c);
  }

  /** One axis of `CenterInMovingBox`: the interpolated coordinate lies between the two key coordinates. */
  lemma CenterOnAxis(center0: Vec3, center1: Vec3, f: real, c: Vec3, a: Axis)
    requires 0.0 <= f <= 1.0
    requires c == Add(center0, ScaleLeft(f, Sub(center1, center0)))
    ensures Min(Get(center0, a), Get(center1, a)) <= Get(c, a) <= Max(Get(center0, a), Get(center1, a))
  {
    var p, q := Get(center0, a), Get(center1, a);
    assert Get(c, a) == Helpers.Lerp(f, p, q);
    if p <= q {
      LerpBetween(f, p, q);
    } else {
      LerpBetween(1.0 - f, q, p);
    }
  }

  /** `GetBoundingBox`: spheres their corner box, the moving sphere the union of the boxes at both key
      positions, a BVH node its stored bounds, a list its cached box. */
  function BoundingBox(h: Hittable): Box3 {
    match h
    case Sphere(center, radius, _) => SphereBox(center, radius)
    case MovingSphere(center0, center1, _, _, radius, _) => Union(SphereBox(center0, radius), SphereBox(center1, radius))
    case Primitive(_, box, _, _) => box
    case BvhNode(bounds, _, _) => bounds
    case HittableList(_, cachedBox) => cachedBox
  }

  /** The parameter of a hit, if any. */
  function TimeOf(o: Option<HitRecord>): Option<real> {
    if o.Some? then Some(o.value.t) else None
  }

  /** The upper end of the list scan's window: the last hit's parameter, or the caller's bound. */
  function Closest(rec: Option<HitRecord>, hi: Bound): Bound {
    if rec.Some? then Finite(rec.value.t) else hi
  }

  /** `Sphere.Hit` and `MovingSphere.Hit` about the given centre: the selected root, its point, and the
      outward normal `(p - center) / radius` oriented by `SetFaceNormal`. */
  function SphereHit(center: Vec3, radius: real, material: MaterialRef, r: Ray, lo: real, hi: Bound,
                     sqrt: real -> real): (o: Option<HitRecord>)
    requires radius != 0.0 && r.direction != Zero && IsSquareRoot(sqrt)
    ensures TimeOf(o) == SelectRoot(SphereQuadratic(center, radius, r), lo, hi, sqrt)
    ensures o.Some? ==> o.value.p == At(r, o.value.t) && o.value.material == material
    ensures o.Some? ==> var outward := DivScalar(Sub(o.value.p, center), radius);
                        (o.value.normal == outward || o.value.normal == Neg(outward))
                        && (o.value.frontFace <==> Dot(r.direction, outward) < 0.0)
                        && Dot(r.direction, o.value.normal) <= 0.0
  {
    match SelectRoot(SphereQuadratic(center, radius, r), lo, hi, sqrt)
    case None => None
    case Some(t) =>
      var p := At(r, t);
      Some(SetFaceNormal(NewRecord(r, t, material), r, DivScalar(Sub(p, center), radius)))
  }

  /** `Hit(ray, tMin, tMax)` of every hittable. Whatever it returns lies in the closed window. */
  function Hit(h: Hittable, r: Ray, lo: real, hi: Bound, sqrt: real -> real): (o: Option<HitRecord>)
    requires Valid(h) && r.direction != Zero && IsSquareRoot(sqrt)
    ensures o.Some? ==> InWindow(o.value.t, lo, hi)
    decreases h, if h.HittableList? then |h.items| + 1 else 0
  {
    match h
    case Sphere(center, radius, material) =>
      SphereHit(center, radius, material, r, lo, hi, sqrt)
    case MovingSphere(center0, center1, time0, time1, radius, material) =>
      SphereHit(GetCenter(center0, center1, time0, time1, r.time), radius, material, r, lo, hi, sqrt)
    case Primitive(candidates, _, outward, material) =>
      var n := NearestIn(candidates, lo, hi);
      if n.None? then None else Some(SetFaceNormal(NewRecord(r, n.value, material), r, outward))
    case BvhNode(bounds, left, right) =>
      if !IntersectRayBox(r, bounds, lo, hi) then None
      else
        var hitLeft := Hit(left, r, lo, hi, sqrt);
        var hitRight := Hit(right, r, lo, Closest(hitLeft, hi), sqrt);
        if hitRight.Some? then hitRight else hitLeft
    case HittableList(_, _) =>
      Scan(h, 0, r, lo, hi, None, sqrt)
  }

  /** The loop of `HittableList.Hit` from item `i` on, with the record found so far: each item is asked
      with the window cut at the last hit, and a hit replaces the record. */
  function Scan(h: Hittable, i: nat, r: Ray, lo: real, hi: Bound, rec: Option<HitRecord>, sqrt: real -> real)
    : (o: Option<HitRecord>)
    requires h.HittableList? && Valid(h) && i <= |h.items| && r.direction != Zero && IsSquareRoot(sqrt)
    requires rec.Some? ==> InWindow(rec.value.t, lo, hi)
    ensures o.Some? ==> InWindow(o.value.t, lo, hi)
    ensures rec.Some? ==> o.Some? && o.value.t <= rec.value.t
    decreases h, |h.items| - i
  {
    if i == |h.items| then rec
    else
      var objRec := Hit(h.items[i], r, lo, Closest(rec, hi), sqrt);
      Scan(h, i + 1, r, lo, hi, if objRec.Some? then objRec else rec, sqrt)
  }

  /** Every ray parameter at which `h` can report a hit, whatever the window: the roots of each sphere and
      the candidates of each primitive, collected through lists and BVH nodes. */
  function Candidates(h: Hittable, r: Ray, sqrt: real -> real): seq<real>
    requires Valid(h) && r.direction != Zero && IsSquareRoot(sqrt)
    decreases h, if h.HittableList? then |h.items| + 1 else 0
  {
    match h
    case Sphere(center, radius, _) => Roots(SphereQuadratic(center, radius, r), sqrt)
    case MovingSphere(center0, center1, time0, time1, radius, _) =>
      Roots(SphereQuadratic(GetCenter(center0, center1, time0, time1, r.time), radius, r), sqrt)
    case Primitive(candidates, _, _, _) => candidates
    case BvhNode(_, left, right) => Candidates(left, r, sqrt) + Candidates(right, r, sqrt)
    case HittableList(items, _) => CandidatesUpTo(h, |items|, r, sqrt)
  }

  /** The candidates of the first `i` items of a list. */
  function CandidatesUpTo(h: Hittable, i: nat, r: Ray, sqrt: real -> real): seq<real>
    requires h.HittableList? && Valid(h) && i <= |h.items| && r.direction != Zero && IsSquareRoot(sqrt)
    decreases h, i
  {
    if i == 0 then [] else CandidatesUpTo(h, i - 1, r, sqrt) + Candidates(h.items[i - 1], r, sqrt)
  }
}
