/** The slab ray-box test `IntersectRayBox` of RTI1W/Helpers.cs.

    Per axis the source computes the parameters `(Min - Origin) / Direction` and `(Max - Origin) / Direction`,
    swaps them for a negative direction, and narrows the window [tMin, tMax] to them, giving up as soon as the
    window is empty. For a zero direction component the source relies on IEEE infinities and NaN: the axis
    leaves the window as it is when the origin lies within [Min, Max] on that axis (NaN comparisons are false
    on the boundary) and empties it otherwise. `AxisSlab` states that case split explicitly. */
module SlabTest {
  import opened Wrappers
  import opened RealArith
  import opened Vectors
  import opened Rays
  import opened Boxes

  /** What one axis does to the parameter window. */
  datatype Slab =
    | Unconstrained          // zero direction, origin within the slab
    | Excluded               // zero direction, origin outside the slab
    | Span(entry: real, exit: real)

  /** The current window `[lo, hi]` of the narrowing loop. */
  datatype Window = Window(lo: real, hi: Bound)

  /** The loop's `tMax <= tMin` test, negated. */
  predicate IsOpen(w: Window) {
    Below(w.lo, w.hi)
  }

  /** The slab of one axis: origin `o`, direction `d`, box extent `[lo, hi]`. */
  function AxisSlab(o: real, d: real, lo: real, hi: real): (s: Slab)
    ensures d == 0.0 ==> (s.Unconstrained? <==> lo <= o <= hi) && (s.Excluded? <==> !(lo <= o <= hi))
    ensures d != 0.0 ==> s.Span?
  {
    if d == 0.0 then
      if lo <= o && o <= hi then Unconstrained else Excluded
    else
      var inv := 1.0 / d;
      var t0 := Prod(lo - o, inv);
      var t1 := Prod(hi - o, inv);
      if inv < 0.0 then Span(t1, t0) else Span(t0, t1)
  }

  function SlabOf(r: Ray, b: Box3, a: Axis): Slab {
    AxisSlab(Get(r.origin, a), Get(r.direction, a), Get(b.min, a), Get(b.max, a))
  }

  /** One round of the loop without its emptiness test: raise `lo` to the entry, lower `hi` to the exit.
      `None` is the window an excluded axis empties. */
  function Narrow(w: Window, s: Slab): (n: Option<Window>)
    ensures n.None? <==> s.Excluded?
    ensures n.Some? ==> w.lo <= n.value.lo && (forall t :: Below(t, n.value.hi) ==> Below(t, w.hi))
    ensures n.Some? && s.Span? ==> s.entry <= n.value.lo && (forall t :: Below(t, n.value.hi) ==> t < s.exit)
  {
    match s
    case Unconstrained => Some(w)
    case Excluded => None
    case Span(t0, t1) =>
      Some(Window(if t0 > w.lo then t0 else w.lo, if Below(t1, w.hi) then Finite(t1) else w.hi))
  }

  /** One round of the loop: narrow, then give up if the window is empty. */
  function Step(w: Window, s: Slab): (n: Option<Window>)
    ensures n.Some? ==> IsOpen(n.value) && Narrow(w, s) == n
    ensures n.None? ==> Narrow(w, s).None? || !IsOpen(Narrow(w, s).value)
  {
    match Narrow(w, s)
    case None => None
    case Some(w') => if IsOpen(w') then Some(w') else None
  }

  /** `IntersectRayBox(ray, box, tMin, tMax)`: axes X, Y, Z in turn, returning false at the first empty
      window. */
  function IntersectRayBox(r: Ray, b: Box3, tMin: real, tMax: Bound): (hit: bool)
    ensures hit <==> Admits(r, b, tMin, tMax)
  {
    IntersectMatchesReference(r, b, tMin, tMax);
    match Step(Window(tMin, tMax), SlabOf(r, b, X))
    case None => false
    case Some(w1) =>
      match Step(w1, SlabOf(r, b, Y))
      case None => false
      case Some(w2) => Step(w2, SlabOf(r, b, Z)).Some?
  }

  /** The two-argument overload: the window [0, +infinity). */
  function IntersectRayBoxDefault(r: Ray, b: Box3): (hit: bool)
    ensures hit <==> Admits(r, b, 0.0, Infinity)
  {
    IntersectRayBox(r, b, 0.0, Infinity)
  }

  /** The reference condition, stated pairwise: no axis excludes the ray, and every lower end (tMin or an
      entry) lies strictly below every upper end (tMax or an exit). This is
      `max(tMin, entries) < min(tMax, exits)`. */
  predicate Admits(r: Ray, b: Box3, tMin: real, tMax: Bound) {
    (forall a :: !SlabOf(r, b, a).Excluded?) &&
    Below(tMin, tMax) &&
    (forall a :: SlabOf(r, b, a).Span? ==> tMin < SlabOf(r, b, a).exit && Below(SlabOf(r, b, a).entry, tMax)) &&
    (forall a, c :: SlabOf(r, b, a).Span? && SlabOf(r, b, c).Span? ==> SlabOf(r, b, a).entry < SlabOf(r, b, c).exit)
  }

  /** The loop with its three early exits removed: narrow on every axis, test emptiness once. */
  function IntersectWithoutEarlyExit(r: Ray, b: Box3, tMin: real, tMax: Bound): bool {
    var w0 := Window(tMin, tMax);
    match Narrow(w0, SlabOf(r, b, X))
    case None => false
    case Some(w1) =>
      match Narrow(w1, SlabOf(r, b, Y))
      case None => false
      case Some(w2) =>
        match Narrow(w2, SlabOf(r, b, Z))
        case None => false
        case Some(w3) => IsOpen(w0) && IsOpen(w3)
  }

  /** Narrowing an empty window leaves it empty, so testing after every axis or only at the end agrees. */
  lemma NarrowKeepsEmpty(w: Window, s: Slab)
    requires !IsOpen(w)
    ensures Narrow(w, s).None? || !IsOpen(Narrow(w, s).value)
  {
  }

  /** Narrowing only ever shrinks the window. */
  lemma NarrowShrinks(w: Window, s: Slab)
    requires Narrow(w, s).Some? && IsOpen(Narrow(w, s).value)
    ensures IsOpen(w)
  {
  }

  lemma EarlyExitsIrrelevant(r: Ray, b: Box3, tMin: real, tMax: Bound)
    ensures IntersectRayBox(r, b, tMin, tMax) == IntersectWithoutEarlyExit(r, b, tMin, tMax)
  {
    var w0 := Window(tMin, tMax);
    var sx, sy, sz := SlabOf(r, b, X), SlabOf(r, b, Y), SlabOf(r, b, Z);
    if Narrow(w0, sx).Some? {
      var w1 := Narrow(w0, sx).value;
      if !IsOpen(w1) {
        NarrowKeepsEmpty(w1, sy);
        if Narrow(w1, sy).Some? {
          NarrowKeepsEmpty(Narrow(w1, sy).value, sz);
        }
      }
      if Narrow(w1, sy).Some? {
        var w2 := Narrow(w1, sy).value;
        if !IsOpen(w2) {
          NarrowKeepsEmpty(w2, sz);
        }
        if Narrow(w2, sz).Some? && IsOpen(Narrow(w2, sz).value) {
          NarrowShrinks(w2, sz);
          NarrowShrinks(w1, sy);
          NarrowShrinks(w0, sx);
        }
      }
    }
  }

  /** The window left after narrowing with one slab admits exactly what the slab and the old window admit
      together. */
  lemma NarrowOpenIff(w: Window, s: Slab)
    requires !s.Excluded?
    ensures IsOpen(Narrow(w, s).value) <==>
      IsOpen(w) && (s.Span? ==> w.lo < s.exit && Below(s.entry, w.hi) && s.entry < s.exit)
  {
  }

  lemma IntersectMatchesReference(r: Ray, b: Box3, tMin: real, tMax: Bound)
    ensures IntersectWithoutEarlyExit(r, b, tMin, tMax) <==> Admits(r, b, tMin, tMax)
  {
    var sx, sy, sz := SlabOf(r, b, X), SlabOf(r, b, Y), SlabOf(r, b, Z);
    var w0 := Window(tMin, tMax);
    if sx.Excluded? || sy.Excluded? || sz.Excluded? {
      assert !Admits(r, b, tMin, tMax) by {
        if sx.Excluded? {
          assert SlabOf(r, b, X).Excluded?;
        } else if sy.Excluded? {
          assert SlabOf(r, b, Y).Excluded?;
        } else {
          assert SlabOf(r, b, Z).Excluded?;
        }
      }
    } else {
      assert forall a :: !SlabOf(r, b, a).Excluded? by {
        assert forall a :: SlabOf(r, b, a) == sx || SlabOf(r, b, a) == sy || SlabOf(r, b, a) == sz;
      }
      NarrowThree(sx, sy, sz, w0);
      AdmitsPairwise(r, b, tMin, tMax);
    }
  }

  /** A slab's exit, if any, lies above `lo`. */
  predicate ExitAbove(lo: real, s: Slab) {
    s.Span? ==> lo < s.exit
  }

  /** A slab's entry, if any, lies below `hi`. */
  predicate EntryBelow(s: Slab, hi: Bound) {
    s.Span? ==> Below(s.entry, hi)
  }

  /** One slab's entry lies below another's exit. */
  predicate Meets(s: Slab, c: Slab) {
    s.Span? && c.Span? ==> s.entry < c.exit
  }

  /** The reference condition for three slabs none of which excludes the ray, written out pair by pair. */
  predicate PairwiseAdmit(sx: Slab, sy: Slab, sz: Slab, tMin: real, tMax: Bound) {
    Below(tMin, tMax) &&
    ExitAbove(tMin, sx) && ExitAbove(tMin, sy) && ExitAbove(tMin, sz) &&
    EntryBelow(sx, tMax) && EntryBelow(sy, tMax) && EntryBelow(sz, tMax) &&
    Meets(sx, sx) && Meets(sx, sy) && Meets(sx, sz) &&
    Meets(sy, sx) && Meets(sy, sy) && Meets(sy, sz) &&
    Meets(sz, sx) && Meets(sz, sy) && Meets(sz, sz)
  }

  /** The narrowed window's lower end lies below `t` exactly when the old one and the slab's entry do. */
  lemma NarrowedLowBelow(w: Window, s: Slab, t: real)
    requires !s.Excluded?
    ensures Narrow(w, s).value.lo < t <==> w.lo < t && (s.Span? ==> s.entry < t)
  {
  }

  /** The narrowed window's upper end lies above `t` exactly when the old one and the slab's exit do. */
  lemma NarrowedHighAbove(w: Window, s: Slab, t: real)
    requires !s.Excluded?
    ensures Below(t, Narrow(w, s).value.hi) <==> Below(t, w.hi) && (s.Span? ==> t < s.exit)
  {
  }

  /** Narrowing by three slabs in turn leaves an open window exactly when they admit the ray pairwise. */
  lemma NarrowThree(sx: Slab, sy: Slab, sz: Slab, w0: Window)
    requires !sx.Excluded? && !sy.Excluded? && !sz.Excluded?
    ensures IsOpen(w0) && IsOpen(Narrow(Narrow(Narrow(w0, sx).value, sy).value, sz).value) <==>
      PairwiseAdmit(sx, sy, sz, w0.lo, w0.hi)
  {
    var w1 := Narrow(w0, sx).value;
    var w2 := Narrow(w1, sy).value;
    NarrowOpenIff(w0, sx);
    NarrowOpenIff(w1, sy);
    NarrowOpenIff(w2, sz);
    if sy.Span? {
      NarrowedHighAbove(w0, sx, sy.entry);
    }
    if sz.Span? {
      NarrowedLowBelow(w1, sy, sz.exit);
      NarrowedLowBelow(w0, sx, sz.exit);
      NarrowedHighAbove(w1, sy, sz.entry);
      NarrowedHighAbove(w0, sx, sz.entry);
    }
    if sy.Span? {
      NarrowedLowBelow(w0, sx, sy.exit);
    }
  }

  /** The reference condition on a box is the pairwise condition on its three slabs. */
  lemma AdmitsPairwise(r: Ray, b: Box3, tMin: real, tMax: Bound)
    requires forall a :: !SlabOf(r, b, a).Excluded?
    ensures Admits(r, b, tMin, tMax) <==>
      PairwiseAdmit(SlabOf(r, b, X), SlabOf(r, b, Y), SlabOf(r, b, Z), tMin, tMax)
  {
    var sx, sy, sz := SlabOf(r, b, X), SlabOf(r, b, Y), SlabOf(r, b, Z);
    assert forall a :: SlabOf(r, b, a) == sx || SlabOf(r, b, a) == sy || SlabOf(r, b, a) == sz;
  }

  /** After the swap, a valid box gives every axis an entry no later than its exit. */
  lemma EntryBeforeExit(r: Ray, b: Box3, a: Axis)
    requires IsValid(b) && SlabOf(r, b, a).Span?
    ensures SlabOf(r, b, a).entry <= SlabOf(r, b, a).exit
  {
    var o, d, lo, hi := Get(r.origin, a), Get(r.direction, a), Get(b.min, a), Get(b.max, a);
    assert lo <= hi;
    var inv := 1.0 / d;
    if inv < 0.0 {
      MulRightMono(lo - o, hi - o, -inv);
      assert Prod(lo - o, -inv) == -Prod(lo - o, inv);
      assert Prod(hi - o, -inv) == -Prod(hi - o, inv);
    } else {
      MulRightMono(lo - o, hi - o, inv);
    }
  }

  /** An empty input window is never hit. */
  lemma EmptyWindowMisses(r: Ray, b: Box3, tMin: real, tMax: Bound)
    requires !Below(tMin, tMax)
    ensures !IntersectRayBox(r, b, tMin, tMax)
  {
  }

  /** Raising tMin or lowering tMax never turns a miss into a hit. */
  lemma NarrowerWindowMisses(r: Ray, b: Box3, tMin: real, tMax: Bound, tMin': real, tMax': Bound)
    requires tMin <= tMin' && BoundLe(tMax', tMax)
    requires IntersectRayBox(r, b, tMin', tMax')
    ensures IntersectRayBox(r, b, tMin, tMax)
  {
  }

  /** Widening the extent of one axis: the slab starts no later and ends no earlier. */
  lemma WiderAxisSlab(o: real, d: real, lo: real, hi: real, lo': real, hi': real)
    requires lo' <= lo && hi <= hi'
    requires !AxisSlab(o, d, lo, hi).Excluded?
    ensures !AxisSlab(o, d, lo', hi').Excluded?
    ensures AxisSlab(o, d, lo, hi).Span? ==>
      AxisSlab(o, d, lo', hi').entry <= AxisSlab(o, d, lo, hi).entry &&
      AxisSlab(o, d, lo, hi).exit <= AxisSlab(o, d, lo', hi').exit
  {
    if d != 0.0 {
      var inv := 1.0 / d;
      if inv < 0.0 {
        MulRightAnti(lo' - o, lo - o, inv);
        MulRightAnti(hi - o, hi' - o, inv);
      } else {
        MulRightMono(lo' - o, lo - o, inv);
        MulRightMono(hi - o, hi' - o, inv);
      }
    }
  }

  /** A box enclosing one the ray hits is hit too, over the same window. */
  lemma EnclosingBoxHit(r: Ray, inner: Box3, outer: Box3, tMin: real, tMax: Bound)
    requires Encloses(outer, inner)
    requires IntersectRayBox(r, inner, tMin, tMax)
    ensures IntersectRayBox(r, outer, tMin, tMax)
  {
    forall a
      ensures !SlabOf(r, outer, a).Excluded?
      ensures SlabOf(r, outer, a).Span? ==>
        SlabOf(r, outer, a).entry <= SlabOf(r, inner, a).entry && SlabOf(r, inner, a).exit <= SlabOf(r, outer, a).exit
    {
      WiderAxisSlab(Get(r.origin, a), Get(r.direction, a), Get(inner.min, a), Get(inner.max, a),
        Get(outer.min, a), Get(outer.max, a));
    }
  }

  /** The point at parameter `t`, on one axis. */
  lemma AtOnAxis(r: Ray, t: real, a: Axis)
    ensures Get(At(r, t), a) == Get(r.origin, a) + Prod(t, Get(r.direction, a))
  {
    assert Sub(At(r, t), r.origin) == ScaleLeft(t, r.direction);
    assert Get(Sub(At(r, t), r.origin), a) == Get(ScaleLeft(t, r.direction), a);
  }

  /** The span of a moving axis is exactly the parameters whose point lies in the box's extent on that
      axis, boundary included; its inside is the parameters whose point lies strictly within. */
  lemma SpanMeaning(r: Ray, b: Box3, a: Axis, t: real)
    requires SlabOf(r, b, a).Span?
    ensures SlabOf(r, b, a).entry <= t <= SlabOf(r, b, a).exit <==> Get(b.min, a) <= Get(At(r, t), a) <= Get(b.max, a)
    ensures SlabOf(r, b, a).entry < t < SlabOf(r, b, a).exit <==> Get(b.min, a) < Get(At(r, t), a) < Get(b.max, a)
  {
    var o, d, lo, hi := Get(r.origin, a), Get(r.direction, a), Get(b.min, a), Get(b.max, a);
    AtOnAxis(r, t, a);
    CompareQuotient(lo - o, d, t);
    CompareQuotient(hi - o, d, t);
    assert 1.0 / d < 0.0 <==> d < 0.0;
  }

  /** On a still axis the ray's point never moves. */
  lemma StillAxis(r: Ray, a: Axis, t: real)
    requires Get(r.direction, a) == 0.0
    ensures Get(At(r, t), a) == Get(r.origin, a)
  {
    AtOnAxis(r, t, a);
  }

  /** A hit means the ray is inside the box at some parameter strictly inside the window. */
  lemma HitPassesThrough(r: Ray, b: Box3, tMin: real, tMax: Bound) returns (t: real)
    requires IntersectRayBox(r, b, tMin, tMax)
    ensures tMin < t && Below(t, tMax) && Contains(b, At(r, t))
  {
    EarlyExitsIrrelevant(r, b, tMin, tMax);
    var w0 := Window(tMin, tMax);
    var w1 := Narrow(w0, SlabOf(r, b, X)).value;
    var w2 := Narrow(w1, SlabOf(r, b, Y)).value;
    var w3 := Narrow(w2, SlabOf(r, b, Z)).value;
    t := if w3.hi.Finite? then (w3.lo + w3.hi.value) / 2.0 else w3.lo + 1.0;
    assert w3.lo < t && Below(t, w3.hi);
    forall a
      ensures Get(b.min, a) <= Get(At(r, t), a) <= Get(b.max, a)
    {
      if SlabOf(r, b, a).Span? {
        SpanMeaning(r, b, a, t);
      } else {
        StillAxis(r, a, t);
      }
    }
    ContainsPerAxis(b, At(r, t));
  }

  /** A parameter strictly inside the window and strictly inside every moving axis's span, with no axis
      excluding the ray, makes a hit. */
  lemma WitnessHits(r: Ray, b: Box3, tMin: real, tMax: Bound, t: real)
    requires tMin < t && Below(t, tMax)
    requires forall a :: !SlabOf(r, b, a).Excluded?
    requires forall a :: SlabOf(r, b, a).Span? ==> SlabOf(r, b, a).entry < t < SlabOf(r, b, a).exit
    ensures IntersectRayBox(r, b, tMin, tMax)
  {
  }

  /** A ray strictly inside the box at a parameter of a non-empty window, ends included, hits it. */
  lemma InteriorPointHits(r: Ray, b: Box3, tMin: real, tMax: Bound, t: real)
    requires Below(tMin, tMax) && tMin <= t && AtMost(t, tMax)
    requires forall a :: Get(b.min, a) < Get(At(r, t), a) < Get(b.max, a)
    ensures IntersectRayBox(r, b, tMin, tMax)
  {
    forall a
      ensures !SlabOf(r, b, a).Excluded?
      ensures SlabOf(r, b, a).Span? ==> SlabOf(r, b, a).entry < t < SlabOf(r, b, a).exit
    {
      if Get(r.direction, a) == 0.0 {
        StillAxis(r, a, t);
      } else {
        SpanMeaning(r, b, a, t);
      }
    }
    assert Admits(r, b, tMin, tMax);
  }

  /** A unit direction component moves one unit of distance per unit of the parameter. */
  lemma UnitAxisSlab(o: real, d: real, lo: real, hi: real)
    requires d == 1.0 || d == -1.0
    ensures AxisSlab(o, d, lo, hi) == if d == 1.0 then Span(lo - o, hi - o) else Span(o - hi, o - lo)
  {
    assert 1.0 / d == d;
  }

  /** The box (3,3,3)-(5,5,5) of HelpersTests.TestIntersectRayBox. */
  function TestBox(): (b: Box3)
    ensures b.min == Vec3(3.0, 3.0, 3.0) && b.max == Vec3(5.0, 5.0, 5.0)
  {
    FromPoints(Vec3(3.0, 3.0, 3.0), Vec3(5.0, 5.0, 5.0))
  }

  /** Row 1 of HelpersTests.TestIntersectRayBox: origin (0.0,0.0,3.0), direction (1.0,1.0,0.0), time zero as the two-argument constructor sets it: reported hit. */
  lemma TestRow1Hits()
    ensures IntersectRayBoxDefault(Ray(Vec3(0.0, 0.0, 3.0), Vec3(1.0, 1.0, 0.0), 0.0), TestBox())
  {
    var r := Ray(Vec3(0.0, 0.0, 3.0), Vec3(1.0, 1.0, 0.0), 0.0);
    UnitAxisSlab(Get(r.origin, X), Get(r.direction, X), Get(TestBox().min, X), Get(TestBox().max, X));
    assert SlabOf(r, TestBox(), X) == Span(3.0, 5.0);
    UnitAxisSlab(Get(r.origin, Y), Get(r.direction, Y), Get(TestBox().min, Y), Get(TestBox().max, Y));
    assert SlabOf(r, TestBox(), Y) == Span(3.0, 5.0);
    assert SlabOf(r, TestBox(), Z) == Unconstrained;
    WitnessHits(r, TestBox(), 0.0, Infinity, 4.0);
  }

  /** Row 2 of HelpersTests.TestIntersectRayBox: origin (0.0,0.0,3.1), direction (1.0,1.0,0.0), time zero as the two-argument constructor sets it: reported hit. */
  lemma TestRow2Hits()
    ensures IntersectRayBoxDefault(Ray(Vec3(0.0, 0.0, 3.1), Vec3(1.0, 1.0, 0.0), 0.0), TestBox())
  {
    var r := Ray(Vec3(0.0, 0.0, 3.1), Vec3(1.0, 1.0, 0.0), 0.0);
    UnitAxisSlab(Get(r.origin, X), Get(r.direction, X), Get(TestBox().min, X), Get(TestBox().max, X));
    assert SlabOf(r, TestBox(), X) == Span(3.0, 5.0);
    UnitAxisSlab(Get(r.origin, Y), Get(r.direction, Y), Get(TestBox().min, Y), Get(TestBox().max, Y));
    assert SlabOf(r, TestBox(), Y) == Span(3.0, 5.0);
    assert SlabOf(r, TestBox(), Z) == Unconstrained;
    WitnessHits(r, TestBox(), 0.0, Infinity, 4.0);
  }

  /** Row 3 of HelpersTests.TestIntersectRayBox: origin (0.0,0.0,4.0), direction (1.0,1.0,0.0), time zero as the two-argument constructor sets it: reported hit. */
  lemma TestRow3Hits()
    ensures IntersectRayBoxDefault(Ray(Vec3(0.0, 0.0, 4.0), Vec3(1.0, 1.0, 0.0), 0.0), TestBox())
  {
    var r := Ray(Vec3(0.0, 0.0, 4.0), Vec3(1.0, 1.0, 0.0), 0.0);
    UnitAxisSlab(Get(r.origin, X), Get(r.direction, X), Get(TestBox().min, X), Get(TestBox().max, X));
    assert SlabOf(r, TestBox(), X) == Span(3.0, 5.0);
    UnitAxisSlab(Get(r.origin, Y), Get(r.direction, Y), Get(TestBox().min, Y), Get(TestBox().max, Y));
    assert SlabOf(r, TestBox(), Y) == Span(3.0, 5.0);
    assert SlabOf(r, TestBox(), Z) == Unconstrained;
    WitnessHits(r, TestBox(), 0.0, Infinity, 4.0);
  }

  /** Row 4 of HelpersTests.TestIntersectRayBox: origin (3.0,0.0,3.0), direction (0.0,1.0,0.0), time zero as the two-argument constructor sets it: reported hit. */
  lemma TestRow4Hits()
    ensures IntersectRayBoxDefault(Ray(Vec3(3.0, 0.0, 3.0), Vec3(0.0, 1.0, 0.0), 0.0), TestBox())
  {
    var r := Ray(Vec3(3.0, 0.0, 3.0), Vec3(0.0, 1.0, 0.0), 0.0);
    assert SlabOf(r, TestBox(), X) == Unconstrained;
    UnitAxisSlab(Get(r.origin, Y), Get(r.direction, Y), Get(TestBox().min, Y), Get(TestBox().max, Y));
    assert SlabOf(r, TestBox(), Y) == Span(3.0, 5.0);
    assert SlabOf(r, TestBox(), Z) == Unconstrained;
    WitnessHits(r, TestBox(), 0.0, Infinity, 4.0);
  }

  /** Row 5 of HelpersTests.TestIntersectRayBox: origin (3.0,6.0,3.0), direction (0.0,-1.0,0.0), time zero as the two-argument constructor sets it: reported hit. */
  lemma TestRow5Hits()
    ensures IntersectRayBoxDefault(Ray(Vec3(3.0, 6.0, 3.0), Vec3(0.0, -1.0, 0.0), 0.0), TestBox())
  {
    var r := Ray(Vec3(3.0, 6.0, 3.0), Vec3(0.0, -1.0, 0.0), 0.0);
    assert SlabOf(r, TestBox(), X) == Unconstrained;
    UnitAxisSlab(Get(r.origin, Y), Get(r.direction, Y), Get(TestBox().min, Y), Get(TestBox().max, Y));
    assert SlabOf(r, TestBox(), Y) == Span(1.0, 3.0);
    assert SlabOf(r, TestBox(), Z) == Unconstrained;
    WitnessHits(r, TestBox(), 0.0, Infinity, 2.0);
  }
}
