/** `BvhHittable.Hit` of RTI1W/Hittable.cs: a node answers nothing when the ray misses its bounds, and
    otherwise asks its left child over the caller's window and its right child over the window cut at the
    left child's hit. A node answers exactly like a list of its leaves as long as its bounds are hit
    whenever one of its candidates lies in a non-empty window. */
module BvhQueries {
  import opened Wrappers
  import opened Vectors
  import opened Rays
  import opened Boxes
  import opened SlabTest
  import opened Nearest
  import opened Hittables
  import opened Queries

  /** The box `b` is hit over every non-empty window that holds the parameter `t`. */
  ghost predicate Seen(r: Ray, b: Box3, t: real) {
    forall lo: real, hi: Bound :: InWindow(t, lo, hi) && Below(lo, hi) ==> IntersectRayBox(r, b, lo, hi)
  }

  /** A box enclosing one seen at `t` is seen at `t` too. */
  lemma SeenByEnclosing(r: Ray, inner: Box3, outer: Box3, t: real)
    requires Encloses(outer, inner) && Seen(r, inner, t)
    ensures Seen(r, outer, t)
  {
    forall lo: real, hi: Bound | InWindow(t, lo, hi) && Below(lo, hi)
      ensures IntersectRayBox(r, outer, lo, hi)
    {
      EnclosingBoxHit(r, inner, outer, lo, hi);
    }
  }

  /** A shape's or list's own box is seen at each of its candidates: the one assumption under which a BVH
      over such items answers like a list of them. */
  ghost predicate BoxSound(h: Hittable, r: Ray, sqrt: real -> real)
    requires Valid(h) && r.direction != Zero && IsSquareRoot(sqrt)
  {
    forall t | t in Candidates(h, r, sqrt) :: Seen(r, BoundingBox(h), t)
  }

  /** A primitive whose candidate points lie strictly inside its box is box-sound. */
  lemma PrimitiveBoxSound(candidates: seq<real>, box: Box3, outward: Vec3, material: MaterialRef, r: Ray,
                          sqrt: real -> real)
    requires r.direction != Zero && IsSquareRoot(sqrt)
    requires forall t, a | t in candidates :: Get(box.min, a) < Get(At(r, t), a) < Get(box.max, a)
    ensures BoxSound(Primitive(candidates, box, outward, material), r, sqrt)
  {
    forall t, lo: real, hi: Bound | t in candidates && InWindow(t, lo, hi) && Below(lo, hi)
      ensures IntersectRayBox(r, box, lo, hi)
    {
      InteriorPointHits(r, box, lo, hi, t);
    }
  }

  /** Every node's bounds are hit whenever one of the node's candidates is in the window; below the nodes
      there are only shapes and lists. */
  ghost predicate SoundTree(h: Hittable, r: Ray, sqrt: real -> real)
    requires Valid(h) && r.direction != Zero && IsSquareRoot(sqrt)
  {
    match h
    case BvhNode(bounds, left, right) =>
      SoundTree(left, r, sqrt) && SoundTree(right, r, sqrt) &&
      forall t | t in Candidates(h, r, sqrt) :: Seen(r, bounds, t)
    case _ => NoBvh(h)
  }

  /** Whatever its children, a node whose bounds the ray misses reports no hit. */
  lemma BvhPrunes(bounds: Box3, left: Hittable, right: Hittable, left': Hittable, right': Hittable,
                  r: Ray, lo: real, hi: Bound, sqrt: real -> real)
    requires Valid(left) && Valid(right) && Valid(left') && Valid(right') && r.direction != Zero && IsSquareRoot(sqrt)
    requires !IntersectRayBox(r, bounds, lo, hi)
    ensures Hit(BvhNode(bounds, left, right), r, lo, hi, sqrt).None?
    ensures Hit(BvhNode(bounds, left, right), r, lo, hi, sqrt) == Hit(BvhNode(bounds, left', right'), r, lo, hi, sqrt)
  {
  }

  /** A node's least candidate in a non-empty window makes the ray hit a sound node's bounds. */
  lemma NearestSeen(h: Hittable, r: Ray, lo: real, hi: Bound, sqrt: real -> real)
    requires h.BvhNode? && Valid(h) && r.direction != Zero && IsSquareRoot(sqrt)
    requires SoundTree(h, r, sqrt) && Below(lo, hi)
    ensures NearestIn(Candidates(h, r, sqrt), lo, hi).Some? ==> IntersectRayBox(r, h.bounds, lo, hi)
  {
    var n := NearestIn(Candidates(h, r, sqrt), lo, hi);
    if n.Some? {
      assert Seen(r, h.bounds, n.value);
    }
  }

  /** The step of `BvhIsNearest` at a node whose bounds are hit, from what its children find. */
  lemma NodeIsNearest(bounds: Box3, left: Hittable, right: Hittable, r: Ray, lo: real, hi: Bound, sqrt: real -> real)
    requires Valid(left) && Valid(right) && r.direction != Zero && IsSquareRoot(sqrt)
    requires Below(lo, hi) && IntersectRayBox(r, bounds, lo, hi)
    requires TimeOf(Hit(left, r, lo, hi, sqrt)) == NearestIn(Candidates(left, r, sqrt), lo, hi)
    requires Below(lo, Closest(Hit(left, r, lo, hi, sqrt), hi)) ==>
      TimeOf(Hit(right, r, lo, Closest(Hit(left, r, lo, hi, sqrt), hi), sqrt)) ==
      NearestIn(Candidates(right, r, sqrt), lo, Closest(Hit(left, r, lo, hi, sqrt), hi))
    ensures TimeOf(Hit(BvhNode(bounds, left, right), r, lo, hi, sqrt)) ==
      NearestIn(Candidates(BvhNode(bounds, left, right), r, sqrt), lo, hi)
  {
    var hitLeft := Hit(left, r, lo, hi, sqrt);
    var c := Closest(hitLeft, hi);
    var hitRight := Hit(right, r, lo, c, sqrt);
    assert TimeOf(Hit(BvhNode(bounds, left, right), r, lo, hi, sqrt)) ==
      if TimeOf(hitRight).Some? then TimeOf(hitRight) else TimeOf(hitLeft);
    CombineIsNearest(Candidates(left, r, sqrt), Candidates(right, r, sqrt), lo, hi, TimeOf(hitLeft), TimeOf(hitRight));
  }

  /** The node's combination of its children's answers, on parameters: the right child's answer in the window
      cut at the left child's, if any, else the left child's. */
  lemma CombineIsNearest(cl: seq<real>, cr: seq<real>, lo: real, hi: Bound, tl: Option<real>, tr: Option<real>)
    requires Below(lo, hi) && tl == NearestIn(cl, lo, hi)
    requires tr.Some? ==> InWindow(tr.value, lo, if tl.Some? then Finite(tl.value) else hi)
    requires Below(lo, if tl.Some? then Finite(tl.value) else hi) ==>
      tr == NearestIn(cr, lo, if tl.Some? then Finite(tl.value) else hi)
    ensures (if tr.Some? then tr else tl) == NearestIn(cl + cr, lo, hi)
  {
    NearestOfConcat(cl, cr, lo, hi);
    if tl.Some? && !Below(lo, Finite(tl.value)) {
      // The cut window is the single point `lo`, the left child's answer.
      var n := NearestIn(cr, lo, Finite(tl.value));
      assert tl.value == lo;
      assert n.Some? ==> n.value == lo;
      assert tr.Some? ==> tr.value == lo;
    }
  }

  /** A sound tree finds the least candidate in every non-empty window, like a list of its leaves. When the
      left child's hit sits at the window's lower end, the right child's window is the single point
      `tMin`: whatever it returns, the node reports `tMin`. */
  lemma {:induction false} BvhIsNearest(h: Hittable, r: Ray, lo: real, hi: Bound, sqrt: real -> real)
    requires Valid(h) && r.direction != Zero && IsSquareRoot(sqrt)
    requires SoundTree(h, r, sqrt) && Below(lo, hi)
    ensures TimeOf(Hit(h, r, lo, hi, sqrt)) == NearestIn(Candidates(h, r, sqrt), lo, hi)
    decreases h
  {
    match h
    case BvhNode(bounds, left, right) =>
      NearestSeen(h, r, lo, hi, sqrt);
      if IntersectRayBox(r, bounds, lo, hi) {
        var hitLeft := Hit(left, r, lo, hi, sqrt);
        var c := Closest(hitLeft, hi);
        BvhIsNearest(left, r, lo, hi, sqrt);
        if Below(lo, c) {
          BvhIsNearest(right, r, lo, c, sqrt);
        }
        NodeIsNearest(bounds, left, right, r, lo, hi, sqrt);
      }
    case _ =>
      HitIsNearest(h, r, lo, hi, sqrt);
  }
}
