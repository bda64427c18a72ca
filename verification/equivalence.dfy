/** The tree `CreateBvh` builds answers every ray query over a non-empty window like the `HittableList` of
    the same items: the same hit or miss at the same parameter. It holds for items that are shapes or lists
    (no BVH inside) whose own boxes are seen at each of their candidates (`BoxSound`), whatever order the
    sort leaves the items in. */
module Equivalence {
  import opened Wrappers
  import opened Vectors
  import opened Rays
  import opened Boxes
  import opened Nearest
  import opened Hittables
  import opened Queries
  import opened BvhQueries
  import opened Bvh
  import SlabTest

  /** An info ready for the tree: a valid shape or list, no BVH inside, its stored box seen at each of its
      candidates. */
  ghost predicate Ready(x: NodeInfo, r: Ray, sqrt: real -> real)
    requires r.direction != Zero && IsSquareRoot(sqrt)
  {
    Valid(x.hittable) && NoBvh(x.hittable) &&
    forall t | t in Candidates(x.hittable, r, sqrt) :: Seen(r, x.bounds, t)
  }

  /** `t` is a candidate of one of the span's hittables. */
  ghost predicate CandidateOfSpan(s: seq<NodeInfo>, r: Ray, sqrt: real -> real, t: real)
    requires r.direction != Zero && IsSquareRoot(sqrt)
  {
    exists x | x in s && Valid(x.hittable) :: t in Candidates(x.hittable, r, sqrt)
  }

  /** The built tree is valid, and its candidates are exactly those of the span's hittables. */
  lemma {:induction false} BuiltCandidates(s: seq<NodeInfo>, order: (seq<NodeInfo>, Axis) -> seq<NodeInfo>,
                                           r: Ray, sqrt: real -> real, t: real)
    requires |s| > 0 && IsReordering(order) && r.direction != Zero && IsSquareRoot(sqrt)
    requires forall x | x in s :: Valid(x.hittable)
    ensures Valid(CreateBvhSpan(s, order).value)
    ensures t in Candidates(CreateBvhSpan(s, order).value, r, sqrt) <==> CandidateOfSpan(s, r, sqrt, t)
    decreases |s|
  {
    var tree := CreateBvhSpan(s, order).value;
    if |s| <= 2 {
      SmallSpanCandidates(s, order, r, sqrt, t);
    } else {
      var a, b := SplitSpan(s, order);
      HalvesItems(s, a, b);
      BuiltCandidates(a, order, r, sqrt, t);
      BuiltCandidates(b, order, r, sqrt, t);
      HalvesCandidates(s, a, b, r, sqrt, t);
    }
  }

  /** The base cases of `BuiltCandidates`: a node over one item twice or over two items. */
  lemma {:induction false} SmallSpanCandidates(s: seq<NodeInfo>, order: (seq<NodeInfo>, Axis) -> seq<NodeInfo>,
                            r: Ray, sqrt: real -> real, t: real)
    requires 0 < |s| <= 2 && IsReordering(order) && r.direction != Zero && IsSquareRoot(sqrt)
    requires forall x | x in s :: Valid(x.hittable)
    ensures Valid(CreateBvhSpan(s, order).value)
    ensures t in Candidates(CreateBvhSpan(s, order).value, r, sqrt) <==> CandidateOfSpan(s, r, sqrt, t)
  {
    var x := s[0];
    assert x in s;
    var y := if |s| == 1 then x else s[1];
    assert y in s;
    assert CreateBvhSpan(s, order).value == BvhNode(UnionBounds(s), x.hittable, y.hittable);
    if CandidateOfSpan(s, r, sqrt, t) {
      var z :| z in s && Valid(z.hittable) && t in Candidates(z.hittable, r, sqrt);
      assert z == x || z == y;
    }
  }

  /** The step of `BuiltCandidates`: a candidate of either half is a candidate of the span and back. */
  lemma {:induction false} HalvesCandidates(s: seq<NodeInfo>, a: seq<NodeInfo>, b: seq<NodeInfo>, r: Ray, sqrt: real -> real, t: real)
    requires r.direction != Zero && IsSquareRoot(sqrt)
    requires forall x | x in s :: Valid(x.hittable)
    requires forall x | x in a :: x in s
    requires forall x | x in b :: x in s
    requires forall x | x in s :: x in a || x in b
    ensures CandidateOfSpan(s, r, sqrt, t) <==> CandidateOfSpan(a, r, sqrt, t) || CandidateOfSpan(b, r, sqrt, t)
  {
    if CandidateOfSpan(s, r, sqrt, t) {
      var z :| z in s && Valid(z.hittable) && t in Candidates(z.hittable, r, sqrt);
      assert z in a || z in b;
    }
    if CandidateOfSpan(a, r, sqrt, t) {
      var z :| z in a && Valid(z.hittable) && t in Candidates(z.hittable, r, sqrt);
      assert z in s;
    }
    if CandidateOfSpan(b, r, sqrt, t) {
      var z :| z in b && Valid(z.hittable) && t in Candidates(z.hittable, r, sqrt);
      assert z in s;
    }
  }

  /** Built from ready items, every node's bounds are seen at each of the node's candidates. */
  lemma {:induction false} BuiltSound(s: seq<NodeInfo>, order: (seq<NodeInfo>, Axis) -> seq<NodeInfo>,
                                      r: Ray, sqrt: real -> real)
    requires |s| > 0 && IsReordering(order) && r.direction != Zero && IsSquareRoot(sqrt)
    requires forall x | x in s :: Ready(x, r, sqrt)
    ensures Valid(CreateBvhSpan(s, order).value) && SoundTree(CreateBvhSpan(s, order).value, r, sqrt)
    decreases |s|
  {
    var tree := CreateBvhSpan(s, order).value;
    if |s| <= 2 {
      var x := s[0];
      assert x in s;
      var y := if |s| == 1 then x else s[1];
      assert y in s;
      assert tree == BvhNode(UnionBounds(s), x.hittable, y.hittable);
    } else {
      var a, b := SplitSpan(s, order);
      HalvesItems(s, a, b);
      BuiltSound(a, order, r, sqrt);
      BuiltSound(b, order, r, sqrt);
    }
    BuiltCandidatesSeen(s, order, r, sqrt);
  }

  /** The root's bounds are seen at each of the tree's candidates. */
  lemma {:induction false} BuiltCandidatesSeen(s: seq<NodeInfo>, order: (seq<NodeInfo>, Axis) -> seq<NodeInfo>,
                            r: Ray, sqrt: real -> real)
    requires |s| > 0 && IsReordering(order) && r.direction != Zero && IsSquareRoot(sqrt)
    requires forall x | x in s :: Ready(x, r, sqrt)
    ensures Valid(CreateBvhSpan(s, order).value)
    ensures forall t | t in Candidates(CreateBvhSpan(s, order).value, r, sqrt) ::
      Seen(r, CreateBvhSpan(s, order).value.bounds, t)
  {
    var tree := CreateBvhSpan(s, order).value;
    BuiltCandidates(s, order, r, sqrt, 0.0);
    forall t | t in Candidates(tree, r, sqrt)
      ensures Seen(r, tree.bounds, t)
    {
      BuiltCandidates(s, order, r, sqrt, t);
      var x :| x in s && Valid(x.hittable) && t in Candidates(x.hittable, r, sqrt);
      var i :| 0 <= i < |s| && s[i] == x;
      SeenByEnclosing(r, x.bounds, UnionBounds(s), t);
    }
  }

  /** Headline: the BVH built over box-sound shapes and lists reports, over every non-empty window, a hit
      exactly when the list of the same items does, at the same parameter. */
  lemma {:induction false} BvhMatchesList(items: seq<Hittable>, box: Box3, order: (seq<NodeInfo>, Axis) -> seq<NodeInfo>,
                       r: Ray, lo: real, hi: Bound, sqrt: real -> real)
    requires |items| > 0 && IsReordering(order) && r.direction != Zero && IsSquareRoot(sqrt) && Below(lo, hi)
    requires forall i | 0 <= i < |items| :: Valid(items[i]) && NoBvh(items[i]) && BoxSound(items[i], r, sqrt)
    ensures CreateBvh(items, order).Success? && Valid(CreateBvh(items, order).value)
    ensures Hit(CreateBvh(items, order).value, r, lo, hi, sqrt).Some? <==> Hit(HittableList(items, box), r, lo, hi, sqrt).Some?
    ensures TimeOf(Hit(CreateBvh(items, order).value, r, lo, hi, sqrt)) == TimeOf(Hit(HittableList(items, box), r, lo, hi, sqrt))
  {
    var s := ToNodeInfos(items);
    var list := HittableList(items, box);
    forall x | x in s
      ensures Ready(x, r, sqrt)
    {
      var i :| 0 <= i < |s| && s[i] == x;
    }
    BuiltSound(s, order, r, sqrt);
    var tree := CreateBvh(items, order).value;
    BvhIsNearest(tree, r, lo, hi, sqrt);
    HitIsNearest(list, r, lo, hi, sqrt);
    forall t
      ensures t in Candidates(tree, r, sqrt) <==> t in Candidates(list, r, sqrt)
    {
      BuiltCandidates(s, order, r, sqrt, t);
      CandidatesUpToMembers(list, |items|, r, sqrt, t);
      SameCandidates(items, s, r, sqrt, t);
    }
    NearestOfSameValues(Candidates(tree, r, sqrt), Candidates(list, r, sqrt), lo, hi);
  }

  /** The premise `tMin < tMax` of `BvhMatchesList` cannot be dropped: a shape hit at `t` strictly inside its
      box is box-sound, yet over the window [t, t] the list holding it reports the hit while the BVH built
      over it fails the slab test and misses. */
  lemma DegenerateWindowDiverges(t: real, box: Box3, outward: Vec3, material: MaterialRef,
                                 order: (seq<NodeInfo>, Axis) -> seq<NodeInfo>, r: Ray, sqrt: real -> real)
    requires IsReordering(order) && r.direction != Zero && IsSquareRoot(sqrt)
    requires forall a :: Get(box.min, a) < Get(At(r, t), a) < Get(box.max, a)
    ensures BoxSound(Primitive([t], box, outward, material), r, sqrt)
    ensures CreateBvh([Primitive([t], box, outward, material)], order).Success?
    ensures Hit(HittableList([Primitive([t], box, outward, material)], box), r, t, Finite(t), sqrt).Some?
    ensures Hit(CreateBvh([Primitive([t], box, outward, material)], order).value, r, t, Finite(t), sqrt).None?
  {
    PrimitiveBoxSound([t], box, outward, material, r, sqrt);
    PrimitiveListHits(t, box, outward, material, r, sqrt);
    SingleItemTreeMisses(Primitive([t], box, outward, material), order, r, t, sqrt);
  }

  /** A list of one shape whose only candidate is `t` reports a hit over the window [t, t]. */
  lemma PrimitiveListHits(t: real, box: Box3, outward: Vec3, material: MaterialRef, r: Ray, sqrt: real -> real)
    requires r.direction != Zero && IsSquareRoot(sqrt)
    ensures Hit(HittableList([Primitive([t], box, outward, material)], box), r, t, Finite(t), sqrt).Some?
  {
    var list := HittableList([Primitive([t], box, outward, material)], box);
    assert NearestIn([t], t, Finite(t)).Some?;
    assert ItemTime(list, 0, r, t, Finite(t), sqrt).Some?;
    ListMissesIff(list, r, t, Finite(t), sqrt);
  }

  /** A BVH built over one item misses over every window [t, t]. */
  lemma SingleItemTreeMisses(x: Hittable, order: (seq<NodeInfo>, Axis) -> seq<NodeInfo>, r: Ray, t: real,
                             sqrt: real -> real)
    requires Valid(x) && IsReordering(order) && r.direction != Zero && IsSquareRoot(sqrt)
    ensures CreateBvh([x], order).Success?
    ensures Hit(CreateBvh([x], order).value, r, t, Finite(t), sqrt).None?
  {
    var tree := CreateBvh([x], order).value;
    assert tree == BvhNode(tree.bounds, x, x);
    SlabTest.EmptyWindowMisses(r, tree.bounds, t, Finite(t));
    BvhPrunes(tree.bounds, x, x, x, x, r, t, Finite(t), sqrt);
  }

  /** A candidate of one of the infos is a candidate of one of the items and back. */
  lemma {:induction false} SameCandidates(items: seq<Hittable>, s: seq<NodeInfo>, r: Ray, sqrt: real -> real, t: real)
    requires s == ToNodeInfos(items) && r.direction != Zero && IsSquareRoot(sqrt)
    requires forall i | 0 <= i < |items| :: Valid(items[i])
    ensures CandidateOfSpan(s, r, sqrt, t) <==> exists j :: 0 <= j < |items| && t in Candidates(items[j], r, sqrt)
  {
    if CandidateOfSpan(s, r, sqrt, t) {
      var x :| x in s && Valid(x.hittable) && t in Candidates(x.hittable, r, sqrt);
      var j :| 0 <= j < |s| && s[j] == x;
      assert t in Candidates(items[j], r, sqrt);
    }
    if exists j :: 0 <= j < |items| && t in Candidates(items[j], r, sqrt) {
      var j :| 0 <= j < |items| && t in Candidates(items[j], r, sqrt);
      assert s[j] in s;
    }
  }
}
