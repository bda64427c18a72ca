/** Building a `HittableList` item by item (RTI1W/Hittable.cs:58-69): `Add` appends the item and widens the
    cached box by the item's box. The field holding the box has no initialiser, so a new list's box is the
    all-zero struct rather than the empty sentinel `Box3()`, and every list's box then holds the origin. The
    corrected list starts from the sentinel, and its box is exactly the one the BVH builder computes. */
module ListBuilding {
  import opened Vectors
  import opened Boxes
  import opened Hittables
  import opened Bvh

  /** `HittableList.Add`: the item appended, the cached box widened by the item's box. */
  function AddItem(list: Hittable, x: Hittable): (l: Hittable)
    requires list.HittableList?
    ensures l.HittableList? && l.items == list.items + [x]
    ensures Encloses(l.cachedBox, list.cachedBox) && Encloses(l.cachedBox, BoundingBox(x))
  {
    HittableList(list.items + [x], Union(list.cachedBox, BoundingBox(x)))
  }

  /** `Add` of each item in turn. */
  function AddAll(list: Hittable, xs: seq<Hittable>): (l: Hittable)
    requires list.HittableList?
    ensures l.HittableList? && l.items == list.items + xs
    ensures Encloses(l.cachedBox, list.cachedBox)
    ensures forall i | 0 <= i < |xs| :: Encloses(l.cachedBox, BoundingBox(xs[i]))
    decreases |xs|
  {
    if |xs| == 0 then
      EnclosesReflexive(list.cachedBox);
      list
    else
      var next := AddItem(list, xs[0]);
      var l := AddAll(next, xs[1..]);
      EnclosesTransitive(l.cachedBox, next.cachedBox, list.cachedBox);
      EnclosesTransitive(l.cachedBox, next.cachedBox, BoundingBox(xs[0]));
      assert forall i | 1 <= i < |xs| :: xs[i] == xs[1..][i - 1];
      assert list.items + [xs[0]] + xs[1..] == list.items + xs;
      l
  }

  /** A new list as declared: no items, and the all-zero box of a struct field without an initialiser. */
  function NewListAsWritten(): (l: Hittable)
    ensures l.HittableList? && l.items == [] && Contains(l.cachedBox, Zero)
  {
    HittableList([], Box3(Zero, Zero))
  }

  /** Whatever is added, the box of a list built as written holds the origin. */
  lemma AsWrittenBoxHoldsOrigin(xs: seq<Hittable>)
    ensures Contains(AddAll(NewListAsWritten(), xs).cachedBox, Zero)
  {
    var l := AddAll(NewListAsWritten(), xs);
    EnclosesMeansContainsAll(l.cachedBox, NewListAsWritten().cachedBox);
  }

  /** A list built as written from one unit sphere around (10, 10, 10): its box holds the origin, the
      sphere's box does not, so the list's box is not the box of its items. */
  lemma AsWrittenBoxTooLarge()
    ensures !Contains(BoundingBox(Sphere(Vec3(10.0, 10.0, 10.0), 1.0, MaterialRef(0))), Zero)
    ensures AddAll(NewListAsWritten(), [Sphere(Vec3(10.0, 10.0, 10.0), 1.0, MaterialRef(0))]).cachedBox !=
      BoundingBox(Sphere(Vec3(10.0, 10.0, 10.0), 1.0, MaterialRef(0)))
  {
    var x := Sphere(Vec3(10.0, 10.0, 10.0), 1.0, MaterialRef(0));
    var b := BoundingBox(x);
    var half := Vec3(1.0, 1.0, 1.0);
    assert b == FromPoints(Sub(x.center, half), Add(x.center, half));
    assert Get(Sub(x.center, half), X) == 9.0 && Get(Add(x.center, half), X) == 11.0;
    assert Get(b.min, X) == 9.0;
    AsWrittenBoxHoldsOrigin([x]);
  }

  /** A new list that starts from the empty sentinel `Box3()`, which holds no point. */
  function NewList(): (l: Hittable)
    ensures l.HittableList? && l.items == [] && forall p :: !Contains(l.cachedBox, p)
  {
    HittableList([], EmptyBox())
  }

  /** Items whose boxes are valid boxes of finite doubles. */
  predicate FiniteBoxes(xs: seq<Hittable>) {
    forall i | 0 <= i < |xs| :: IsValid(BoundingBox(xs[i])) && IsFinite(BoundingBox(xs[i]))
  }

  /** Adding items to a list with a valid box keeps the box within any box enclosing the old box and every
      added item's box. */
  lemma {:induction false} AddAllLeast(list: Hittable, xs: seq<Hittable>, c: Box3)
    requires list.HittableList? && IsValid(list.cachedBox) && Encloses(c, list.cachedBox)
    requires forall i | 0 <= i < |xs| :: Encloses(c, BoundingBox(xs[i]))
    ensures Encloses(c, AddAll(list, xs).cachedBox)
    decreases |xs|
  {
    if |xs| > 0 {
      var next := AddItem(list, xs[0]);
      UnionIsLeast(list.cachedBox, BoundingBox(xs[0]), c);
      assert forall i | 0 <= i < |xs[1..]| :: xs[1..][i] == xs[i + 1];
      AddAllLeast(next, xs[1..], c);
    }
  }

  /** The corrected list's box is the least box enclosing every item's box, and it is the box the BVH builder
      computes over the same items. */
  lemma {:induction false} ListBoxIsUnion(xs: seq<Hittable>)
    requires |xs| > 0 && FiniteBoxes(xs)
    ensures forall c :: (forall i | 0 <= i < |xs| :: Encloses(c, BoundingBox(xs[i]))) ==>
      Encloses(c, AddAll(NewList(), xs).cachedBox)
    ensures AddAll(NewList(), xs).cachedBox == UnionBounds(ToNodeInfos(xs))
  {
    var first := AddItem(NewList(), xs[0]);
    UnionWithEmpty(BoundingBox(xs[0]));
    assert first.cachedBox == BoundingBox(xs[0]);
    var l := AddAll(NewList(), xs);
    assert l == AddAll(first, xs[1..]);
    forall c | forall i | 0 <= i < |xs| :: Encloses(c, BoundingBox(xs[i]))
      ensures Encloses(c, l.cachedBox)
    {
      assert forall i | 0 <= i < |xs[1..]| :: xs[1..][i] == xs[i + 1];
      AddAllLeast(first, xs[1..], c);
    }
    var s := ToNodeInfos(xs);
    var bounds := UnionBounds(s);
    assert forall i | 0 <= i < |xs| :: Encloses(bounds, BoundingBox(xs[i])) by {
      assert forall i | 0 <= i < |xs| :: s[i].bounds == BoundingBox(xs[i]);
    }
    UnionBoundsIsLeast(s, l.cachedBox);
    EnclosesAntisymmetric(l.cachedBox, bounds);
  }
}
