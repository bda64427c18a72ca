/** `BvhHelper.CreateBvh` of RTI1W/BvhHelper.cs: the bounding volume hierarchy over a list of hittables.

    A span of node infos becomes a node whose bounds are the union of the items' boxes. One item becomes a
    node with that item on both sides, two items a node with the first on the left; longer spans are sorted
    by box middle along the split axis and halved. The sort itself is a parameter `order` that may return any
    reordering of the span: the source's comparator does not define a consistent order (see `Ordering`), and
    the tree's correctness does not depend on the order chosen. */
module Bvh {
  import opened Wrappers
  import opened Vectors
  import opened Boxes
  import opened Hittables
  import opened Sequences

  /** The source's `NodeInfo` record: a hittable with its box and the box's middle. */
  datatype NodeInfo = NodeInfo(hittable: Hittable, bounds: Box3, middle: Vec3)

  /** The info the public overload builds for one hittable. */
  function ToNodeInfo(h: Hittable): NodeInfo {
    var bounds := BoundingBox(h);
    NodeInfo(h, bounds, GetMiddle(bounds))
  }

  /** The infos of the public overload's loop, item by item. */
  function ToNodeInfos(items: seq<Hittable>): (s: seq<NodeInfo>)
    ensures |s| == |items|
    ensures forall i | 0 <= i < |s| ::
      (s[i].hittable == items[i] && s[i].bounds == BoundingBox(items[i]) && s[i].middle == GetMiddle(s[i].bounds))
  {
    if |items| == 0 then [] else ToNodeInfos(items[..|items| - 1]) + [ToNodeInfo(items[|items| - 1])]
  }

  function HittableOf(x: NodeInfo): Hittable {
    x.hittable
  }

  /** The hittables of a span, in order. */
  function ItemsOf(s: seq<NodeInfo>): seq<Hittable> {
    Map(s, HittableOf)
  }

  /** The bounds loop: the first item's box united with each further one in turn. The result encloses
      every item's box. */
  function UnionBounds(s: seq<NodeInfo>): (b: Box3)
    requires |s| > 0
    ensures forall i | 0 <= i < |s| :: Encloses(b, s[i].bounds)
  {
    if |s| == 1 then
      EnclosesReflexive(s[0].bounds);
      s[0].bounds
    else
      var prefix := UnionBounds(s[..|s| - 1]);
      var b := Union(prefix, s[|s| - 1].bounds);
      forall i | 0 <= i < |s| - 1
        ensures Encloses(b, s[i].bounds)
      {
        EnclosesTransitive(b, prefix, s[i].bounds);
      }
      b
  }

  /** No valid box enclosing every item's valid box is smaller than the bounds: they are the least. */
  lemma {:induction false} UnionBoundsIsLeast(s: seq<NodeInfo>, c: Box3)
    requires |s| > 0 && forall i | 0 <= i < |s| :: IsValid(s[i].bounds)
    requires forall i | 0 <= i < |s| :: Encloses(c, s[i].bounds)
    ensures Encloses(c, UnionBounds(s))
  {
    if |s| > 1 {
      UnionBoundsIsLeast(s[..|s| - 1], c);
      UnionIsLeast(UnionBounds(s[..|s| - 1]), s[|s| - 1].bounds, c);
    }
  }

  /** The split axis: the longest side of the bounds, the later axis winning a tie. */
  function ChooseSplitAxis(size: Vec3): (a: Axis)
    ensures forall b :: Get(size, b) <= Get(size, a)
    ensures forall b :: Index(a) < Index(b) ==> Get(size, b) < Get(size, a)
  {
    if size.x > size.y && size.x > size.z then X
    else if size.y > size.z then Y
    else Z
  }

  /** Only one axis is longest with no longer-or-equal axis after it, so the two properties above pin the
      split axis down. */
  lemma SplitAxisUnique(size: Vec3, a: Axis)
    requires forall b :: Get(size, b) <= Get(size, a)
    requires forall b :: Index(a) < Index(b) ==> Get(size, b) < Get(size, a)
    ensures a == ChooseSplitAxis(size)
  {
    var c := ChooseSplitAxis(size);
    assert Get(size, c) <= Get(size, a) && Get(size, a) <= Get(size, c);
  }

  /** The sort the builder applies: any function returning a reordering of the span. */
  ghost predicate IsReordering(order: (seq<NodeInfo>, Axis) -> seq<NodeInfo>) {
    forall s, a :: multiset(order(s, a)) == multiset(s)
  }

  /** The private overload over a span. An empty span fails as the source's `ArgumentException` does. */
  function CreateBvhSpan(s: seq<NodeInfo>, order: (seq<NodeInfo>, Axis) -> seq<NodeInfo>): (r: Result<Hittable, string>)
    requires IsReordering(order)
    ensures r.Failure? <==> |s| == 0
    ensures r.Failure? ==> r.error == "span is empty"
    ensures r.Success? ==> r.value.BvhNode? && r.value.bounds == UnionBounds(s)
    decreases |s|
  {
    if |s| == 0 then Failure("span is empty")
    else
      var bounds := UnionBounds(s);
      if |s| == 1 then Success(BvhNode(bounds, s[0].hittable, s[0].hittable))
      else if |s| == 2 then Success(BvhNode(bounds, s[0].hittable, s[1].hittable))
      else
        var sorted := order(s, ChooseSplitAxis(GetSize(bounds)));
        assert |sorted| == |multiset(sorted)| == |s|;
        var size1 := |s| / 2;
        var left := CreateBvhSpan(sorted[..size1], order);
        var right := CreateBvhSpan(sorted[size1..], order);
        Success(BvhNode(bounds, left.value, right.value))
  }

  /** The public overload: one info per item, then the span builder. */
  function CreateBvh(items: seq<Hittable>, order: (seq<NodeInfo>, Axis) -> seq<NodeInfo>): (r: Result<Hittable, string>)
    requires IsReordering(order)
    ensures r.Failure? <==> |items| == 0
    ensures r.Success? ==> r.value.BvhNode? && forall i | 0 <= i < |items| :: Encloses(r.value.bounds, BoundingBox(items[i]))
  {
    CreateBvhSpan(ToNodeInfos(items), order)
  }

  /** The hittables below the nodes of a tree, counted once per reference. */
  function Leaves(h: Hittable): multiset<Hittable> {
    match h
    case BvhNode(_, left, right) => Leaves(left) + Leaves(right)
    case _ => multiset{h}
  }

  /** The number of one-item spans the halving produces from a span of `n` items. */
  function SingleSpans(n: nat): nat {
    if n <= 2 then (if n == 1 then 1 else 0) else SingleSpans(n / 2) + SingleSpans(n - n / 2)
  }

  lemma SingleSpansSplit(n: nat)
    requires n > 2
    ensures SingleSpans(n) == SingleSpans(n / 2) + SingleSpans(n - n / 2)
  {
  }

  /** No item is itself a BVH node, so the leaves of the built tree are the items. */
  predicate NoNodeItems(s: seq<NodeInfo>) {
    forall x | x in s :: !x.hittable.BvhNode?
  }

  /** The recursive case of the builder: a node over the two halves of the reordered span. */
  lemma SplitSpan(s: seq<NodeInfo>, order: (seq<NodeInfo>, Axis) -> seq<NodeInfo>) returns (a: seq<NodeInfo>, b: seq<NodeInfo>)
    requires |s| > 2 && IsReordering(order)
    ensures |a| == |s| / 2 && |b| == |s| - |s| / 2
    ensures multiset(a + b) == multiset(s)
    ensures CreateBvhSpan(s, order) ==
      Success(BvhNode(UnionBounds(s), CreateBvhSpan(a, order).value, CreateBvhSpan(b, order).value))
  {
    var sorted := order(s, ChooseSplitAxis(GetSize(UnionBounds(s))));
    assert |sorted| == |multiset(sorted)| == |s|;
    a, b := sorted[..|s| / 2], sorted[|s| / 2..];
    assert sorted == a + b;
  }

  /** The halves of a reordered span hold its items between them, each as often. */
  lemma HalvesItems(s: seq<NodeInfo>, a: seq<NodeInfo>, b: seq<NodeInfo>)
    requires multiset(a + b) == multiset(s)
    ensures multiset(ItemsOf(a)) + multiset(ItemsOf(b)) == multiset(ItemsOf(s))
    ensures forall x | x in a :: x in s
    ensures forall x | x in b :: x in s
    ensures forall x | x in s :: x in a || x in b
  {
    MapConcat(a, b, HittableOf);
    MapReordering(a + b, s, HittableOf);
    ReorderingMembers(s, a + b);
    ReorderingMembers(a + b, s);
  }

  /** The counting step of `BuiltLeaves` at a node over two halves. */
  lemma LeavesOfHalves(s: seq<NodeInfo>, a: seq<NodeInfo>, b: seq<NodeInfo>, left: Hittable, right: Hittable)
    requires |s| > 2 && |a| == |s| / 2 && |b| == |s| - |s| / 2
    requires multiset(ItemsOf(a)) + multiset(ItemsOf(b)) == multiset(ItemsOf(s))
    requires multiset(ItemsOf(a)) <= Leaves(left) && |Leaves(left)| == |a| + SingleSpans(|a|)
    requires multiset(ItemsOf(b)) <= Leaves(right) && |Leaves(right)| == |b| + SingleSpans(|b|)
    requires forall x | x in Leaves(left) :: x in multiset(ItemsOf(a))
    requires forall x | x in Leaves(right) :: x in multiset(ItemsOf(b))
    ensures multiset(ItemsOf(s)) <= Leaves(left) + Leaves(right)
    ensures |Leaves(left) + Leaves(right)| == |s| + SingleSpans(|s|)
    ensures forall x | x in Leaves(left) + Leaves(right) :: x in multiset(ItemsOf(s))
  {
    SingleSpansSplit(|s|);
    assert SingleSpans(|s|) == SingleSpans(|a|) + SingleSpans(|b|);
    assert |Leaves(left) + Leaves(right)| == |Leaves(left)| + |Leaves(right)|;
    BagsOfParts(multiset(ItemsOf(s)), multiset(ItemsOf(a)), multiset(ItemsOf(b)), Leaves(left), Leaves(right));
  }

  /** A one-item span: the node holds the item twice. */
  lemma OneItemLeaves(s: seq<NodeInfo>, order: (seq<NodeInfo>, Axis) -> seq<NodeInfo>)
    requires |s| == 1 && IsReordering(order) && NoNodeItems(s)
    ensures Leaves(CreateBvhSpan(s, order).value) == multiset(ItemsOf(s)) + multiset(ItemsOf(s))
  {
    var x := s[0].hittable;
    assert s[0] in s;
    assert Leaves(x) == multiset{x};
    assert CreateBvhSpan(s, order).value == BvhNode(UnionBounds(s), x, x);
    assert ItemsOf(s) == [x];
  }

  /** A two-item span: the node holds each item once. */
  lemma TwoItemLeaves(s: seq<NodeInfo>, order: (seq<NodeInfo>, Axis) -> seq<NodeInfo>)
    requires |s| == 2 && IsReordering(order) && NoNodeItems(s)
    ensures Leaves(CreateBvhSpan(s, order).value) == multiset(ItemsOf(s))
  {
    var x, y := s[0].hittable, s[1].hittable;
    assert s[0] in s && s[1] in s;
    assert Leaves(x) == multiset{x} && Leaves(y) == multiset{y};
    assert CreateBvhSpan(s, order).value == BvhNode(UnionBounds(s), x, y);
    assert ItemsOf(s) == [x, y];
  }

  /** Every item is a leaf of the built tree; besides the items there are only the second references of
      one-item spans, `SingleSpans` of them, so a span of two items or any power of two above has each item
      exactly once. */
  lemma {:induction false} BuiltLeaves(s: seq<NodeInfo>, order: (seq<NodeInfo>, Axis) -> seq<NodeInfo>)
    requires |s| > 0 && IsReordering(order) && NoNodeItems(s)
    ensures multiset(ItemsOf(s)) <= Leaves(CreateBvhSpan(s, order).value)
    ensures |Leaves(CreateBvhSpan(s, order).value)| == |s| + SingleSpans(|s|)
    ensures forall x | x in Leaves(CreateBvhSpan(s, order).value) :: x in multiset(ItemsOf(s))
    decreases |s|
  {
    if |s| == 1 {
      OneItemLeaves(s, order);
    } else if |s| == 2 {
      TwoItemLeaves(s, order);
    } else {
      var a, b := SplitSpan(s, order);
      HalvesItems(s, a, b);
      BuiltLeaves(a, order);
      BuiltLeaves(b, order);
      LeavesOfHalves(s, a, b, CreateBvhSpan(a, order).value, CreateBvhSpan(b, order).value);
    }
  }
}
