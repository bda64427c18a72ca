/** The order `CreateBvh` sorts a span in before halving it: by the centres of the items' boxes along the
    split axis. The comparator of RTI1W/BvhHelper.cs:47-55 returns `(int)((a.Middle - b.Middle) * 1000)` on
    the axis, and the cast truncates: centres closer than 0.001 compare equal, and "compares equal" is not
    transitive. The corrected comparator compares the centres themselves; sorting with it is a reordering, so
    the BVH built with it answers like the list. */
module Ordering {
  import opened Wrappers
  import opened Vectors
  import opened Rays
  import opened Boxes
  import opened Hittables
  import opened Bvh
  import opened Sorting
  import opened BvhQueries
  import opened Equivalence

  /** C#'s `(int)` cast of a double in range: truncation toward zero. */
  function Truncate(x: real): (n: int)
    ensures x >= 0.0 ==> n as real <= x < n as real + 1.0
    ensures x < 0.0 ==> n as real - 1.0 < x <= n as real
  {
    if x >= 0.0 then x.Floor else -((-x).Floor)
  }

  /** The centre of an info's box on an axis: the sort key. */
  function Key(x: NodeInfo, axis: Axis): real {
    Get(x.middle, axis)
  }

  /** The comparator as written: the centres' difference times 1000, truncated. */
  function CompareAsWritten(a: NodeInfo, b: NodeInfo, axis: Axis): int {
    Truncate((Key(a, axis) - Key(b, axis)) * 1000.0)
  }

  /** Swapping the arguments negates the written comparator. */
  lemma CompareAsWrittenAntisymmetric(a: NodeInfo, b: NodeInfo, axis: Axis)
    ensures CompareAsWritten(a, b, axis) == -CompareAsWritten(b, a, axis)
  {
    var d := (Key(a, axis) - Key(b, axis)) * 1000.0;
    assert (Key(b, axis) - Key(a, axis)) * 1000.0 == -d;
  }

  /** The written comparator reports a tie exactly when the centres are less than 0.001 apart. */
  lemma CompareAsWrittenTieIff(a: NodeInfo, b: NodeInfo, axis: Axis)
    ensures CompareAsWritten(a, b, axis) == 0 <==> -0.001 < Key(a, axis) - Key(b, axis) < 0.001
  {
    var d := (Key(a, axis) - Key(b, axis)) * 1000.0;
    var n := Truncate(d);
    if n == 0 {
      assert -1.0 < d < 1.0;
    }
    if -1.0 < d < 1.0 {
      if d >= 0.0 {
        assert n as real <= d;
      } else {
        assert d <= n as real;
      }
    }
  }

  /** The corrected comparator: the sign of the centres' difference. */
  function CompareMiddles(a: NodeInfo, b: NodeInfo, axis: Axis): int {
    if Key(a, axis) < Key(b, axis) then -1 else if Key(a, axis) > Key(b, axis) then 1 else 0
  }

  /** Away from ties the written comparator has the corrected one's sign. */
  lemma AsWrittenAgreesApart(a: NodeInfo, b: NodeInfo, axis: Axis)
    requires Key(a, axis) - Key(b, axis) >= 0.001 || Key(b, axis) - Key(a, axis) >= 0.001
    ensures CompareAsWritten(a, b, axis) < 0 <==> CompareMiddles(a, b, axis) < 0
    ensures CompareAsWritten(a, b, axis) > 0 <==> CompareMiddles(a, b, axis) > 0
  {
    var d := (Key(a, axis) - Key(b, axis)) * 1000.0;
    if Key(a, axis) - Key(b, axis) >= 0.001 {
      assert d >= 1.0;
    } else {
      assert d <= -1.0;
    }
  }

  /** The corrected comparator is a total preorder on the centres: antisymmetric, transitive, and a tie
      exactly on equal centres. */
  lemma CompareMiddlesIsOrder(a: NodeInfo, b: NodeInfo, c: NodeInfo, axis: Axis)
    ensures CompareMiddles(a, b, axis) == -CompareMiddles(b, a, axis)
    ensures CompareMiddles(a, b, axis) == 0 <==> Key(a, axis) == Key(b, axis)
    ensures CompareMiddles(a, b, axis) < 0 <==> Key(a, axis) < Key(b, axis)
    ensures CompareMiddles(a, b, axis) <= 0 && CompareMiddles(b, c, axis) <= 0 ==> CompareMiddles(a, c, axis) <= 0
    ensures CompareMiddles(a, b, axis) == 0 && CompareMiddles(b, c, axis) == 0 ==> CompareMiddles(a, c, axis) == 0
  {
  }

  /** An info whose centre is the given point. */
  function InfoAt(p: Vec3): (x: NodeInfo)
    ensures forall axis :: Key(x, axis) == Get(p, axis)
  {
    NodeInfo(Primitive([], PointBox(p), Zero, MaterialRef(0)), PointBox(p), p)
  }

  /** Centres 0, 0.0009 and 0.0018 on X: the written comparator ties the first with the second and the
      second with the third, but not the first with the third, so it is no consistent order and a sort
      driven by it need not order the items by centre. */
  lemma CompareAsWrittenNotTransitive()
    ensures CompareAsWritten(InfoAt(Vec3(0.0, 0.0, 0.0)), InfoAt(Vec3(0.0009, 0.0, 0.0)), X) == 0
    ensures CompareAsWritten(InfoAt(Vec3(0.0009, 0.0, 0.0)), InfoAt(Vec3(0.0018, 0.0, 0.0)), X) == 0
    ensures CompareAsWritten(InfoAt(Vec3(0.0, 0.0, 0.0)), InfoAt(Vec3(0.0018, 0.0, 0.0)), X) == -1
  {
    var a, b, c := InfoAt(Vec3(0.0, 0.0, 0.0)), InfoAt(Vec3(0.0009, 0.0, 0.0)), InfoAt(Vec3(0.0018, 0.0, 0.0));
    assert (Key(a, X) - Key(b, X)) * 1000.0 == -0.9;
    assert (Key(b, X) - Key(c, X)) * 1000.0 == -0.9;
    assert (Key(a, X) - Key(c, X)) * 1000.0 == -1.8;
  }

  /** The corrected sort: the span ordered by centre on the axis, stably. */
  function SortByMiddle(s: seq<NodeInfo>, axis: Axis): (r: seq<NodeInfo>)
    ensures multiset(r) == multiset(s)
    ensures forall i, j | 0 <= i < j < |r| :: CompareMiddles(r[i], r[j], axis) <= 0
  {
    var r := SortBy(s, (x: NodeInfo) => Key(x, axis));
    assert SortedBy(r, (x: NodeInfo) => Key(x, axis));
    r
  }

  /** The corrected sort as the builder's reordering. */
  function MiddleOrder(): (order: (seq<NodeInfo>, Axis) -> seq<NodeInfo>)
    ensures IsReordering(order)
  {
    (s: seq<NodeInfo>, axis: Axis) => SortByMiddle(s, axis)
  }

  /** The BVH built with the corrected sort answers every ray query over a non-empty window like the list of
      the same box-sound shapes and lists. */
  lemma SortedBvhMatchesList(items: seq<Hittable>, box: Box3, r: Ray, lo: real, hi: Bound, sqrt: real -> real)
    requires |items| > 0 && r.direction != Zero && IsSquareRoot(sqrt) && Below(lo, hi)
    requires forall i | 0 <= i < |items| :: Valid(items[i]) && NoBvh(items[i]) && BoxSound(items[i], r, sqrt)
    ensures CreateBvh(items, MiddleOrder()).Success? && Valid(CreateBvh(items, MiddleOrder()).value)
    ensures Hit(CreateBvh(items, MiddleOrder()).value, r, lo, hi, sqrt).Some? <==>
      Hit(HittableList(items, box), r, lo, hi, sqrt).Some?
    ensures TimeOf(Hit(CreateBvh(items, MiddleOrder()).value, r, lo, hi, sqrt)) ==
      TimeOf(Hit(HittableList(items, box), r, lo, hi, sqrt))
  {
    BvhMatchesList(items, box, MiddleOrder(), r, lo, hi, sqrt);
  }
}
