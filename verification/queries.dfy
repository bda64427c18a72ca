/** What the hit queries of RTI1W/Hittable.cs compute: the least candidate parameter in the window. Lists
    and shapes answer exactly for every window; a BVH node answers exactly for every non-empty window as long
    as its stored bounds are hit whenever one of its candidates lies in the window. */
module Queries {
  import opened Wrappers
  import opened Vectors
  import opened Rays
  import opened Boxes
  import opened SlabTest
  import opened Nearest
  import opened Hittables

  /** Shapes and lists find the least candidate in the window. */
  lemma {:induction false} HitIsNearest(h: Hittable, r: Ray, lo: real, hi: Bound, sqrt: real -> real)
    requires Valid(h) && NoBvh(h) && r.direction != Zero && IsSquareRoot(sqrt)
    ensures TimeOf(Hit(h, r, lo, hi, sqrt)) == NearestIn(Candidates(h, r, sqrt), lo, hi)
    decreases h, if h.HittableList? then |h.items| + 1 else 0
  {
    match h
    case Sphere(center, radius, _) =>
      SelectRootIsNearest(SphereQuadratic(center, radius, r), lo, hi, sqrt);
    case MovingSphere(center0, center1, time0, time1, radius, _) =>
      SelectRootIsNearest(SphereQuadratic(GetCenter(center0, center1, time0, time1, r.time), radius, r), lo, hi, sqrt);
    case Primitive(_, _, _, _) =>
    case HittableList(_, _) =>
      ScanIsNearest(h, 0, r, lo, hi, None, sqrt);
  }

  /** The loop invariant of the list scan: the record so far holds the least candidate of the items seen. */
  lemma {:induction false} ScanIsNearest(h: Hittable, i: nat, r: Ray, lo: real, hi: Bound, rec: Option<HitRecord>,
                                         sqrt: real -> real)
    requires h.HittableList? && Valid(h) && NoBvh(h) && i <= |h.items| && r.direction != Zero && IsSquareRoot(sqrt)
    requires rec.Some? ==> InWindow(rec.value.t, lo, hi)
    requires TimeOf(rec) == NearestIn(CandidatesUpTo(h, i, r, sqrt), lo, hi)
    ensures TimeOf(Scan(h, i, r, lo, hi, rec, sqrt)) == NearestIn(Candidates(h, r, sqrt), lo, hi)
    decreases h, |h.items| - i
  {
    if i < |h.items| {
      var x := h.items[i];
      var objRec := Hit(x, r, lo, Closest(rec, hi), sqrt);
      HitIsNearest(x, r, lo, Closest(rec, hi), sqrt);
      NearestOfConcat(CandidatesUpTo(h, i, r, sqrt), Candidates(x, r, sqrt), lo, hi);
      ScanIsNearest(h, i + 1, r, lo, hi, if objRec.Some? then objRec else rec, sqrt);
    }
  }

  /** The hit of item `j` of a list over the caller's whole window. */
  function ItemTime(h: Hittable, j: nat, r: Ray, lo: real, hi: Bound, sqrt: real -> real): Option<real>
    requires h.HittableList? && Valid(h) && j < |h.items| && r.direction != Zero && IsSquareRoot(sqrt)
  {
    TimeOf(Hit(h.items[j], r, lo, hi, sqrt))
  }

  /** The least candidate of item `j` of a list in the window: by `HitIsNearest`, the parameter of the
      item's own hit when it holds no BVH node. */
  function ItemNearest(h: Hittable, j: nat, r: Ray, lo: real, hi: Bound, sqrt: real -> real): Option<real>
    requires h.HittableList? && Valid(h) && j < |h.items| && r.direction != Zero && IsSquareRoot(sqrt)
  {
    NearestIn(Candidates(h.items[j], r, sqrt), lo, hi)
  }

  /** The least candidates of the first `n` items. */
  function ItemNearests(h: Hittable, n: nat, r: Ray, lo: real, hi: Bound, sqrt: real -> real): (ts: seq<Option<real>>)
    requires h.HittableList? && Valid(h) && n <= |h.items| && r.direction != Zero && IsSquareRoot(sqrt)
    ensures |ts| == n && forall j | 0 <= j < n :: ts[j] == ItemNearest(h, j, r, lo, hi, sqrt)
  {
    if n == 0 then [] else ItemNearests(h, n - 1, r, lo, hi, sqrt) + [ItemNearest(h, n - 1, r, lo, hi, sqrt)]
  }

  /** A list misses exactly when every item misses the caller's window. */
  lemma ListMissesIff(h: Hittable, r: Ray, lo: real, hi: Bound, sqrt: real -> real)
    requires h.HittableList? && Valid(h) && r.direction != Zero && IsSquareRoot(sqrt)
    ensures Hit(h, r, lo, hi, sqrt).None? <==> forall j | 0 <= j < |h.items| :: ItemTime(h, j, r, lo, hi, sqrt).None?
  {
    ScanMisses(h, 0, r, lo, hi, sqrt);
  }

  /** While nothing has been hit the window is the caller's, so the scan ends empty exactly when every
      remaining item misses it. */
  lemma {:induction false} ScanMisses(h: Hittable, i: nat, r: Ray, lo: real, hi: Bound, sqrt: real -> real)
    requires h.HittableList? && Valid(h) && i <= |h.items| && r.direction != Zero && IsSquareRoot(sqrt)
    ensures Scan(h, i, r, lo, hi, None, sqrt).None? <==>
      forall j | i <= j < |h.items| :: ItemTime(h, j, r, lo, hi, sqrt).None?
    decreases |h.items| - i
  {
    if i < |h.items| {
      var objRec := Hit(h.items[i], r, lo, hi, sqrt);
      assert Scan(h, i, r, lo, hi, None, sqrt) == Scan(h, i + 1, r, lo, hi, objRec, sqrt);
      assert ItemTime(h, i, r, lo, hi, sqrt) == TimeOf(objRec);
      if objRec.None? {
        ScanMisses(h, i + 1, r, lo, hi, sqrt);
        assert (forall j | i <= j < |h.items| :: ItemTime(h, j, r, lo, hi, sqrt).None?) <==>
          (forall j | i + 1 <= j < |h.items| :: ItemTime(h, j, r, lo, hi, sqrt).None?);
      } else {
        assert Scan(h, i + 1, r, lo, hi, objRec, sqrt).Some?;
      }
    }
  }

  /** The candidates of a list's prefix are those of its items. */
  lemma {:induction false} CandidatesUpToMembers(h: Hittable, i: nat, r: Ray, sqrt: real -> real, t: real)
    requires h.HittableList? && Valid(h) && i <= |h.items| && r.direction != Zero && IsSquareRoot(sqrt)
    ensures t in CandidatesUpTo(h, i, r, sqrt) <==> exists j :: 0 <= j < i && t in Candidates(h.items[j], r, sqrt)
  {
    if i > 0 {
      CandidatesUpToMembers(h, i - 1, r, sqrt, t);
      if exists j :: 0 <= j < i && t in Candidates(h.items[j], r, sqrt) {
        var j :| 0 <= j < i && t in Candidates(h.items[j], r, sqrt);
        if j < i - 1 {
          assert t in CandidatesUpTo(h, i - 1, r, sqrt);
        }
      }
    }
  }

  /** The list's hit is no later than any item's own hit in the caller's window. */
  lemma ListBeatsEveryItem(h: Hittable, r: Ray, lo: real, hi: Bound, sqrt: real -> real, j: nat)
    requires h.HittableList? && Valid(h) && NoBvh(h) && r.direction != Zero && IsSquareRoot(sqrt)
    requires j < |h.items| && ItemTime(h, j, r, lo, hi, sqrt).Some?
    ensures Hit(h, r, lo, hi, sqrt).Some?
    ensures Hit(h, r, lo, hi, sqrt).value.t <= ItemTime(h, j, r, lo, hi, sqrt).value
  {
    var x := h.items[j];
    HitIsNearest(h, r, lo, hi, sqrt);
    HitIsNearest(x, r, lo, hi, sqrt);
    var u := ItemTime(h, j, r, lo, hi, sqrt).value;
    CandidatesUpToMembers(h, |h.items|, r, sqrt, u);
  }

  /** The last index before `n` holding `v`. */
  lemma {:induction false} LastIndexOf<T>(s: seq<T>, v: T, j0: nat, n: nat) returns (k: nat)
    requires j0 < n <= |s| && s[j0] == v
    ensures j0 <= k < n && s[k] == v
    ensures forall j | k < j < n :: s[j] != v
    decreases n
  {
    if s[n - 1] == v {
      k := n - 1;
    } else {
      k := LastIndexOf(s, v, j0, n - 1);
    }
  }

  /** A shape or list hit in a smaller window is also a hit, no later, in the larger one. */
  lemma HitInSmallerWindow(x: Hittable, r: Ray, lo: real, c: Bound, hi: Bound, sqrt: real -> real)
    requires Valid(x) && NoBvh(x) && r.direction != Zero && IsSquareRoot(sqrt)
    requires BoundLe(c, hi)
    ensures Hit(x, r, lo, c, sqrt).Some? ==>
      Hit(x, r, lo, hi, sqrt).Some? && Hit(x, r, lo, hi, sqrt).value.t <= Hit(x, r, lo, c, sqrt).value.t
  {
    HitIsNearest(x, r, lo, c, sqrt);
    HitIsNearest(x, r, lo, hi, sqrt);
    if NearestIn(Candidates(x, r, sqrt), lo, c).Some? {
      NearestInSmallerWindow(Candidates(x, r, sqrt), lo, c, hi);
    }
  }

  /** Ties go to the later item: the list returns the record of the last item whose own hit in the caller's
      window is the nearest, exactly as that item reports it. */
  lemma {:induction false} ListPicksLastNearest(h: Hittable, r: Ray, lo: real, hi: Bound, sqrt: real -> real, k: nat)
    requires h.HittableList? && Valid(h) && NoBvh(h) && r.direction != Zero && IsSquareRoot(sqrt)
    requires k < |h.items| && ItemNearest(h, k, r, lo, hi, sqrt).Some?
    requires forall j | 0 <= j < |h.items| && ItemNearest(h, j, r, lo, hi, sqrt).Some? ::
      ItemNearest(h, k, r, lo, hi, sqrt).value <= ItemNearest(h, j, r, lo, hi, sqrt).value
    requires forall j | k < j < |h.items| && ItemNearest(h, j, r, lo, hi, sqrt).Some? ::
      ItemNearest(h, k, r, lo, hi, sqrt).value < ItemNearest(h, j, r, lo, hi, sqrt).value
    ensures Hit(h, r, lo, hi, sqrt) == Hit(h.items[k], r, lo, hi, sqrt)
    decreases h, |h.items| + 1
  {
    ScanBeforePick(h, 0, r, lo, hi, None, sqrt, k);
  }

  /** The scan up to and including the picked item `k`: whatever it has found so far is no nearer than the
      pick, so the pick is reported as over the caller's window. */
  lemma {:induction false} ScanBeforePick(h: Hittable, i: nat, r: Ray, lo: real, hi: Bound, rec: Option<HitRecord>,
                                          sqrt: real -> real, k: nat)
    requires h.HittableList? && Valid(h) && NoBvh(h) && r.direction != Zero && IsSquareRoot(sqrt)
    requires i <= k < |h.items| && ItemNearest(h, k, r, lo, hi, sqrt).Some?
    requires forall j | 0 <= j < |h.items| && ItemNearest(h, j, r, lo, hi, sqrt).Some? ::
      ItemNearest(h, k, r, lo, hi, sqrt).value <= ItemNearest(h, j, r, lo, hi, sqrt).value
    requires forall j | k < j < |h.items| && ItemNearest(h, j, r, lo, hi, sqrt).Some? ::
      ItemNearest(h, k, r, lo, hi, sqrt).value < ItemNearest(h, j, r, lo, hi, sqrt).value
    requires rec.Some? ==> InWindow(rec.value.t, lo, hi) && ItemNearest(h, k, r, lo, hi, sqrt).value <= rec.value.t
    ensures Scan(h, i, r, lo, hi, rec, sqrt) == Hit(h.items[k], r, lo, hi, sqrt)
    decreases h, |h.items| - i
  {
    var x := h.items[i];
    var c := Closest(rec, hi);
    var objRec := Hit(x, r, lo, c, sqrt);
    var rec' := if objRec.Some? then objRec else rec;
    assert Scan(h, i, r, lo, hi, rec, sqrt) == Scan(h, i + 1, r, lo, hi, rec', sqrt);
    assert BoundLe(c, hi);
    if i == k {
      HitIsNearest(x, r, lo, hi, sqrt);
      HitCut(x, r, lo, hi, c, sqrt);
      ScanAfterPick(h, i + 1, r, lo, hi, rec', sqrt);
    } else {
      HitIsNearest(x, r, lo, c, sqrt);
      assert ItemNearest(h, i, r, lo, hi, sqrt) == NearestIn(Candidates(x, r, sqrt), lo, hi);
      if NearestIn(Candidates(x, r, sqrt), lo, c).Some? {
        NearestInSmallerWindow(Candidates(x, r, sqrt), lo, c, hi);
      }
      ScanBeforePick(h, i + 1, r, lo, hi, rec', sqrt, k);
    }
  }

  /** After the pick every remaining item misses the window cut at the pick, so the record stays. */
  lemma {:induction false} ScanAfterPick(h: Hittable, i: nat, r: Ray, lo: real, hi: Bound, rec: Option<HitRecord>,
                                         sqrt: real -> real)
    requires h.HittableList? && Valid(h) && NoBvh(h) && i <= |h.items| && r.direction != Zero && IsSquareRoot(sqrt)
    requires rec.Some? && InWindow(rec.value.t, lo, hi)
    requires forall j | i <= j < |h.items| && ItemNearest(h, j, r, lo, hi, sqrt).Some? ::
      rec.value.t < ItemNearest(h, j, r, lo, hi, sqrt).value
    ensures Scan(h, i, r, lo, hi, rec, sqrt) == rec
    decreases |h.items| - i
  {
    if i < |h.items| {
      var x := h.items[i];
      var c := Finite(rec.value.t);
      assert c == Closest(rec, hi);
      HitIsNearest(x, r, lo, c, sqrt);
      assert ItemNearest(h, i, r, lo, hi, sqrt) == NearestIn(Candidates(x, r, sqrt), lo, hi);
      if NearestIn(Candidates(x, r, sqrt), lo, c).Some? {
        NearestInSmallerWindow(Candidates(x, r, sqrt), lo, c, hi);
      }
      assert Hit(x, r, lo, c, sqrt).None?;
      assert Scan(h, i, r, lo, hi, rec, sqrt) == Scan(h, i + 1, r, lo, hi, rec, sqrt);
      ScanAfterPick(h, i + 1, r, lo, hi, rec, sqrt);
    }
  }

  /** Cutting the window above a shape's or list's hit leaves the hit, record and all, unchanged. */
  lemma {:induction false} HitCut(h: Hittable, r: Ray, lo: real, hi: Bound, c: Bound, sqrt: real -> real)
    requires Valid(h) && NoBvh(h) && r.direction != Zero && IsSquareRoot(sqrt)
    requires BoundLe(c, hi)
    requires Hit(h, r, lo, hi, sqrt).Some? && AtMost(Hit(h, r, lo, hi, sqrt).value.t, c)
    ensures Hit(h, r, lo, c, sqrt) == Hit(h, r, lo, hi, sqrt)
    decreases h, if h.HittableList? then |h.items| + 4 else 0
  {
    HitIsNearest(h, r, lo, hi, sqrt);
    match h
    case Sphere(center, radius, _) =>
      var q := SphereQuadratic(center, radius, r);
      SelectRootIsNearest(q, lo, hi, sqrt);
      SelectRootIsNearest(q, lo, c, sqrt);
      NearestUnderLowerBound(Roots(q, sqrt), lo, hi, c);
    case MovingSphere(center0, center1, time0, time1, radius, _) =>
      var q := SphereQuadratic(GetCenter(center0, center1, time0, time1, r.time), radius, r);
      SelectRootIsNearest(q, lo, hi, sqrt);
      SelectRootIsNearest(q, lo, c, sqrt);
      NearestUnderLowerBound(Roots(q, sqrt), lo, hi, c);
    case Primitive(candidates, _, _, _) =>
      NearestUnderLowerBound(candidates, lo, hi, c);
    case HittableList(_, _) =>
      ListHitCut(h, r, lo, hi, c, sqrt);
  }

  /** The item a list picks: the last one whose own hit is the list's hit. */
  lemma {:induction false} ListPick(h: Hittable, r: Ray, lo: real, hi: Bound, sqrt: real -> real) returns (k: nat)
    requires h.HittableList? && Valid(h) && NoBvh(h) && r.direction != Zero && IsSquareRoot(sqrt)
    requires Hit(h, r, lo, hi, sqrt).Some?
    ensures k < |h.items| && ItemNearest(h, k, r, lo, hi, sqrt) == Some(Hit(h, r, lo, hi, sqrt).value.t)
    ensures forall j | 0 <= j < |h.items| && ItemNearest(h, j, r, lo, hi, sqrt).Some? ::
      Hit(h, r, lo, hi, sqrt).value.t <= ItemNearest(h, j, r, lo, hi, sqrt).value
    ensures forall j | k < j < |h.items| :: ItemNearest(h, j, r, lo, hi, sqrt) != Some(Hit(h, r, lo, hi, sqrt).value.t)
    ensures Hit(h, r, lo, hi, sqrt) == Hit(h.items[k], r, lo, hi, sqrt)
    decreases h, |h.items| + 2
  {
    var t := Hit(h, r, lo, hi, sqrt).value.t;
    HitIsNearest(h, r, lo, hi, sqrt);
    CandidatesUpToMembers(h, |h.items|, r, sqrt, t);
    var j0 :| 0 <= j0 < |h.items| && t in Candidates(h.items[j0], r, sqrt);
    ListBeatsAllItems(h, r, lo, hi, sqrt);
    var times := ItemNearests(h, |h.items|, r, lo, hi, sqrt);
    assert times[j0] == Some(t) by {
      var n := ItemNearest(h, j0, r, lo, hi, sqrt);
      assert InWindow(t, lo, hi);
      assert n.Some? && n.value <= t;
    }
    k := LastIndexOf(times, Some(t), j0, |h.items|);
    PickSurvivesCut(times, times, k, t);
    ListPicksLastNearest(h, r, lo, hi, sqrt, k);
  }

  /** The list case of `HitCut`: the same last nearest item is picked under both windows. */
  lemma {:induction false} ListHitCut(h: Hittable, r: Ray, lo: real, hi: Bound, c: Bound, sqrt: real -> real)
    requires h.HittableList? && Valid(h) && NoBvh(h) && r.direction != Zero && IsSquareRoot(sqrt)
    requires BoundLe(c, hi)
    requires Hit(h, r, lo, hi, sqrt).Some? && AtMost(Hit(h, r, lo, hi, sqrt).value.t, c)
    ensures Hit(h, r, lo, c, sqrt) == Hit(h, r, lo, hi, sqrt)
    decreases h, |h.items| + 3
  {
    var t := Hit(h, r, lo, hi, sqrt).value.t;
    var k := ListPick(h, r, lo, hi, sqrt);
    HitCut(h.items[k], r, lo, hi, c, sqrt);
    NearestUnderLowerBound(Candidates(h.items[k], r, sqrt), lo, hi, c);
    ItemsInSmallerWindow(h, r, lo, c, hi, sqrt);
    var times := ItemNearests(h, |h.items|, r, lo, hi, sqrt);
    var timesCut := ItemNearests(h, |h.items|, r, lo, c, sqrt);
    assert timesCut[k] == Some(t);
    PickSurvivesCut(times, timesCut, k, t);
    ListPicksLastNearest(h, r, lo, c, sqrt, k);
  }

  /** The list's hit is no later than any item's least candidate in the window. */
  lemma ListBeatsAllItems(h: Hittable, r: Ray, lo: real, hi: Bound, sqrt: real -> real)
    requires h.HittableList? && Valid(h) && NoBvh(h) && r.direction != Zero && IsSquareRoot(sqrt)
    ensures forall j | 0 <= j < |h.items| && ItemNearest(h, j, r, lo, hi, sqrt).Some? ::
      Hit(h, r, lo, hi, sqrt).Some? && Hit(h, r, lo, hi, sqrt).value.t <= ItemNearest(h, j, r, lo, hi, sqrt).value
  {
    HitIsNearest(h, r, lo, hi, sqrt);
    forall j | 0 <= j < |h.items| && ItemNearest(h, j, r, lo, hi, sqrt).Some?
      ensures Hit(h, r, lo, hi, sqrt).Some? && Hit(h, r, lo, hi, sqrt).value.t <= ItemNearest(h, j, r, lo, hi, sqrt).value
    {
      CandidatesUpToMembers(h, |h.items|, r, sqrt, ItemNearest(h, j, r, lo, hi, sqrt).value);
    }
  }

  /** `NearestInSmallerWindow` for every item of a list. */
  lemma ItemsInSmallerWindow(h: Hittable, r: Ray, lo: real, c: Bound, hi: Bound, sqrt: real -> real)
    requires h.HittableList? && Valid(h) && NoBvh(h) && r.direction != Zero && IsSquareRoot(sqrt)
    requires BoundLe(c, hi)
    ensures forall j | 0 <= j < |h.items| && ItemNearest(h, j, r, lo, c, sqrt).Some? ::
      ItemNearest(h, j, r, lo, hi, sqrt).Some? && ItemNearest(h, j, r, lo, hi, sqrt).value <= ItemNearest(h, j, r, lo, c, sqrt).value
  {
    forall j | 0 <= j < |h.items| && ItemNearest(h, j, r, lo, c, sqrt).Some?
      ensures ItemNearest(h, j, r, lo, hi, sqrt).Some?
      ensures ItemNearest(h, j, r, lo, hi, sqrt).value <= ItemNearest(h, j, r, lo, c, sqrt).value
    {
      NearestInSmallerWindow(Candidates(h.items[j], r, sqrt), lo, c, hi);
    }
  }

  /** The order facts behind `ListHitCut`, on the items' hit parameters under the caller's window (`a`) and
      under the cut one (`b`). */
  lemma PickSurvivesCut(a: seq<Option<real>>, b: seq<Option<real>>, k: nat, t: real)
    requires |a| == |b| && k < |a| && a[k] == Some(t) && b[k] == Some(t)
    requires forall j | 0 <= j < |a| && a[j].Some? :: t <= a[j].value
    requires forall j | k < j < |a| :: a[j] != Some(t)
    requires forall j | 0 <= j < |b| && b[j].Some? :: a[j].Some? && a[j].value <= b[j].value
    ensures forall j | 0 <= j < |b| && b[j].Some? :: t <= b[j].value
    ensures forall j | k < j < |b| && b[j].Some? :: t < b[j].value
  {
  }
}
