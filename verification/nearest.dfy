/** The reference meaning of every hit query in the model: among finitely many candidate ray parameters,
    the least one inside the closed window [lo, hi]. */
module Nearest {
  import opened Wrappers
  import opened Rays

  /** `n` is the least candidate in the window, or `None` when no candidate lies in it. */
  predicate IsNearestIn(n: Option<real>, cs: seq<real>, lo: real, hi: Bound) {
    match n
    case None => forall t :: t in cs ==> !InWindow(t, lo, hi)
    case Some(u) => u in cs && InWindow(u, lo, hi) && forall t :: t in cs && InWindow(t, lo, hi) ==> u <= t
  }

  /** The least candidate in the window, found by one pass over the candidates. */
  function NearestIn(cs: seq<real>, lo: real, hi: Bound): (n: Option<real>)
    ensures IsNearestIn(n, cs, lo, hi)
  {
    if |cs| == 0 then None
    else
      var rest := NearestIn(cs[1..], lo, hi);
      assert forall t :: t in cs <==> t == cs[0] || t in cs[1..];
      if InWindow(cs[0], lo, hi) && (rest.None? || cs[0] <= rest.value) then Some(cs[0]) else rest
  }

  /** The specification has exactly one solution. */
  lemma NearestUnique(n: Option<real>, cs: seq<real>, lo: real, hi: Bound)
    requires IsNearestIn(n, cs, lo, hi)
    ensures n == NearestIn(cs, lo, hi)
  {
  }

  /** Only which values are candidates matters, not their order or how often they occur. */
  lemma NearestOfSameValues(cs: seq<real>, ds: seq<real>, lo: real, hi: Bound)
    requires forall t :: t in cs <==> t in ds
    ensures NearestIn(cs, lo, hi) == NearestIn(ds, lo, hi)
  {
    NearestUnique(NearestIn(cs, lo, hi), ds, lo, hi);
  }

  /** The least candidate of `a + b`, found the way a scan with a shrinking window finds it: first the
      least of `a`, then the least of `b` up to that value. */
  lemma NearestOfConcat(a: seq<real>, b: seq<real>, lo: real, hi: Bound)
    ensures NearestIn(a + b, lo, hi) ==
      match NearestIn(a, lo, hi)
      case None => NearestIn(b, lo, hi)
      case Some(u) => if NearestIn(b, lo, Finite(u)).Some? then NearestIn(b, lo, Finite(u)) else Some(u)
  {
    var na := NearestIn(a, lo, hi);
    assert forall t :: t in a + b <==> t in a || t in b;
    match na
    case None =>
      NearestUnique(NearestIn(b, lo, hi), a + b, lo, hi);
    case Some(u) =>
      var nb := NearestIn(b, lo, Finite(u));
      var n := if nb.Some? then nb else Some(u);
      NearestUnique(n, a + b, lo, hi);
  }

  /** Lowering the upper end to a value no smaller than the least candidate keeps it the least. */
  lemma NearestUnderLowerBound(cs: seq<real>, lo: real, hi: Bound, c: Bound)
    requires NearestIn(cs, lo, hi).Some? && AtMost(NearestIn(cs, lo, hi).value, c)
    requires BoundLe(c, hi)
    ensures NearestIn(cs, lo, c) == NearestIn(cs, lo, hi)
  {
    NearestUnique(NearestIn(cs, lo, hi), cs, lo, c);
  }

  /** A smaller window finds nothing nearer than the larger one does. */
  lemma NearestInSmallerWindow(cs: seq<real>, lo: real, c: Bound, hi: Bound)
    requires BoundLe(c, hi) && NearestIn(cs, lo, c).Some?
    ensures NearestIn(cs, lo, hi).Some? && NearestIn(cs, lo, hi).value <= NearestIn(cs, lo, c).value
  {
  }
}
