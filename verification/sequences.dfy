/** Facts about sequences and the multisets of their elements. */
module Sequences {
  /** `f` applied to every element, in order. */
  function Map<T, U>(s: seq<T>, f: T -> U): (r: seq<U>)
    ensures |r| == |s| && forall i | 0 <= i < |s| :: r[i] == f(s[i])
  {
    if |s| == 0 then [] else Map(s[..|s| - 1], f) + [f(s[|s| - 1])]
  }

  /** Mapping a reordering gives a reordering: each image occurs as often. */
  lemma {:induction false} MapReordering<T, U>(s: seq<T>, t: seq<T>, f: T -> U)
    requires multiset(s) == multiset(t)
    ensures multiset(Map(s, f)) == multiset(Map(t, f))
    decreases |s|
  {
    if |s| > 0 {
      var k := RemoveMatching(s, t);
      var s', t' := s[1..], t[..k] + t[k + 1..];
      MapReordering(s', t', f);
      MapReorderingStep(s, t, k, f, multiset(Map(s', f)));
    }
  }

  /** The inductive step of `MapReordering`: put back the matched pair. */
  lemma {:induction false} MapReorderingStep<T, U>(s: seq<T>, t: seq<T>, k: nat, f: T -> U, m: multiset<U>)
    requires 0 < |s| && k < |t| && t[k] == s[0]
    requires m == multiset(Map(s[1..], f)) && m == multiset(Map(t[..k] + t[k + 1..], f))
    ensures multiset(Map(s, f)) == multiset(Map(t, f))
  {
    MapRemoveOne(t, k, f);
    MapRemoveFirst(s, f);
    AddBack(multiset(Map(s, f)), multiset(Map(t, f)), f(s[0]), m);
  }

  /** The first element occurs in any reordering; removing both leaves reorderings. */
  lemma RemoveMatching<T>(s: seq<T>, t: seq<T>) returns (k: nat)
    requires |s| > 0 && multiset(s) == multiset(t)
    ensures k < |t| && t[k] == s[0]
    ensures multiset(s[1..]) == multiset(t[..k] + t[k + 1..])
  {
    assert s[0] in multiset(t);
    k :| 0 <= k < |t| && t[k] == s[0];
    MultisetRemove(t, k);
    MultisetTail(s);
  }

  lemma MultisetTail<T>(s: seq<T>)
    requires |s| > 0
    ensures multiset(s[1..]) == multiset(s) - multiset{s[0]}
  {
    assert s == [s[0]] + s[1..];
  }

  lemma AddBack<T>(a: multiset<T>, b: multiset<T>, e: T, m: multiset<T>)
    requires e in a && e in b && m == a - multiset{e} && m == b - multiset{e}
    ensures a == b
  {
    assert a == m + multiset{e};
    assert b == m + multiset{e};
  }

  /** Dropping the element at `k` drops one occurrence of it. */
  lemma MultisetRemove<T>(t: seq<T>, k: nat)
    requires k < |t|
    ensures multiset(t[..k] + t[k + 1..]) == multiset(t) - multiset{t[k]}
  {
    assert t == t[..k] + [t[k]] + t[k + 1..];
  }

  /** Dropping an element drops one occurrence of its image. */
  lemma {:induction false} MapRemoveOne<T, U>(t: seq<T>, k: nat, f: T -> U)
    requires k < |t|
    ensures f(t[k]) in multiset(Map(t, f))
    ensures multiset(Map(t[..k] + t[k + 1..], f)) == multiset(Map(t, f)) - multiset{f(t[k])}
  {
    var image := Map(t, f);
    MapDropOne(t, k, f);
    assert image[k] == f(t[k]);
    assert image[k] in multiset(image);
    MultisetRemove(image, k);
  }

  /** Dropping the first element drops one occurrence of its image. */
  lemma {:induction false} MapRemoveFirst<T, U>(s: seq<T>, f: T -> U)
    requires 0 < |s|
    ensures f(s[0]) in multiset(Map(s, f))
    ensures multiset(Map(s[1..], f)) == multiset(Map(s, f)) - multiset{f(s[0])}
  {
    var image, rest := Map(s, f), Map(s[1..], f);
    assert |image| == 1 + |rest|;
    forall i | 0 <= i < |image|
      ensures image[i] == ([f(s[0])] + rest)[i]
    {
      if i > 0 {
        assert rest[i - 1] == f(s[1..][i - 1]);
      }
    }
    assert image == [f(s[0])] + rest;
    assert multiset(image) == multiset{f(s[0])} + multiset(rest);
  }

  /** Mapping commutes with dropping the element at `k`. */
  lemma {:induction false} MapDropOne<T, U>(t: seq<T>, k: nat, f: T -> U)
    requires k < |t|
    ensures Map(t[..k] + t[k + 1..], f) == Map(t, f)[..k] + Map(t, f)[k + 1..]
  {
    var u := t[..k] + t[k + 1..];
    var image := Map(t, f);
    var dropped := image[..k] + image[k + 1..];
    assert |Map(u, f)| == |dropped|;
    forall i | 0 <= i < |dropped|
      ensures Map(u, f)[i] == dropped[i]
    {
      if i < k {
        assert u[i] == t[i] && dropped[i] == image[i];
      } else {
        assert u[i] == t[i + 1] && dropped[i] == image[i + 1];
      }
    }
  }

  lemma MapConcat<T, U>(a: seq<T>, b: seq<T>, f: T -> U)
    ensures Map(a + b, f) == Map(a, f) + Map(b, f)
  {
  }

  /** The elements of a reordering are the elements of the original. */
  lemma ReorderingMembers<T>(s: seq<T>, t: seq<T>)
    requires multiset(s) == multiset(t)
    ensures forall x | x in t :: x in s
  {
    forall x | x in t
      ensures x in s
    {
      assert x in multiset(t);
    }
  }

  /** Two bags each holding the elements of one part, and nothing else, together hold the elements of the
      whole and nothing else. */
  lemma BagsOfParts<T>(whole: multiset<T>, partA: multiset<T>, partB: multiset<T>, bagA: multiset<T>, bagB: multiset<T>)
    requires partA + partB == whole
    requires partA <= bagA && partB <= bagB
    requires forall x | x in bagA :: x in partA
    requires forall x | x in bagB :: x in partB
    ensures whole <= bagA + bagB
    ensures forall x | x in bagA + bagB :: x in whole
  {
  }
}
