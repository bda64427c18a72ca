/** Sorting a sequence by a real-valued key: the insertion sort used as the concrete reordering of a
    span before it is halved. */
module Sorting {
  /** Keys never decrease along `s`. */
  predicate SortedBy<T>(s: seq<T>, key: T -> real) {
    forall i, j | 0 <= i < j < |s| :: key(s[i]) <= key(s[j])
  }

  /** `x` placed before the first element of the sorted `s` whose key is not smaller. */
  function Insert<T>(x: T, s: seq<T>, key: T -> real): (r: seq<T>)
    requires SortedBy(s, key)
    ensures multiset(r) == multiset(s) + multiset{x}
    ensures SortedBy(r, key)
    decreases |s|
  {
    if |s| == 0 then [x]
    else if key(x) <= key(s[0]) then
      assert SortedBy([x] + s, key) by {
        forall i, j | 0 <= i < j < |[x] + s|
          ensures key(([x] + s)[i]) <= key(([x] + s)[j])
        {
          if i > 0 {
            assert ([x] + s)[i] == s[i - 1] && ([x] + s)[j] == s[j - 1];
          } else {
            assert ([x] + s)[j] == s[j - 1];
          }
        }
      }
      [x] + s
    else
      var rest := Insert(x, s[1..], key);
      InsertStep(x, s, key, rest);
      [s[0]] + rest
  }

  /** The recursive case of `Insert`: the head stays in front of the rest with `x` inserted. */
  lemma InsertStep<T>(x: T, s: seq<T>, key: T -> real, rest: seq<T>)
    requires |s| > 0 && SortedBy(s, key) && key(s[0]) < key(x)
    requires multiset(rest) == multiset(s[1..]) + multiset{x} && SortedBy(rest, key)
    ensures multiset([s[0]] + rest) == multiset(s) + multiset{x}
    ensures SortedBy([s[0]] + rest, key)
  {
    assert s == [s[0]] + s[1..];
    var r := [s[0]] + rest;
    forall i, j | 0 <= i < j < |r|
      ensures key(r[i]) <= key(r[j])
    {
      assert r[j] == rest[j - 1];
      if i > 0 {
        assert r[i] == rest[i - 1];
      } else {
        assert rest[j - 1] in multiset(rest);
        if rest[j - 1] != x {
          assert rest[j - 1] in multiset(s[1..]);
          var k :| 0 <= k < |s[1..]| && s[1..][k] == rest[j - 1];
          assert s[k + 1] == rest[j - 1];
        }
      }
    }
  }

  /** Insertion sort: the tail sorted, then the head inserted. */
  function SortBy<T>(s: seq<T>, key: T -> real): (r: seq<T>)
    ensures multiset(r) == multiset(s)
    ensures SortedBy(r, key)
    decreases |s|
  {
    if |s| == 0 then []
    else
      assert s == [s[0]] + s[1..];
      Insert(s[0], SortBy(s[1..], key), key)
  }
}
