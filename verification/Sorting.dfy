/** A stable sort, and the fact that a sorted permutation is unique under a total order. */
module Sorting {

  ghost predicate Total<T(!new)>(leq: (T, T) -> bool) {
    forall x, y :: leq(x, y) || leq(y, x)
  }

  ghost predicate Transitive<T(!new)>(leq: (T, T) -> bool) {
    forall x, y, z :: leq(x, y) && leq(y, z) ==> leq(x, z)
  }

  ghost predicate Antisymmetric<T(!new)>(leq: (T, T) -> bool) {
    forall x, y :: leq(x, y) && leq(y, x) ==> x == y
  }

  predicate Sorted<T>(leq: (T, T) -> bool, s: seq<T>) {
    forall i, j :: 0 <= i < j < |s| ==> leq(s[i], s[j])
  }

  function Insert<T>(leq: (T, T) -> bool, x: T, s: seq<T>): (r: seq<T>)
    ensures multiset(r) == multiset(s) + multiset{x}
  {
    if s == [] || leq(x, s[0]) then [x] + s
    else
      assert s == [s[0]] + s[1..];
      [s[0]] + Insert(leq, x, s[1..])
  }

  /** Equal elements keep their order. */
  function Sort<T>(leq: (T, T) -> bool, s: seq<T>): (r: seq<T>)
    ensures multiset(r) == multiset(s)
  {
    if s == [] then []
    else
      assert s == [s[0]] + s[1..];
      Insert(leq, s[0], Sort(leq, s[1..]))
  }

  lemma {:induction false} InsertSorts<T(!new)>(leq: (T, T) -> bool, x: T, s: seq<T>)
    requires Total(leq) && Transitive(leq) && Sorted(leq, s)
    ensures Sorted(leq, Insert(leq, x, s))
  {
    if s != [] && !leq(x, s[0]) {
      var r := Insert(leq, x, s[1..]);
      InsertSorts(leq, x, s[1..]);
      forall j | 0 <= j < |r| ensures leq(s[0], r[j]) {
        assert r[j] in multiset(r);
        if r[j] != x {
          assert r[j] in multiset(s[1..]);
        }
      }
    }
  }

  lemma {:induction false} SortSorts<T(!new)>(leq: (T, T) -> bool, s: seq<T>)
    requires Total(leq) && Transitive(leq)
    ensures Sorted(leq, Sort(leq, s))
  {
    if s == [] {
    } else {
      SortSorts(leq, s[1..]);
      InsertSorts(leq, s[0], Sort(leq, s[1..]));
    }
  }

  /** No two different elements of s are equal in the order. */
  ghost predicate Distinguishes<T>(leq: (T, T) -> bool, s: seq<T>) {
    forall x, y :: x in s && y in s && leq(x, y) && leq(y, x) ==> x == y
  }

  lemma SameHead<T>(leq: (T, T) -> bool, a: seq<T>, b: seq<T>)
    requires a != [] && b != []
    requires Distinguishes(leq, a) && Sorted(leq, a) && Sorted(leq, b) && multiset(a) == multiset(b)
    ensures a[0] == b[0]
  {
    assert a[0] in multiset(b) && b[0] in multiset(a);
    var i :| 0 <= i < |a| && a[i] == b[0];
    var j :| 0 <= j < |b| && b[j] == a[0];
    if i != 0 && j != 0 {
      assert leq(a[0], a[i]) && leq(b[0], b[j]);
    }
  }

  lemma WithoutHead<T>(a: seq<T>, b: seq<T>)
    requires a != [] && b != [] && a[0] == b[0] && multiset(a) == multiset(b)
    ensures multiset(a[1..]) == multiset(b[1..])
  {
    assert a == [a[0]] + a[1..] && b == [b[0]] + b[1..];
    assert multiset(a) - multiset{a[0]} == multiset(a[1..]);
    assert multiset(b) - multiset{b[0]} == multiset(b[1..]);
  }

  lemma {:induction false} SortedPermutationIsUnique<T>(leq: (T, T) -> bool, a: seq<T>, b: seq<T>)
    requires Distinguishes(leq, a) && Sorted(leq, a) && Sorted(leq, b) && multiset(a) == multiset(b)
    ensures a == b
    decreases a
  {
    assert |multiset(a)| == |a| && |multiset(b)| == |b|;
    if a == [] {
    } else {
      SameHead(leq, a, b);
      WithoutHead(a, b);
      assert forall x <- a[1..] :: x in a;
      SortedPermutationIsUnique(leq, a[1..], b[1..]);
      assert a == [a[0]] + a[1..] && b == [b[0]] + b[1..];
    }
  }
}
