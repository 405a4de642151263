/** Filtering and mapping a list, permutations under it, and lists of lists. */
module Lists {
  import opened Words

  function AsList<T>(o: Option<T>): seq<T> {
    if o.Some? then [o.value] else []
  }

  /** The values that `f` gives for the elements, in order; elements it rejects are dropped. */
  function FilterMap<A, B>(f: A -> Option<B>, s: seq<A>): (r: seq<B>)
    ensures |r| <= |s|
  {
    if s == [] then []
    else AsList(f(s[0])) + FilterMap(f, s[1..])
  }

  lemma {:induction false} FilterMapConcat<A, B>(f: A -> Option<B>, a: seq<A>, b: seq<A>)
    ensures FilterMap(f, a + b) == FilterMap(f, a) + FilterMap(f, b)
  {
    if a == [] {
      assert a + b == b;
    } else {
      hide AsList;
      assert (a + b)[0] == a[0] && (a + b)[1..] == a[1..] + b;
      FilterMapConcat(f, a[1..], b);
      assert AsList(f(a[0])) + (FilterMap(f, a[1..]) + FilterMap(f, b))
          == AsList(f(a[0])) + FilterMap(f, a[1..]) + FilterMap(f, b);
    }
  }

  lemma {:induction false} FilterMapSame<A, B, C>(f: A -> Option<C>, a: seq<A>, g: B -> Option<C>, b: seq<B>)
    requires |a| == |b| && forall i :: 0 <= i < |a| ==> f(a[i]) == g(b[i])
    ensures FilterMap(f, a) == FilterMap(g, b)
  {
    if a == [] {
    } else {
      FilterMapSame(f, a[1..], g, b[1..]);
    }
  }

  lemma {:induction false} FilterMapTwice<A, B, C>(f: A -> Option<B>, g: B -> Option<C>, h: A -> Option<C>, s: seq<A>)
    requires forall x <- s :: h(x) == if f(x).None? then None else g(f(x).value)
    ensures FilterMap(g, FilterMap(f, s)) == FilterMap(h, s)
  {
    if s == [] {
    } else {
      var first, rest := AsList(f(s[0])), FilterMap(f, s[1..]);
      FilterMapTwice(f, g, h, s[1..]);
      FilterMapConcat(g, first, rest);
      assert s[0] in s;
      if f(s[0]).Some? {
        assert FilterMap(g, first[1..]) == [];
      }
    }
  }

  lemma TakeOut<T>(s: seq<T>, k: nat)
    requires k < |s|
    ensures multiset(s) == multiset(s[..k] + s[k + 1..]) + multiset{s[k]}
  {
    assert s == s[..k] + ([s[k]] + s[k + 1..]);
    assert multiset(s) == multiset(s[..k]) + (multiset{s[k]} + multiset(s[k + 1..]));
  }

  lemma TakeOutBoth<T>(a: seq<T>, j: nat, b: seq<T>, k: nat)
    requires j < |a| && k < |b| && a[j] == b[k] && multiset(a) == multiset(b)
    ensures multiset(a[..j] + a[j + 1..]) == multiset(b[..k] + b[k + 1..])
  {
    TakeOut(a, j);
    TakeOut(b, k);
    assert multiset(a[..j] + a[j + 1..]) == multiset(a) - multiset{a[j]};
    assert multiset(b[..k] + b[k + 1..]) == multiset(b) - multiset{b[k]};
  }

  lemma FilterMapTakeOut<A, B>(f: A -> Option<B>, s: seq<A>, k: nat)
    requires k < |s|
    ensures multiset(FilterMap(f, s)) == multiset(FilterMap(f, s[..k] + s[k + 1..]))
                                       + multiset(AsList(f(s[k])))
  {
    hide AsList;
    var a, b := s[..k], s[k..];
    assert s == a + b && b[0] == s[k] && b[1..] == s[k + 1..];
    FilterMapConcat(f, a, b);
    FilterMapConcat(f, a, b[1..]);
    Rearranged(FilterMap(f, a), AsList(f(s[k])), FilterMap(f, b[1..]));
  }

  lemma Rearranged<T>(x: seq<T>, y: seq<T>, z: seq<T>)
    ensures multiset(x + (y + z)) == multiset(x + z) + multiset(y)
  {}

  /** Permuting the elements permutes the values. */
  lemma {:induction false} FilterMapPermutes<A, B>(f: A -> Option<B>, a: seq<A>, b: seq<A>)
    requires multiset(a) == multiset(b)
    ensures multiset(FilterMap(f, a)) == multiset(FilterMap(f, b))
    decreases a
  {
    if a == [] {
      assert |multiset(b)| == |multiset(a)| == 0;
      assert b == [];
    } else {
      assert a[0] in multiset(a);
      assert a[0] in multiset(b);
      var k :| 0 <= k < |b| && b[k] == a[0];
      assert a[..0] + a[1..] == a[1..];
      TakeOutBoth(a, 0, b, k);
      FilterMapPermutes(f, a[1..], b[..k] + b[k + 1..]);
      FilterMapTakeOut(f, a, 0);
      FilterMapTakeOut(f, b, k);
    }
  }

  // ---- Lists of lists ----

  function Flatten<T>(lists: seq<seq<T>>): seq<T> {
    if lists == [] then [] else lists[0] + Flatten(lists[1..])
  }

  lemma {:induction false} FlattenSnoc<T>(lists: seq<seq<T>>, last: seq<T>)
    ensures Flatten(lists + [last]) == Flatten(lists) + last
  {
    if lists == [] {
      assert [last][1..] == [] && [] + [last] == [last];
    } else {
      assert (lists + [last])[1..] == lists[1..] + [last];
      FlattenSnoc(lists[1..], last);
    }
  }
}
