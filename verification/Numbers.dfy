/** Ranges of numbers, and two facts about products that the arithmetic of several modules needs. */
module Numbers {

  ghost function Range(first: int, last: int): (s: set<int>)
    ensures forall a :: a in s <==> first <= a <= last
    ensures |s| == if first <= last then last - first + 1 else 0
    decreases last - first + 1
  {
    if first > last then {} else Range(first, last - 1) + {last}
  }

  lemma OneMore(n: nat, x: nat)
    ensures (n + 1) * x == n * x + x
  {}

  lemma Monotone(n: nat, a: nat, b: nat)
    requires a <= b
    ensures n * a <= n * b
  {}
}
