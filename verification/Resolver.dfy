/**
 src/resolver.rs, `reverse_names`: addresses are cut into chunks, each chunk is looked up by a
 worker, and the workers' maps are merged as they are joined. Lookup is a function of the address.
 */
module Resolver {
  import opened Words
  import opened Lists

  const MAX_WORKERS: nat := 8

  type Lookup<!A> = A -> Option<string>

  function DivCeil(n: nat, d: nat): nat
    requires d > 0
  {
    (n + d - 1) / d
  }

  /** `slice::chunks`: pieces of the given size, the last one possibly shorter. */
  function Chunks<A>(s: seq<A>, size: nat): seq<seq<A>>
    requires size > 0
  {
    if s == [] then []
    else if |s| <= size then [s]
    else [s[..size]] + Chunks(s[size..], size)
  }

  /** What a worker collects for its chunk, and what one worker would collect for everything. */
  function NamesOf<A>(lookup: Lookup<A>, addresses: seq<A>): map<A, string> {
    map a | a in addresses && lookup(a).Some? :: lookup(a).value
  }

  /** One worker has a name for exactly those of its addresses that the lookup has a name for. */
  lemma NamesAreLookups<A>(lookup: Lookup<A>, addresses: seq<A>, a: A)
    ensures var names := NamesOf(lookup, addresses);
            (if a in names then Some(names[a]) else None) == if a in addresses then lookup(a) else None
  {}

  function WorkerCount(n: nat): nat {
    if n < MAX_WORKERS then n else MAX_WORKERS
  }

  lemma {:induction false} ChunkCount<A>(s: seq<A>, size: nat, workers: nat)
    requires size > 0 && |s| <= workers * size
    ensures |Chunks(s, size)| <= workers
    decreases workers
  {
    if |s| > size {
      assert workers * size == (workers - 1) * size + size;
      ChunkCount(s[size..], size, workers - 1);
    } else if s != [] {
      assert workers > 0;
    }
  }

  lemma {:induction false} ChunksJoin<A>(s: seq<A>, size: nat)
    requires size > 0
    ensures Flatten(Chunks(s, size)) == s
    ensures forall chunk <- Chunks(s, size) :: 0 < |chunk| <= size
    decreases |s|
  {
    if |s| > size {
      ChunksJoin(s[size..], size);
      assert s == s[..size] + s[size..];
    } else if s != [] {
      assert [s][1..] == [] && Flatten([s]) == s + Flatten([s][1..]);
    }
  }

  lemma CeilCovers(n: nat, workers: nat)
    requires 0 < workers <= n
    ensures 0 < DivCeil(n, workers) && n <= workers * DivCeil(n, workers)
    ensures (DivCeil(n, workers) - 1) * workers < n
  {
    var q, r := (n + workers - 1) / workers, (n + workers - 1) % workers;
    assert n + workers - 1 == workers * q + r;
  }

  /** The chunks of a non-empty input: no more than eight, none empty, and together the whole input. */
  lemma ChunksAreWorkersShares<A>(addresses: seq<A>)
    requires addresses != []
    ensures var workers := WorkerCount(|addresses|);
            var size := DivCeil(|addresses|, workers);
            && size > 0
            && 0 < |Chunks(addresses, size)| <= workers <= 8
            && Flatten(Chunks(addresses, size)) == addresses
            && (forall chunk <- Chunks(addresses, size) :: 0 < |chunk| <= size)
            && (size - 1) * (if |addresses| < 8 then |addresses| else 8) < |addresses|
  {
    var workers := WorkerCount(|addresses|);
    CeilCovers(|addresses|, workers);
    ChunkCount(addresses, DivCeil(|addresses|, workers), workers);
    ChunksJoin(addresses, DivCeil(|addresses|, workers));
  }

  /** The workers' shares of the addresses. */
  function Shares<A>(addresses: seq<A>): seq<seq<A>> {
    if addresses == [] then []
    else
      ChunksAreWorkersShares(addresses);
      Chunks(addresses, DivCeil(|addresses|, WorkerCount(|addresses|)))
  }

  /** The addresses of the chunks whose workers could be joined. */
  function Joined<A>(chunks: seq<seq<A>>, joins: nat -> bool): seq<A> {
    if chunks == [] then []
    else Joined(chunks[..|chunks| - 1], joins) + if joins(|chunks| - 1) then chunks[|chunks| - 1] else []
  }

  lemma {:induction false} AllJoined<A>(chunks: seq<seq<A>>, joins: nat -> bool)
    requires forall i :: 0 <= i < |chunks| ==> joins(i)
    ensures Joined(chunks, joins) == Flatten(chunks)
  {
    if chunks == [] {
    } else {
      var front, last := chunks[..|chunks| - 1], chunks[|chunks| - 1];
      AllJoined(front, joins);
      assert chunks == front + [last];
      FlattenSnoc(front, last);
    }
  }

  lemma MergedNames<A>(lookup: Lookup<A>, a: seq<A>, b: seq<A>)
    ensures NamesOf(lookup, a) + NamesOf(lookup, b) == NamesOf(lookup, a + b)
  {}

  /** The merged map covers the chunks of the joined workers; with every worker joined, the whole list. */
  method ReverseNames<A(==)>(addresses: seq<A>, lookup: Lookup<A>, joins: nat -> bool)
    returns (names: map<A, string>)
    ensures names == NamesOf(lookup, Joined(Shares(addresses), joins))
    ensures (forall i :: 0 <= i < 8 ==> joins(i)) ==>
              forall a :: (if a in names then Some(names[a]) else None) == if a in addresses then lookup(a) else None
    ensures forall a :: (if a in names then Some(names[a]) else None)
                     == if a in Joined(Shares(addresses), joins) then lookup(a) else None
  {
    if addresses == [] {
      return map[];
    }
    var workers := WorkerCount(|addresses|);
    ChunksAreWorkersShares(addresses);
    var size := DivCeil(|addresses|, workers);
    var chunks := Chunks(addresses, size);
    names := map[];
    hide Joined, Chunks, Flatten, DivCeil, NamesOf;
    NothingJoined(lookup, chunks, joins);
    for i := 0 to |chunks|
      invariant names == NamesOf(lookup, Joined(chunks[..i], joins))
    {
      OneMoreJoined(lookup, chunks, joins, i);
      if joins(i) {
        names := names + NamesOf(lookup, chunks[i]);
      }
    }
    assert chunks[..|chunks|] == chunks;
    if forall i :: 0 <= i < 8 ==> joins(i) {
      AllJoined(chunks, joins);
    }
    forall a
      ensures (if a in names then Some(names[a]) else None) == if a in Joined(chunks, joins) then lookup(a) else None
    {
      NamesAreLookups(lookup, Joined(chunks, joins), a);
    }
  }

  lemma NothingJoined<A>(lookup: Lookup<A>, chunks: seq<seq<A>>, joins: nat -> bool)
    ensures NamesOf(lookup, Joined(chunks[..0], joins)) == map[]
  {}

  lemma OneMoreJoined<A>(lookup: Lookup<A>, chunks: seq<seq<A>>, joins: nat -> bool, i: nat)
    requires i < |chunks|
    ensures NamesOf(lookup, Joined(chunks[..i + 1], joins)) ==
            if joins(i) then NamesOf(lookup, Joined(chunks[..i], joins)) + NamesOf(lookup, chunks[i])
            else NamesOf(lookup, Joined(chunks[..i], joins))
  {
    assert chunks[..i + 1][..i] == chunks[..i];
    if joins(i) {
      MergedNames(lookup, Joined(chunks[..i], joins), chunks[i]);
    } else {
      assert Joined(chunks[..i + 1], joins) == Joined(chunks[..i], joins) + [];
    }
  }

  /** The addresses that keep their names are those in the share of some worker that is joined. */
  lemma {:induction false} JoinedIff<A>(chunks: seq<seq<A>>, joins: nat -> bool, a: A)
    ensures a in Joined(chunks, joins) <==> exists i :: 0 <= i < |chunks| && joins(i) && a in chunks[i]
  {
    if chunks == [] {
    } else {
      var front, last := chunks[..|chunks| - 1], chunks[|chunks| - 1];
      JoinedIff(front, joins, a);
      assert forall i :: 0 <= i < |front| ==> front[i] == chunks[i];
    }
  }

  /** A worker that cannot be joined costs names, but never makes one wrong. */
  lemma JoinedNames<A>(lookup: Lookup<A>, chunks: seq<seq<A>>, joins: nat -> bool)
    ensures var names := NamesOf(lookup, Joined(chunks, joins));
            && names.Keys <= NamesOf(lookup, Flatten(chunks)).Keys
            && forall a <- names :: lookup(a) == Some(names[a])
  {
    JoinedMembers(chunks, joins);
  }

  lemma {:induction false} JoinedMembers<A>(chunks: seq<seq<A>>, joins: nat -> bool)
    ensures forall a <- Joined(chunks, joins) :: a in Flatten(chunks)
  {
    if chunks == [] {
    } else {
      var front, last := chunks[..|chunks| - 1], chunks[|chunks| - 1];
      JoinedMembers(front, joins);
      assert chunks == front + [last];
      FlattenSnoc(front, last);
    }
  }
}
