/**
 src/scanner.rs and the CIDR search of src/main.rs: address blocks (section 3.1 of RFC 4632),
 host bounds (/31 as in section 2.1 of RFC 3021), target counting, and the probing loop.
 */
module Scanner {
  import opened Words
  import opened Bits
  import opened Numbers

  const WIDTH: nat := 32
  const MAX_TARGETS: nat := 4096

  datatype Network = Network(interfaceIndex: int, address: u32, prefix: nat, network: u32, broadcast: u32)
  {
    function HostBounds(): (int, int) {
      if prefix <= 30 then (network + 1, broadcast - 1) else (network, broadcast)
    }

    function TargetCount(): int {
      var (first, last) := HostBounds();
      last - first + 1 - if first <= address <= last then 1 else 0
    }

    predicate Contains(a: u32) {
      network <= a <= broadcast
    }

    /** The addresses a pass may probe. */
    ghost function Targets(): set<int> {
      Range(HostBounds().0, HostBounds().1) - {address}
    }
  }

  function AllOnes(): nat { Pow2(WIDTH) - 1 }

  /** `u32::MAX << (32 - prefix)`, with the shift by 32 avoided. */
  function Mask(prefix: nat): nat
    requires prefix <= WIDTH
  {
    if prefix == 0 then 0 else ShiftLeft(WIDTH, AllOnes(), WIDTH - prefix)
  }

  lemma WordSize()
    ensures Pow2(WIDTH) == 0x1_0000_0000
  {
    assert Pow2(8) == 0x100;
    assert Pow2(16) == 0x1_0000 by { assert Pow2(12) == 0x1000; }
    assert Pow2(24) == 0x100_0000 by { assert Pow2(20) == 0x10_0000; }
    assert Pow2(28) == 0x1000_0000;
    assert Pow2(32) == 0x1_0000_0000;
  }

  lemma MaskValue(prefix: nat)
    requires prefix <= WIDTH
    ensures Pow2(WIDTH) >= Pow2(WIDTH - prefix)
    ensures Mask(prefix) == Pow2(WIDTH) - Pow2(WIDTH - prefix)
  {
    hide ShiftLeft;
    if prefix == 0 {
      PowersGrow(WIDTH, WIDTH);
    } else {
      AllOnesShifted(WIDTH, WIDTH - prefix);
    }
  }

  /** Masking clears the host bits; the complement of the mask fills them. */
  lemma BlockValue(address: u32, prefix: nat)
    requires prefix <= WIDTH
    ensures var hostBits := WIDTH - prefix;
            var network := And(WIDTH, address, Mask(prefix));
            && network == address - Low(address, hostBits)
            && Low(network, hostBits) == 0
            && Or(WIDTH, network, Not(WIDTH, Mask(prefix))) == network + Pow2(hostBits) - 1
            && network + Pow2(hostBits) - 1 < 0x1_0000_0000
  {
    hide And, Or, Not, Mask, ShiftLeft, Low;
    var k := WIDTH - prefix;
    WordSize();
    MaskValue(prefix);
    PowersGrow(0, k);
    AndClearsLowBits(WIDTH, address, k);
    var network := address - Low(address, k);
    LowOfCleared(address, k);
    NotIsComplement(WIDTH, Mask(prefix));
    OrFillsLowBits(WIDTH, network, k);
    BlockFits(WIDTH, network, k);
  }

  lemma {:induction false} BlockFits(width: nat, x: nat, k: nat)
    requires k <= width && x < Pow2(width) && Low(x, k) == 0
    ensures x + Pow2(k) <= Pow2(width)
  {
    if k == 0 {
    } else {
      BlockFits(width - 1, x / 2, k - 1);
    }
  }

  function ForCidr(interfaceIndex: int, address: u32, cidrAddress: u32, prefix: nat): Network
    requires prefix <= WIDTH
  {
    BlockValue(cidrAddress, prefix);
    var network := And(WIDTH, cidrAddress, Mask(prefix));
    Network(interfaceIndex, address, prefix, network, Or(WIDTH, network, Not(WIDTH, Mask(prefix))))
  }

  // ---- CIDR arithmetic ----

  /** Network and broadcast bound the aligned block of 2^(32 - prefix) addresses around the CIDR address. */
  lemma CidrBlock(interfaceIndex: int, address: u32, cidrAddress: u32, prefix: nat)
    requires prefix <= WIDTH
    ensures var n := ForCidr(interfaceIndex, address, cidrAddress, prefix);
            && n.network <= cidrAddress <= n.broadcast
            && n.network % Pow2(WIDTH - prefix) == 0
            && n.broadcast - n.network + 1 == Pow2(WIDTH - prefix)
  {
    hide And, Or, Not, Mask, Low, Pow2;
    BlockValue(cidrAddress, prefix);
    var network := And(WIDTH, cidrAddress, Mask(prefix));
    LowIsRemainder(network, WIDTH - prefix);
  }

  /** Lying between the bounds is the same as agreeing on the masked bits. */
  lemma ContainsIffMaskedBitsMatch(interfaceIndex: int, address: u32, cidrAddress: u32, prefix: nat, a: u32)
    requires prefix <= WIDTH
    ensures ForCidr(interfaceIndex, address, cidrAddress, prefix).Contains(a)
       <==> And(WIDTH, a, Mask(prefix)) == And(WIDTH, cidrAddress, Mask(prefix))
  {
    hide And, Or, Not, Mask, Low, Pow2;
    var k := WIDTH - prefix;
    BlockValue(cidrAddress, prefix);
    BlockValue(a, prefix);
    var network := And(WIDTH, cidrAddress, Mask(prefix));
    if network <= a < network + Pow2(k) {
      LowOfFilled(network, a - network, k);
    }
  }

  /** Building a network from its own network address, as the CLI does after masking once, changes nothing. */
  lemma ForCidrIsIdempotent(interfaceIndex: int, address: u32, cidrAddress: u32, prefix: nat)
    requires prefix <= WIDTH
    ensures var n := ForCidr(interfaceIndex, address, cidrAddress, prefix);
            ForCidr(interfaceIndex, address, n.network, prefix) == n
  {
    BlockValue(cidrAddress, prefix);
    BlockValue(And(WIDTH, cidrAddress, Mask(prefix)), prefix);
  }

  lemma PowersFromFour(k: nat)
    ensures k >= 2 ==> Pow2(k) >= 4
    ensures k < 2 ==> Pow2(k) == k + 1
  {
    if k >= 2 { PowersGrow(2, k); assert Pow2(2) == 4; }
  }

  /** The host bounds neither wrap nor invert, and hold all of the block but its two ends for prefixes through /30. */
  lemma HostBoundsFit(interfaceIndex: int, address: u32, cidrAddress: u32, prefix: nat)
    requires prefix <= WIDTH
    ensures var n := ForCidr(interfaceIndex, address, cidrAddress, prefix);
            var (first, last) := n.HostBounds();
            && n.network <= first <= last <= n.broadcast
            && (prefix <= 30 ==> n.network < first && last < n.broadcast)
            && last - first + 1 == if prefix <= 30 then Pow2(WIDTH - prefix) - 2 else Pow2(WIDTH - prefix)
  {
    CidrBlock(interfaceIndex, address, cidrAddress, prefix);
    PowersFromFour(WIDTH - prefix);
  }

  // ---- Counting ----

  /** The closed form counts the addresses a pass visits apart from the local one, inside or outside the block. */
  lemma TargetCountIsCardinality(n: Network)
    requires n.HostBounds().0 <= n.HostBounds().1
    ensures n.TargetCount() == |n.Targets()|
  {
    var all := Range(n.HostBounds().0, n.HostBounds().1);
    if n.address in all {
      assert all == n.Targets() + {n.address};
    } else {
      assert all == n.Targets();
    }
  }

  /** The same for every CIDR, with its size: all addresses between the bounds, less a local one among them. */
  lemma CidrTargetCount(interfaceIndex: int, address: u32, cidrAddress: u32, prefix: nat)
    requires prefix <= WIDTH
    ensures var n := ForCidr(interfaceIndex, address, cidrAddress, prefix);
            var hosts := Pow2(WIDTH - prefix) - if prefix <= 30 then 2 else 0;
            n.TargetCount() == |n.Targets()| == hosts - if n.HostBounds().0 <= address <= n.HostBounds().1 then 1 else 0
  {
    hide ForCidr;
    var n := ForCidr(interfaceIndex, address, cidrAddress, prefix);
    HostBoundsFit(interfaceIndex, address, cidrAddress, prefix);
    TargetCountIsCardinality(n);
    LocalAddress(interfaceIndex, address, cidrAddress, prefix);
  }

  lemma LocalAddress(interfaceIndex: int, address: u32, cidrAddress: u32, prefix: nat)
    requires prefix <= WIDTH
    ensures ForCidr(interfaceIndex, address, cidrAddress, prefix).address == address
  {}

  // ---- The probing loop ----

  /** The addresses probed from `a` to `last`, in order. */
  function Probes(a: int, last: int, own: u32, excluded: set<u32>): seq<int>
    decreases last + 1 - a
  {
    if a > last then []
    else (if a != own && a !in excluded then [a] else []) + Probes(a + 1, last, own, excluded)
  }

  function NetworkProbes(n: Network, excluded: set<u32>): seq<int> {
    Probes(n.HostBounds().0, n.HostBounds().1, n.address, excluded)
  }

  function PassProbes(networks: seq<Network>, excluded: set<u32>): seq<int> {
    if networks == [] then [] else NetworkProbes(networks[0], excluded) + PassProbes(networks[1..], excluded)
  }

  function Repeated(pass: seq<int>, times: nat): seq<int> {
    if times == 0 then [] else Repeated(pass, times - 1) + pass
  }

  lemma NewMember(a: int, rest: seq<int>)
    requires a !in rest && |rest| == |set x | x in rest|
    ensures |[a] + rest| == |set x | x in [a] + rest|
  {
    assert (set x | x in [a] + rest) == {a} + set x | x in rest;
  }

  lemma {:induction false} ProbesAre(a: int, last: int, own: u32, excluded: set<u32>)
    ensures var ps := Probes(a, last, own, excluded);
            && (forall x :: x in ps <==> a <= x <= last && x != own && x !in excluded)
            && |ps| == |set x | x in ps|
    decreases last + 1 - a
  {
    var ps := Probes(a, last, own, excluded);
    if a <= last {
      var rest := Probes(a + 1, last, own, excluded);
      ProbesAre(a + 1, last, own, excluded);
      if a != own && a !in excluded {
        assert ps == [a] + rest;
        NewMember(a, rest);
      } else {
        assert ps == rest;
      }
    } else {
      assert (set x | x in ps) == {};
    }
  }

  /** One network is probed once for each of its targets that is not excluded. */
  lemma NetworkProbesCount(n: Network, excluded: set<u32>)
    ensures |NetworkProbes(n, excluded)| == |n.Targets() - excluded|
    ensures forall a :: a in NetworkProbes(n, excluded) <==> a in n.Targets() - excluded
  {
    ProbesAre(n.HostBounds().0, n.HostBounds().1, n.address, excluded);
    assert (set a | a in NetworkProbes(n, excluded)) == n.Targets() - excluded;
  }

  function TotalTargets(networks: seq<Network>): int {
    if networks == [] then 0 else networks[0].TargetCount() + TotalTargets(networks[1..])
  }

  ghost function TotalProbes(networks: seq<Network>, excluded: set<u32>): nat {
    if networks == [] then 0 else |networks[0].Targets() - excluded| + TotalProbes(networks[1..], excluded)
  }

  ghost predicate Ordered(networks: seq<Network>) {
    forall n <- networks :: n.HostBounds().0 <= n.HostBounds().1
  }

  lemma {:induction false} PassCount(networks: seq<Network>, excluded: set<u32>)
    requires Ordered(networks)
    ensures |PassProbes(networks, excluded)| == TotalProbes(networks, excluded) <= TotalTargets(networks)
  {
    if networks == [] {
    } else {
      var n := networks[0];
      assert n in networks;
      NetworkProbesCount(n, excluded);
      TargetCountIsCardinality(n);
      Smaller(n.Targets(), excluded);
      PassCount(networks[1..], excluded);
    }
  }

  lemma Smaller(s: set<int>, t: set<u32>)
    ensures |s - t| <= |s|
  {
    assert s == (s - t) + (s * t);
  }

  predicate Ascending(s: seq<int>) {
    forall i, j :: 0 <= i < j < |s| ==> s[i] < s[j]
  }

  lemma AscendingFrom(a: int, rest: seq<int>)
    requires Ascending(rest) && forall x <- rest :: a < x
    ensures Ascending([a] + rest)
  {
    var s := [a] + rest;
    forall i, j | 0 <= i < j < |s| ensures s[i] < s[j] {
      assert s[j] == rest[j - 1];
      assert s[j] in rest;
      assert i > 0 ==> s[i] == rest[i - 1];
    }
  }

  /** The addresses of a network are probed in ascending order. */
  lemma {:induction false} ProbesAscend(a: int, last: int, own: u32, excluded: set<u32>)
    ensures Ascending(Probes(a, last, own, excluded))
    decreases last + 1 - a
  {
    if a > last {
    } else {
      var rest := Probes(a + 1, last, own, excluded);
      ProbesAscend(a + 1, last, own, excluded);
      ProbesAre(a + 1, last, own, excluded);
      AscendingFrom(a, rest);
      assert [] + rest == rest;
    }
  }

  /** A pass probes one network after the other. */
  lemma {:induction false} PassesConcat(a: seq<Network>, n: Network, excluded: set<u32>)
    ensures PassProbes([], excluded) == []
    ensures PassProbes(a + [n], excluded) == PassProbes(a, excluded) + NetworkProbes(n, excluded)
  {
    hide NetworkProbes;
    var ps := NetworkProbes(n, excluded);
    if a == [] {
      assert a + [n] == [n] && [n][1..] == [];
      assert ps + [] == ps && [] + ps == ps;
    } else {
      assert (a + [n])[0] == a[0] && (a + [n])[1..] == a[1..] + [n];
      PassesConcat(a[1..], n, excluded);
      var first, rest := NetworkProbes(a[0], excluded), PassProbes(a[1..], excluded);
      assert first + (rest + ps) == first + rest + ps;
    }
  }

  /** Every pass is the same: the i-th datagram goes where the i-th of a single pass would, cyclically. */
  lemma {:induction false} RepeatedAt(pass: seq<int>, times: nat, i: nat)
    requires i < |Repeated(pass, times)|
    ensures |pass| > 0 && Repeated(pass, times)[i] == pass[i % |pass|]
  {
    RepeatedCount(pass, times - 1);
    var before := (times - 1) * |pass|;
    if i < before {
      RepeatedAt(pass, times - 1, i);
    } else {
      QuotientIsUnique(i, |pass|, times - 1, i - before);
    }
  }

  /** The number that decides acceptance counts every target of every network, and nothing else. */
  lemma TotalTargetsAreAll(networks: seq<Network>)
    requires forall n <- networks :: Built(n)
    ensures TotalTargets(networks) == TotalProbes(networks, {}) == |PassProbes(networks, {})|
  {
    BuiltAreOrdered(networks);
    PassCount(networks, {});
    AllTargets(networks);
  }

  lemma {:induction false} AllTargets(networks: seq<Network>)
    requires Ordered(networks)
    ensures TotalTargets(networks) == TotalProbes(networks, {})
  {
    if networks == [] {
    } else {
      assert networks[0] in networks;
      TargetCountIsCardinality(networks[0]);
      assert networks[0].Targets() - {} == networks[0].Targets();
      AllTargets(networks[1..]);
    }
  }

  /** A scan of one CIDR is accepted from /20 on, unless it is the /32 of the host itself. */
  lemma OneNetworkAccepted(interfaceIndex: int, address: u32, cidrAddress: u32, prefix: nat)
    requires prefix <= WIDTH
    ensures var total := TotalTargets([ForCidr(interfaceIndex, address, cidrAddress, prefix)]);
            0 < total <= 4096 <==> prefix >= 20 && !(prefix == 32 && address == cidrAddress)
  {
    hide ForCidr, Pow2;
    var n := ForCidr(interfaceIndex, address, cidrAddress, prefix);
    assert [n][1..] == [] && TotalTargets([n]) == n.TargetCount() + TotalTargets([n][1..]);
    CidrTargetCount(interfaceIndex, address, cidrAddress, prefix);
    CidrBlock(interfaceIndex, address, cidrAddress, prefix);
    HostBoundsFit(interfaceIndex, address, cidrAddress, prefix);
    BlockSizes(WIDTH - prefix);
  }

  lemma BlockSizes(k: nat)
    ensures Pow2(0) == 1 && Pow2(1) == 2
    ensures k >= 2 ==> Pow2(k) >= 4
    ensures k <= 12 ==> Pow2(k) <= 4096
    ensures k >= 13 ==> Pow2(k) >= 8192
  {
    assert Pow2(6) == 64 && Pow2(12) == 4096 && Pow2(13) == 8192 by { assert Pow2(9) == 512; }
    if k >= 2 { PowersFromFour(k); }
    if k <= 12 { PowersGrow(k, 12); } else { PowersGrow(13, k); }
  }

  lemma {:induction false} RepeatedCount(pass: seq<int>, times: nat)
    ensures |Repeated(pass, times)| == times * |pass|
  {
    if times == 0 {
    } else {
      RepeatedCount(pass, times - 1);
      OneMore(times - 1, |pass|);
    }
  }

  datatype Refusal = NoTargets | TooManyTargets

  /** The innermost loop of `scan`; `later` is what the rest of the pass will send. */
  method ProbeNetwork(n: Network, excluded: set<u32>, sent: seq<int>, ghost later: seq<int>) returns (r: seq<int>)
    ensures r == sent + NetworkProbes(n, excluded)
    ensures r + later == sent + (NetworkProbes(n, excluded) + later)
  {
    r := sent;
    var (first, last) := n.HostBounds();
    var address := first;
    while address <= last
      invariant r + Probes(address, last, n.address, excluded) == sent + NetworkProbes(n, excluded)
      decreases last + 1 - address
    {
      if address != n.address && address !in excluded {
        r := r + [address];
      }
      address := address + 1;
    }
  }

  /**
   `scan` up to its last pass; the socket is a list of destinations, and neighbor snapshots and
   waiting are not modelled. An accepted scan sends its datagrams pass after pass.
   */
  method Scan(networks: seq<Network>, retries: nat, excluded: set<u32>) returns (r: Result<seq<int>, Refusal>)
    ensures TotalTargets(networks) == 0 ==> r == Err(NoTargets)
    ensures TotalTargets(networks) > 4096 ==> r == Err(TooManyTargets)
    ensures r.Err? ==> TotalTargets(networks) == 0 || TotalTargets(networks) > 4096
    ensures r.Ok? ==> r.value == Repeated(PassProbes(networks, excluded), retries)
  {
    var count := 0;
    for i := 0 to |networks|
      invariant count + TotalTargets(networks[i..]) == TotalTargets(networks)
    {
      assert networks[i..][1..] == networks[i + 1..];
      count := count + networks[i].TargetCount();
    }
    if count == 0 {
      return Err(NoTargets);
    }
    if count > MAX_TARGETS {
      return Err(TooManyTargets);
    }
    var sent: seq<int> := [];
    for pass := 0 to retries
      invariant sent == Repeated(PassProbes(networks, excluded), pass)
    {
      ghost var before := sent;
      for i := 0 to |networks|
        invariant sent + PassProbes(networks[i..], excluded) == before + PassProbes(networks, excluded)
      {
        assert networks[i..][1..] == networks[i + 1..];
        sent := ProbeNetwork(networks[i], excluded, sent, PassProbes(networks[i + 1..], excluded));
      }
      assert networks[|networks|..] == [];
    }
    return Ok(sent);
  }

  /** Both constructors of a network go through `for_cidr`. */
  ghost predicate Built(n: Network) {
    exists interfaceIndex: int, address: u32, cidrAddress: u32, prefix: nat ::
      prefix <= WIDTH && n == ForCidr(interfaceIndex, address, cidrAddress, prefix)
  }

  lemma BuiltAreOrdered(networks: seq<Network>)
    requires forall n <- networks :: Built(n)
    ensures Ordered(networks)
  {
    hide ForCidr;
    forall n | n in networks ensures n.HostBounds().0 <= n.HostBounds().1 {
      var interfaceIndex: int, address: u32, cidrAddress: u32, prefix: nat :|
        prefix <= WIDTH && n == ForCidr(interfaceIndex, address, cidrAddress, prefix);
      HostBoundsFit(interfaceIndex, address, cidrAddress, prefix);
    }
  }

  /** An accepted scan sends `retries` datagrams per target that is not excluded, and never more than 4096 per pass. */
  lemma ScanIsBounded(networks: seq<Network>, retries: nat, excluded: set<u32>)
    requires (forall n <- networks :: Built(n)) && TotalTargets(networks) <= 4096
    ensures |Repeated(PassProbes(networks, excluded), retries)| == retries * TotalProbes(networks, excluded)
    ensures |Repeated(PassProbes(networks, excluded), retries)| <= retries * 4096
  {
    BuiltAreOrdered(networks);
    PassCount(networks, excluded);
    RepeatedCount(PassProbes(networks, excluded), retries);
    Monotone(retries, TotalProbes(networks, excluded), MAX_TARGETS);
  }

  // ---- first_non_local_scan_address ----

  /** The least address between the host bounds that is not local; the u32 candidate never passes the last one. */
  method FirstNonLocalScanAddress(network: u32, broadcast: u32, prefix: nat, local: set<u32>) returns (r: Option<u32>)
    requires prefix <= 30 ==> network + 1 < 0x1_0000_0000 && broadcast >= 1
    ensures var first, last := if prefix <= 30 then network + 1 else network,
                               if prefix <= 30 then broadcast - 1 else broadcast;
            && (r.None? <==> forall a :: first <= a <= last ==> a in local)
            && (r.Some? ==> first <= r.value <= last && r.value !in local
                            && forall a :: first <= a < r.value ==> a in local)
  {
    var candidate: u32 := if prefix <= 30 then network + 1 else network;
    var last: u32 := if prefix <= 30 then broadcast - 1 else broadcast;
    ghost var first := candidate;
    while candidate <= last
      invariant first <= candidate
      invariant forall a :: first <= a < candidate ==> a in local
    {
      if candidate !in local {
        return Some(candidate);
      }
      if candidate == last {
        break;
      }
      candidate := candidate + 1;
    }
    return None;
  }

  /** `scan_cidr` up to its route lookup: mask the address, bound the block, and search it. */
  method ScanProbeAddress(cidrAddress: u32, prefix: nat, local: set<u32>) returns (r: Option<u32>)
    requires prefix <= WIDTH
    ensures var (first, last) := ForCidr(0, 0, cidrAddress, prefix).HostBounds();
            && (r.None? <==> forall a :: first <= a <= last ==> a in local)
            && (r.Some? ==> first <= r.value <= last && r.value !in local
                            && forall a :: first <= a < r.value ==> a in local)
  {
    hide And, Or, Not, Mask;
    BlockValue(cidrAddress, prefix);
    HostBoundsFit(0, 0, cidrAddress, prefix);
    var mask := Mask(prefix);
    var network: u32 := And(WIDTH, cidrAddress, mask);
    var broadcast: u32 := Or(WIDTH, network, Not(WIDTH, mask));
    r := FirstNonLocalScanAddress(network, broadcast, prefix, local);
  }
}
