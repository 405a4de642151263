/** src/main.rs, `parse_probe_ports`: comma-separated ports and ranges, with two early aborts. */
module Ports {
  import opened Words
  import opened Text
  import opened Numbers
  import Pool

  const MAX_PROBE_PORTS: nat := 4096

  /** Every refusal is an `io::ErrorKind::InvalidInput`; the messages are not modelled. */
  datatype Error = InvalidInput

  function ParseProbePort(value: string): (port: Option<u16>)
    ensures port.Some? ==> port.value >= 1
  {
    match ParseUnsigned(value, 10, 0x1_0000)
    case None => None
    case Some(port) => if port == 0 then None else Some(port)
  }

  /** The ports one item of the list stands for, or None if the item is not valid on its own. */
  ghost function ItemPorts(item: string): (ports: Option<set<u16>>)
    ensures ports.Some? ==> forall p <- ports.value :: p >= 1
  {
    var trimmed := Trim(item);
    if trimmed == "" then None
    else match SplitOnce(trimmed, '-')
      case Some(halves) =>
        (match (ParseProbePort(halves.0), ParseProbePort(halves.1))
         case (Some(first), Some(last)) => if first > last then None else Some(Range(first, last))
         case _ => None)
      case None =>
        match ParseProbePort(trimmed)
        case None => None
        case Some(port) => Some({port})
  }

  ghost predicate AllValid(items: seq<string>) {
    forall item <- items :: ItemPorts(item).Some?
  }

  /** The union of all valid items. */
  ghost function Union(items: seq<string>): set<u16> {
    if items == [] then {}
    else Union(items[..|items| - 1]) + match ItemPorts(items[|items| - 1]) case None => {} case Some(ports) => ports
  }

  lemma {:induction false} UnionGrows(items: seq<string>, n: nat)
    requires n <= |items|
    ensures Union(items[..n]) <= Union(items)
  {
    if n < |items| {
      UnionGrows(items[..|items| - 1], n);
      assert items[..|items| - 1][..n] == items[..n];
    } else {
      assert items[..n] == items;
    }
  }

  lemma TooLarge(items: seq<string>, n: nat, ports: set<u16>)
    requires n <= |items| && ports <= Union(items[..n]) && |ports| > MAX_PROBE_PORTS
    ensures |Union(items)| > MAX_PROBE_PORTS
  {
    UnionGrows(items, n);
    var rest := Union(items) - ports;
    assert Union(items) == ports + rest;
  }

  lemma {:induction false} UnionIsPositive(items: seq<string>)
    ensures forall p <- Union(items) :: p >= 1
  {
    if items == [] {
    } else {
      UnionIsPositive(items[..|items| - 1]);
    }
  }

  lemma InvalidItem(items: seq<string>, n: nat)
    requires n < |items| && ItemPorts(items[n]).None?
    ensures !AllValid(items)
  {
    assert items[n] in items;
  }

  lemma NoItems(items: seq<string>)
    ensures Union(items[..0]) == {} && AllValid(items[..0])
  {}

  lemma OneMoreItem(items: seq<string>, n: nat)
    requires n < |items|
    ensures Union(items[..n + 1]) ==
            Union(items[..n]) + match ItemPorts(items[n]) case None => {} case Some(ports) => ports
  {
    assert items[..n + 1][..n] == items[..n];
  }

  /** Iterating over a BTreeSet: its members in ascending order. */
  method InOrder(ports: set<u16>) returns (r: seq<u16>)
    ensures Pool.StrictlyAscending(r)
    ensures forall p :: p in r <==> p in ports
  {
    r := [];
    for p := 0 to 0x1_0000
      invariant Pool.StrictlyAscending(r)
      invariant forall q :: q in r <==> q in ports && q < p
    {
      assert forall i :: 0 <= i < |r| ==> r[i] in r;
      if p in ports {
        r := r + [p];
      }
    }
  }

  /** The range loop of `parse_probe_ports`, which stops as soon as there are too many ports. */
  method InsertRange(ports: set<u16>, first: u16, last: u16) returns (r: set<u16>)
    requires first <= last
    ensures r <= ports + Range(first, last)
    ensures |r| <= MAX_PROBE_PORTS ==> r == ports + Range(first, last)
  {
    hide Range;
    r := ports;
    NoPorts(ports, first);
    for port: int := first to last + 1
      invariant r == ports + Range(first, port - 1)
    {
      OneMorePort(ports, first, port, last);
      r := r + {port};
      if |r| > MAX_PROBE_PORTS {
        return;
      }
    }
  }

  lemma NoPorts(ports: set<u16>, first: u16)
    ensures ports + Range(first, first - 1) == ports
  {}

  lemma OneMorePort(ports: set<u16>, first: u16, port: u16, last: u16)
    requires first <= port <= last
    ensures ports + Range(first, port - 1) + {port} == ports + Range(first, port)
    ensures ports + Range(first, port) <= ports + Range(first, last)
  {}

  /**
   What parsing promises: it succeeds exactly if every item is valid and the union of all ranges has
   at most 4096 ports, and the result is then that union in strictly ascending order.
   */
  ghost predicate IsPortSet(items: seq<string>, r: Result<seq<u16>, Error>) {
    && (r.Ok? <==> AllValid(items) && |Union(items)| <= 4096)
    && (r.Ok? ==>
          && Pool.StrictlyAscending(r.value)
          && (forall p :: p in r.value <==> p in Union(items))
          && (forall p <- r.value :: 1 <= p <= 65535))
  }

  /** The two early aborts never change what parsing promises, whatever they cut short. */
  method ParseProbePorts(value: string) returns (r: Result<seq<u16>, Error>)
    ensures IsPortSet(Split(value, ','), r)
  {
    hide Split, Trim, SplitOnce, ParseProbePort, Range, Union, Pool.StrictlyAscending;
    var items := Split(value, ',');
    var ports: set<u16> := {};
    NoItems(items);
    for i := 0 to |items|
      invariant AllValid(items[..i])
      invariant ports == Union(items[..i]) && |ports| <= MAX_PROBE_PORTS
    {
      OneMoreItem(items, i);
      var item := Trim(items[i]);
      if ItemPorts(items[i]).None? {
        InvalidItem(items, i);
      }
      if item == "" {
        return Err(InvalidInput);
      }
      var halves := SplitOnce(item, '-');
      if halves.Some? {
        var first := ParseProbePort(halves.value.0);
        if first.None? {
          return Err(InvalidInput);
        }
        var last := ParseProbePort(halves.value.1);
        if last.None? || first.value > last.value {
          return Err(InvalidInput);
        }
        ports := InsertRange(ports, first.value, last.value);
        if |ports| > MAX_PROBE_PORTS {
          TooLarge(items, i + 1, ports);
          return Err(InvalidInput);
        }
      } else {
        var port := ParseProbePort(item);
        if port.None? {
          return Err(InvalidInput);
        }
        ports := ports + {port.value};
      }
      if |ports| > MAX_PROBE_PORTS {
        TooLarge(items, i + 1, ports);
        return Err(InvalidInput);
      }
      assert items[..i + 1] == items[..i] + [items[i]];
    }
    assert items[..|items|] == items;
    UnionIsPositive(items);
    var sorted := InOrder(ports);
    return Ok(sorted);
  }

  // ---- Order, overlap and repetition ----

  ghost predicate Covers(item: string, p: u16) {
    ItemPorts(item).Some? && p in ItemPorts(item).value
  }

  ghost predicate Covered(items: seq<string>, p: u16) {
    exists item <- items :: Covers(item, p)
  }

  /** A port is in the union exactly if some item covers it. */
  lemma {:induction false} UnionMembers(items: seq<string>, p: u16)
    ensures p in Union(items) <==> Covered(items, p)
  {
    hide ItemPorts;
    if items == [] {
    } else {
      var front, last := items[..|items| - 1], items[|items| - 1];
      UnionMembers(front, p);
      assert items == front + [last];
      assert Covered(items, p) <==> Covered(front, p) || Covers(last, p) by {
        if Covers(last, p) { assert last in items; }
      }
    }
  }

  /** Reordering and repeating items changes neither the union nor whether all are valid. */
  lemma OrderDoesNotMatter(a: seq<string>, b: seq<string>)
    requires forall item :: item in a <==> item in b
    ensures Union(a) == Union(b) && (AllValid(a) <==> AllValid(b))
  {
    hide Covers;
    forall p: u16 ensures p in Union(a) <==> p in Union(b) {
      UnionMembers(a, p);
      UnionMembers(b, p);
    }
  }

  /** Lists of valid items that cover the same ports, overlapping in whatever way, have the same union. */
  lemma OverlapDoesNotMatter(a: seq<string>, b: seq<string>)
    requires forall p: u16 :: Covered(a, p) <==> Covered(b, p)
    ensures Union(a) == Union(b)
  {
    hide Covered;
    forall p: u16 ensures p in Union(a) <==> p in Union(b) {
      UnionMembers(a, p);
      UnionMembers(b, p);
    }
  }

  /** An ascending list is determined by its members. */
  lemma {:induction false} AscendingIsUnique(a: seq<u16>, b: seq<u16>)
    requires Pool.StrictlyAscending(a) && Pool.StrictlyAscending(b)
    requires forall p :: p in a <==> p in b
    ensures a == b
    decreases a
  {
    if b != [] {
      assert b[0] in b;
      assert b[0] in a;
    }
    if a == [] {
    } else {
      assert a[0] in a && a[0] in b;
      assert b[0] in b && b[0] in a;
      assert a[0] == b[0];
      assert a == [a[0]] + a[1..] && b == [b[0]] + b[1..];
      forall p ensures p in a[1..] <==> p in b[1..] {
        assert p in a[1..] ==> p in a && p != a[0];
        assert p in b[1..] ==> p in b && p != b[0];
      }
      AscendingIsUnique(a[1..], b[1..]);
    }
  }

  /** Results for lists of the same validity and union are equal, errors included. */
  lemma UnionDecides(a: seq<string>, b: seq<string>, r: Result<seq<u16>, Error>, r': Result<seq<u16>, Error>)
    requires IsPortSet(a, r) && IsPortSet(b, r')
    requires (AllValid(a) <==> AllValid(b)) && Union(a) == Union(b)
    ensures r == r'
  {
    hide AllValid, Union, Pool.StrictlyAscending;
    if r.Ok? {
      AscendingIsUnique(r.value, r'.value);
    } else {
      assert r.error == r'.error == InvalidInput;
    }
  }

  /** However items are ordered and repeated, parsing returns the same, a list or an error. */
  lemma ItemsAreASet(a: seq<string>, b: seq<string>, r: Result<seq<u16>, Error>, r': Result<seq<u16>, Error>)
    requires IsPortSet(a, r) && IsPortSet(b, r')
    requires forall item :: item in a <==> item in b
    ensures r == r'
  {
    hide IsPortSet;
    OrderDoesNotMatter(a, b);
    UnionDecides(a, b, r, r');
  }

  /** However valid items overlap, parsing returns the same for the same covered ports. */
  lemma CoveredPortsDecide(a: seq<string>, b: seq<string>, r: Result<seq<u16>, Error>, r': Result<seq<u16>, Error>)
    requires IsPortSet(a, r) && IsPortSet(b, r') && AllValid(a) && AllValid(b)
    requires forall p: u16 :: Covered(a, p) <==> Covered(b, p)
    ensures r == r'
  {
    hide IsPortSet, AllValid, Covered;
    OverlapDoesNotMatter(a, b);
    UnionDecides(a, b, r, r');
  }

  // ---- What items mean ----

  lemma PortReads(port: u16)
    requires port >= 1
    ensures ParseProbePort(Numeral(port, 10)) == Some(port)
    ensures IsTrimmed(Numeral(port, 10)) && '-' !in Numeral(port, 10)
  {
    NumeralRoundTrip(port, 10, 0x1_0000);
    var s := Numeral(port, 10);
    assert s[0] in s && s[|s| - 1] in s;
  }

  /** A text is a port exactly if it is a decimal number from 1 to 65535, with a plus sign or without. */
  lemma PortIff(s: string, n: nat)
    ensures var digits := if |s| > 1 && s[0] == '+' then s[1..] else s;
            (ParseProbePort(s) == Some(n)
             <==> digits != "" && AllDigits(digits, 10) && n == Value(digits, 10) && 1 <= n <= 65535)
  {
    hide ParseUnsigned, AllDigits, Value;
    ParsesIff(s, 10, 0x1_0000, n);
  }

  /** An item of whitespace alone is refused, and so are port 0 and what is no number. */
  lemma RefusedItems(left: string, s: string, right: string)
    requires AllWhitespace(left) && AllWhitespace(right) && IsTrimmed(s)
    ensures ItemPorts(left) == None
    ensures '-' !in s && ParseProbePort(s) == None ==> ItemPorts(left + s + right) == None
    ensures ParseProbePort("0") == None && ParseProbePort("") == None
  {
    hide Trim, AllWhitespace, IsTrimmed, ParseUnsigned;
    TrimsToNothing(left);
    TrimRemovesPadding(left, s, right);
    if '-' !in s {
      NoSeparator(s, '-');
    }
    ZeroIsNoPort();
  }

  lemma ZeroIsNoPort()
    ensures ParseProbePort("0") == None && ParseProbePort("") == None
  {
    NumeralRoundTrip(0, 10, 0x1_0000);
    assert Numeral(0, 10) == "0";
  }

  /** A port in decimal, with whitespace around it, stands for itself. */
  lemma SinglePort(left: string, port: u16, right: string)
    requires port >= 1 && AllWhitespace(left) && AllWhitespace(right)
    ensures ItemPorts(left + Numeral(port, 10) + right) == Some({port})
  {
    hide Trim, AllWhitespace, IsTrimmed, ParseProbePort, Numeral;
    PortReads(port);
    TrimRemovesPadding(left, Numeral(port, 10), right);
    NoSeparator(Numeral(port, 10), '-');
  }

  /** Two ports joined by a hyphen stand for all ports between them, and for an error in descending order. */
  lemma PortRange(left: string, first: u16, last: u16, right: string)
    requires first >= 1 && last >= 1 && AllWhitespace(left) && AllWhitespace(right)
    ensures ItemPorts(left + (Numeral(first, 10) + (['-'] + Numeral(last, 10))) + right)
         == if first <= last then Some(Range(first, last)) else None
  {
    hide Trim, AllWhitespace, ParseProbePort, Numeral, Range;
    PortReads(first);
    PortReads(last);
    var a, b := Numeral(first, 10), Numeral(last, 10);
    var s := a + (['-'] + b);
    assert s[0] == a[0] && s[|s| - 1] == b[|b| - 1];
    TrimRemovesPadding(left, s, right);
    SplitOnceAt(a, '-', b);
  }

  /** Parsing followed by probing: one result per port of the union, in ascending order, whatever the interleaving. */
  method Probe(value: string, outcome: nat -> Pool.Status) returns (r: Result<seq<Pool.ProbeResult>, Error>)
    ensures var items := Split(value, ',');
            && (r.Ok? <==> AllValid(items) && |Union(items)| <= 4096)
            && (r.Ok? ==>
                  && (forall i, j :: 0 <= i < j < |r.value| ==> r.value[i].port < r.value[j].port)
                  && (forall p :: p in Union(items) <==> exists i :: 0 <= i < |r.value| && r.value[i].port == p)
                  && (forall i :: 0 <= i < |r.value| ==> r.value[i].status == outcome(i)))
  {
    hide AllValid, Union, Split, ParseProbePort;
    var ports := ParseProbePorts(value);
    if ports.Err? {
      return Err(InvalidInput);
    }
    var task := Pool.Task(ports.value, outcome);
    var results := Pool.TcpProbePorts(task);
    forall p ensures p in ports.value <==> exists i :: 0 <= i < |results| && results[i].port == p {
      if p in ports.value {
        var i :| 0 <= i < |ports.value| && ports.value[i] == p;
        assert results[i].port == p;
      }
    }
    return Ok(results);
  }
}
