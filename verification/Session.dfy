/**
 Whole runs of a generic-netlink client. Each request increments the sequence number; datagrams
 of earlier requests may still be queued, for instance after a dump that ended in an error.
 */
module Session {
  import opened Words
  import opened Frames
  import opened Dump
  import opened GenericNetlink
  import opened Client
  import Attributes

  /** The results of a run that starts with `sequence` as the last number used. */
  function Results(family: u16, sequence: u32, queue: seq<Arrival>, calls: seq<Call>)
    : (rs: seq<Result<seq<Message>, Error>>)
    ensures |rs| == |calls|
    decreases calls
  {
    if calls == [] then []
    else
      var current := NextSequence(sequence);
      var (r, rest) := Perform(family, current, queue, calls[0]);
      [r] + Results(family, current, rest, calls[1..])
  }

  /** The sequence number in use after n requests; the n-th call, counted from zero, uses the next one. */
  function SequenceAfter(sequence: u32, n: nat): u32 {
    (sequence + n) % 0x1_0000_0000
  }

  /** How many requests ago, in a run now at `sequence`, a sequence number was in use. */
  function Age(sequence: u32, used: u32): nat {
    if sequence >= used then sequence - used else sequence - used + 0x1_0000_0000
  }

  ghost predicate AllRecords(queue: seq<Arrival>, property: Frame -> bool) {
    forall arrival <- queue, item <- ArrivalItems(arrival) :: item.Record? ==> property(item.message)
  }

  /**
   What arrives during a call answers that call or an earlier one of the run: parts of an abandoned
   dump may arrive late. `age` is how many requests the run has behind it.
   */
  ghost predicate Honest(sequence: u32, age: nat, calls: seq<Call>)
    decreases calls
  {
    calls != [] ==>
      var current := NextSequence(sequence);
      && NoOlderThan(current, age + 1, calls[0].delivered)
      && Honest(current, age + 1, calls[1..])
  }

  /** Every queued record belongs to one of the last `age` requests or to the current one. */
  ghost predicate NoOlderThan(sequence: u32, age: nat, queue: seq<Arrival>) {
    AllRecords(queue, (m: Frame) => Age(sequence, SequenceOf(m)) <= age)
  }

  /** A message that some record of these arrivals carries under this sequence number. */
  ghost predicate CarriedBy(family: u16, sequence: u32, queue: seq<Arrival>, message: Message) {
    exists arrival <- queue, item <- ArrivalItems(arrival) ::
      && item.Record?
      && SequenceOf(item.message) == sequence
      && KindOf(item.message) == family
      && Decode(item.message) == Ok(message)
  }

  lemma {:induction false} ParsedFromItems(family: u16, sequence: u32, items: seq<Item>, message: Message)
    requires ParseAll(family, sequence, items).Ok? && message in ParseAll(family, sequence, items).value
    ensures exists item <- items ::
              item.Record? && SequenceOf(item.message) == sequence && KindOf(item.message) == family
              && Decode(item.message) == Ok(message)
  {
    var verdict := Accept(family, sequence, items[0]);
    if verdict.Yield? && verdict.value == message {
      assert items[0] in items;
    } else {
      ParsedFromItems(family, sequence, items[1..], message);
      assert forall item <- items[1..] :: item in items;
    }
  }

  /** Whatever a conversation returns was read from the queue, under the request's own number. */
  lemma {:induction false} ConverseSource(family: u16, sequence: u32, dump: bool, queue: seq<Arrival>, message: Message)
    requires var r := Converse(family, sequence, dump, queue).0; r.Ok? && message in r.value
    ensures CarriedBy(family, sequence, queue, message)
  {
    assert forall arrival <- queue[1..] :: arrival in queue;
    if queue[0].Signal? {
      ConverseSource(family, sequence, dump, queue[1..], message);
    } else {
      var items := ArrivalItems(queue[0]);
      var parsed := ParseAll(family, sequence, items);
      if message in parsed.value {
        ParsedFromItems(family, sequence, items, message);
        assert queue[0] in queue;
      } else {
        ConverseSource(family, sequence, dump, queue[1..], message);
      }
    }
  }

  /** A conversation leaves a tail of the queue behind. */
  lemma {:induction false} ConverseLeavesTail(family: u16, sequence: u32, dump: bool, queue: seq<Arrival>)
    ensures var rest := Converse(family, sequence, dump, queue).1;
            forall arrival <- rest :: arrival in queue
  {
    if queue == [] {
    } else {
      ConverseLeavesTail(family, sequence, dump, queue[1..]);
      assert forall arrival <- queue[1..] :: arrival in queue;
    }
  }

  lemma AgeGrows(sequence: u32, used: u32, age: nat)
    requires Age(sequence, used) <= age && age + 1 < 0x1_0000_0000
    ensures Age(NextSequence(sequence), used) == Age(sequence, used) + 1
  {}

  lemma StaleIsForeign(sequence: u32, age: nat, queue: seq<Arrival>)
    requires NoOlderThan(sequence, age, queue) && age + 1 < 0x1_0000_0000
    ensures AllRecords(queue, (m: Frame) => SequenceOf(m) != NextSequence(sequence))
    ensures NoOlderThan(NextSequence(sequence), age + 1, queue)
  {
    forall arrival, item | arrival in queue && item in ArrivalItems(arrival) && item.Record?
      ensures SequenceOf(item.message) != NextSequence(sequence)
      ensures Age(NextSequence(sequence), SequenceOf(item.message)) <= age + 1
    {
      assert Age(sequence, SequenceOf(item.message)) <= age;
      AgeGrows(sequence, SequenceOf(item.message), age);
    }
  }

  lemma CarriedByDelivered(family: u16, sequence: u32, stale: seq<Arrival>, delivered: seq<Arrival>, message: Message)
    requires AllRecords(stale, (m: Frame) => SequenceOf(m) != sequence)
    requires CarriedBy(family, sequence, stale + delivered, message)
    ensures CarriedBy(family, sequence, delivered, message)
  {
    var arrival, item :| arrival in stale + delivered && item in ArrivalItems(arrival)
      && item.Record? && SequenceOf(item.message) == sequence
      && KindOf(item.message) == family && Decode(item.message) == Ok(message);
    assert arrival in delivered;
  }

  /** What a run leaves unread. */
  function Backlog(family: u16, sequence: u32, queue: seq<Arrival>, calls: seq<Call>): seq<Arrival>
    decreases calls
  {
    if calls == [] then queue
    else
      var current := NextSequence(sequence);
      Backlog(family, current, Perform(family, current, queue, calls[0]).1, calls[1..])
  }

  lemma OneMoreCall(family: u16, sequence: u32, queue: seq<Arrival>, calls: seq<Call>, i: nat,
                    results: seq<Result<seq<Message>, Error>>)
    requires i < |calls|
    ensures var current := NextSequence(sequence);
            var (r, rest) := Perform(family, current, queue, calls[i]);
            && results + Results(family, sequence, queue, calls[i..])
               == results + [r] + Results(family, current, rest, calls[i + 1..])
            && Backlog(family, sequence, queue, calls[i..]) == Backlog(family, current, rest, calls[i + 1..])
  {
    hide Perform;
    assert calls[i..][1..] == calls[i + 1..];
  }

  lemma NextAfter(sequence: u32, n: nat)
    ensures NextSequence(SequenceAfter(sequence, n)) == SequenceAfter(sequence, n + 1)
    ensures SequenceAfter(NextSequence(sequence), n) == SequenceAfter(sequence, n + 1)
    ensures SequenceAfter(sequence, 0) == sequence && SequenceAfter(sequence, 1) == NextSequence(sequence)
  {}

  /** Calls of `request` one after the other, as the callers of the client make them. */
  method RunCalls(client: GenericClient, calls: seq<Call>) returns (results: seq<Result<seq<Message>, Error>>)
    modifies client, client.socket
    ensures results == Results(client.family, old(client.sequence), old(client.socket.queue), calls)
    ensures client.socket.queue == Backlog(client.family, old(client.sequence), old(client.socket.queue), calls)
    ensures client.sequence == SequenceAfter(old(client.sequence), |calls|)
  {
    hide Results, Backlog, Perform, SequenceAfter, NextSequence;
    ghost var expected := Results(client.family, client.sequence, client.socket.queue, calls);
    ghost var backlog := Backlog(client.family, client.sequence, client.socket.queue, calls);
    results := [];
    NextAfter(client.sequence, 0);
    assert calls[0..] == calls && [] + expected == expected;
    for i := 0 to |calls|
      invariant results + Results(client.family, client.sequence, client.socket.queue, calls[i..]) == expected
      invariant Backlog(client.family, client.sequence, client.socket.queue, calls[i..]) == backlog
      invariant client.sequence == SequenceAfter(old(client.sequence), i)
    {
      OneMoreCall(client.family, client.sequence, client.socket.queue, calls, i, results);
      NextAfter(old(client.sequence), i);
      var _, r := client.Request(calls[i]);
      results := results + [r];
    }
    NoMoreCalls(client.family, client.sequence, client.socket.queue, calls, results);
  }

  lemma NoMoreCalls(family: u16, sequence: u32, queue: seq<Arrival>, calls: seq<Call>,
                    results: seq<Result<seq<Message>, Error>>)
    ensures results + Results(family, sequence, queue, calls[|calls|..]) == results
    ensures Backlog(family, sequence, queue, calls[|calls|..]) == queue
  {}

  /** What one call leaves unread, of its own or late arrivals, belongs to it or to an earlier request. */
  lemma BacklogAges(family: u16, sequence: u32, age: nat, queue: seq<Arrival>, call: Call)
    requires age + 1 < 0x1_0000_0000
    requires NoOlderThan(sequence, age, queue)
    requires NoOlderThan(NextSequence(sequence), age + 1, call.delivered)
    ensures NoOlderThan(NextSequence(sequence), age + 1, Perform(family, NextSequence(sequence), queue, call).1)
  {
    var current := NextSequence(sequence);
    var rest := Perform(family, current, queue, call).1;
    StaleIsForeign(sequence, age, queue);
    ConverseLeavesTail(family, current, call.dump, queue + call.delivered);
    forall arrival, item | arrival in rest && item in ArrivalItems(arrival) && item.Record?
      ensures Age(current, SequenceOf(item.message)) <= age + 1
    {
      assert arrival in queue + call.delivered;
      assert arrival in queue || arrival in call.delivered;
    }
  }

  /**
   Sequence isolation: in a run of fewer than 2^32 requests, with any mix of dumps and single
   replies, failed sends, unread datagrams and late parts of earlier answers, every message the n-th
   request returns comes from a record of its own number that arrived during the n-th request.
   */
  lemma {:induction false} SequenceIsolation(
    family: u16, sequence: u32, age: nat, queue: seq<Arrival>, calls: seq<Call>, n: nat, message: Message)
    requires age + |calls| < 0x1_0000_0000
    requires NoOlderThan(sequence, age, queue) && Honest(sequence, age, calls)
    requires n < |calls|
    requires var r := Results(family, sequence, queue, calls)[n]; r.Ok? && message in r.value
    ensures CarriedBy(family, SequenceAfter(sequence, n + 1), calls[n].delivered, message)
    decreases n
  {
    hide SequenceOf, KindOf, Decode, NoOlderThan, CarriedBy, AllRecords, Converse, SequenceAfter;
    var current, call := NextSequence(sequence), calls[0];
    StaleIsForeign(sequence, age, queue);
    NextAfter(sequence, n);
    if n == 0 {
      ConverseSource(family, current, call.dump, queue + call.delivered, message);
      CarriedByDelivered(family, current, queue, call.delivered, message);
    } else {
      BacklogAges(family, sequence, age, queue, call);
      SequenceIsolation(family, current, age + 1, Perform(family, current, queue, call).1, calls[1..], n - 1, message);
    }
  }

  // ---- What stale datagrams do to later requests ----

  /** A datagram that falls apart into records without an impossible length. */
  predicate Complete(arrival: Arrival) {
    arrival.Datagram? && forall item <- ArrivalItems(arrival) :: item.Record?
  }

  lemma {:induction false} ForeignDatagram(family: u16, sequence: u32, items: seq<Item>)
    requires forall item <- items :: item.Record? && SequenceOf(item.message) != sequence
    ensures ParseAll(family, sequence, items) == Ok([]) && FindDone(sequence, items) == Ok(false)
  {
    if items == [] {
    } else {
      assert items[0] in items;
      ForeignDatagram(family, sequence, items[1..]);
    }
  }

  /** A stale datagram answers a non-dump request with nothing, and a dump reads past it. */
  lemma StaleDatagramIsEmpty(family: u16, sequence: u32, stale: Arrival, rest: seq<Arrival>)
    requires Complete(stale) && AllRecords([stale], (m: Frame) => SequenceOf(m) != sequence)
    ensures Converse(family, sequence, false, [stale] + rest) == (Ok([]), rest)
    ensures Converse(family, sequence, true, [stale] + rest) == Converse(family, sequence, true, rest)
  {
    assert stale in [stale];
    ForeignDatagram(family, sequence, ArrivalItems(stale));
    AfterOkAfterOk([], [], Converse(family, sequence, true, rest).0);
  }

  /** What an undisturbed socket queues: complete datagrams, and signals that interrupt a wait. */
  predicate Orderly(arrival: Arrival) {
    arrival.Signal? || Complete(arrival)
  }

  predicate OnlySignals(queue: seq<Arrival>) {
    forall arrival <- queue :: arrival.Signal?
  }

  lemma {:induction false} SignalsAreSkipped(
    family: u16, sequence: u32, dump: bool, signals: seq<Arrival>, rest: seq<Arrival>)
    requires OnlySignals(signals)
    ensures Converse(family, sequence, dump, signals + rest) == Converse(family, sequence, dump, rest)
  {
    if signals == [] {
      assert signals + rest == rest;
    } else {
      assert signals[0] in signals && (signals + rest)[0].Signal? && (signals + rest)[1..] == signals[1..] + rest;
      SignalsAreSkipped(family, sequence, dump, signals[1..], rest);
    }
  }

  lemma WithoutFirst(stale: seq<Arrival>, property: Frame -> bool)
    requires stale != [] && AllRecords(stale, property)
    ensures AllRecords([stale[0]], property) && AllRecords(stale[1..], property)
  {
    assert forall arrival <- [stale[0]] :: arrival in stale;
    assert forall arrival <- stale[1..] :: arrival in stale;
  }

  /** A dump request gets its own answer from behind any backlog of stale datagrams. */
  lemma {:induction false} DumpReadsPastBacklog(
    family: u16, sequence: u32, stale: seq<Arrival>, delivered: seq<Arrival>)
    requires forall arrival <- stale :: Orderly(arrival)
    requires AllRecords(stale, (m: Frame) => SequenceOf(m) != sequence)
    ensures Converse(family, sequence, true, stale + delivered) == Converse(family, sequence, true, delivered)
  {
    hide AllRecords, Complete, SequenceOf;
    if stale == [] {
      assert stale + delivered == delivered;
    } else {
      assert stale + delivered == [stale[0]] + (stale[1..] + delivered);
      assert Orderly(stale[0]);
      WithoutFirst(stale, (m: Frame) => SequenceOf(m) != sequence);
      if stale[0].Signal? {
        SignalsAreSkipped(family, sequence, true, [stale[0]], stale[1..] + delivered);
      } else {
        StaleDatagramIsEmpty(family, sequence, stale[0], stale[1..] + delivered);
      }
      DumpReadsPastBacklog(family, sequence, stale[1..], delivered);
    }
  }

  /** A request for one reply that finds a stale datagram, behind signals or not, returns nothing. */
  lemma {:induction false} SingleReadsBacklog(
    family: u16, sequence: u32, stale: seq<Arrival>, delivered: seq<Arrival>)
    requires forall arrival <- stale :: Orderly(arrival)
    requires AllRecords(stale, (m: Frame) => SequenceOf(m) != sequence)
    requires !OnlySignals(stale)
    ensures Converse(family, sequence, false, stale + delivered).0 == Ok([])
  {
    hide AllRecords, Complete, SequenceOf;
    assert stale + delivered == [stale[0]] + (stale[1..] + delivered);
    assert Orderly(stale[0]);
    WithoutFirst(stale, (m: Frame) => SequenceOf(m) != sequence);
    if stale[0].Signal? {
      SignalsAreSkipped(family, sequence, false, [stale[0]], stale[1..] + delivered);
      SingleReadsBacklog(family, sequence, stale[1..], delivered);
    } else {
      StaleDatagramIsEmpty(family, sequence, stale[0], stale[1..] + delivered);
    }
  }

  // ---- When a request returns its own reply ----

  /** The result a call would have on a socket with nothing left over. */
  function OwnReply(family: u16, sequence: u32, call: Call): Result<seq<Message>, Error> {
    Perform(family, sequence, [], call).0
  }

  /** What a backlog of stale datagrams does to one call. */
  lemma OneCall(family: u16, sequence: u32, stale: seq<Arrival>, call: Call)
    requires forall arrival <- stale :: Orderly(arrival)
    requires AllRecords(stale, (m: Frame) => SequenceOf(m) != sequence)
    ensures Perform(family, sequence, stale, call).0 == OwnReply(family, sequence, call)
       <==> call.dump || call.sendError.Some? || OnlySignals(stale) || OwnReply(family, sequence, call) == Ok([])
  {
    hide AllRecords, Orderly, SequenceOf, Converse, OnlySignals;
    assert [] + call.delivered == call.delivered;
    if call.sendError.None? {
      if call.dump {
        DumpReadsPastBacklog(family, sequence, stale, call.delivered);
      } else if OnlySignals(stale) {
        SignalsAreSkipped(family, sequence, false, stale, call.delivered);
      } else {
        SingleReadsBacklog(family, sequence, stale, call.delivered);
      }
    }
  }

  lemma {:induction false} ResultAt(family: u16, sequence: u32, queue: seq<Arrival>, calls: seq<Call>, n: nat)
    requires n < |calls|
    ensures Results(family, sequence, queue, calls)[n] ==
            Perform(family, SequenceAfter(sequence, n + 1),
                    Backlog(family, sequence, queue, calls[..n]), calls[n]).0
    decreases n
  {
    hide Perform, SequenceAfter;
    NextAfter(sequence, n);
    if n == 0 {
      assert calls[..0] == [];
    } else {
      var current := NextSequence(sequence);
      assert calls[..n][0] == calls[0] && calls[..n][1..] == calls[1..][..n - 1];
      NextAfter(sequence, n);
      ResultAt(family, current, Perform(family, current, queue, calls[0]).1, calls[1..], n - 1);
      NextAfter(sequence, n - 1 + 1);
    }
  }

  lemma {:induction false} BacklogIsStale(
    family: u16, sequence: u32, age: nat, queue: seq<Arrival>, calls: seq<Call>, n: nat)
    requires age + |calls| < 0x1_0000_0000 && n < |calls|
    requires NoOlderThan(sequence, age, queue) && Honest(sequence, age, calls)
    ensures AllRecords(Backlog(family, sequence, queue, calls[..n]),
                       (m: Frame) => SequenceOf(m) != SequenceAfter(sequence, n + 1))
    decreases n
  {
    hide Perform, SequenceAfter, SequenceOf, AllRecords, NoOlderThan;
    NextAfter(sequence, n);
    if n == 0 {
      assert calls[..0] == [];
      StaleIsForeign(sequence, age, queue);
      Renamed(queue, NextSequence(sequence), SequenceAfter(sequence, 1));
    } else {
      var current := NextSequence(sequence);
      assert calls[..n][0] == calls[0] && calls[..n][1..] == calls[1..][..n - 1];
      BacklogAges(family, sequence, age, queue, calls[0]);
      BacklogIsStale(family, current, age + 1, Perform(family, current, queue, calls[0]).1, calls[1..], n - 1);
      Renamed(Backlog(family, sequence, queue, calls[..n]), SequenceAfter(current, n), SequenceAfter(sequence, n + 1));
    }
  }

  lemma Renamed(queue: seq<Arrival>, sequence: u32, same: u32)
    requires sequence == same && AllRecords(queue, (m: Frame) => SequenceOf(m) != sequence)
    ensures AllRecords(queue, (m: Frame) => SequenceOf(m) != same)
  {
    hide SequenceOf;
  }

  /**
   In a run of any calls, whatever earlier ones left unread, a call returns what it would return on a
   clean socket exactly if it is a dump, could not be sent, finds no datagram left over, or would return
   nothing anyway.
   */
  lemma OwnReplyIff(family: u16, sequence: u32, age: nat, queue: seq<Arrival>, calls: seq<Call>, n: nat)
    requires age + |calls| < 0x1_0000_0000 && n < |calls|
    requires NoOlderThan(sequence, age, queue) && Honest(sequence, age, calls)
    requires forall arrival <- Backlog(family, sequence, queue, calls[..n]) :: Orderly(arrival)
    ensures var own := OwnReply(family, SequenceAfter(sequence, n + 1), calls[n]);
            (Results(family, sequence, queue, calls)[n] == own
             <==> || calls[n].dump || calls[n].sendError.Some?
                  || OnlySignals(Backlog(family, sequence, queue, calls[..n])) || own == Ok([]))
  {
    hide NoOlderThan, Honest, Results, Orderly, OwnReply, Perform, Backlog, AllRecords, SequenceAfter, OnlySignals;
    ResultAt(family, sequence, queue, calls, n);
    BacklogIsStale(family, sequence, age, queue, calls, n);
    OneCall(family, SequenceAfter(sequence, n + 1), Backlog(family, sequence, queue, calls[..n]), calls[n]);
  }

  /** No arrival in a backlog comes from anywhere but the socket and the answers. */
  lemma {:induction false} BacklogComesFrom(
    family: u16, sequence: u32, queue: seq<Arrival>, calls: seq<Call>, arrival: Arrival)
    requires arrival in Backlog(family, sequence, queue, calls)
    ensures arrival in queue || exists call <- calls :: arrival in call.delivered
    decreases calls
  {
    hide Converse;
    if calls == [] {
    } else {
      var current, call := NextSequence(sequence), calls[0];
      var rest := Perform(family, current, queue, call).1;
      ConverseLeavesTail(family, current, call.dump, queue + call.delivered);
      BacklogComesFrom(family, current, rest, calls[1..], arrival);
      if arrival in rest {
        assert arrival in queue + call.delivered;
        assert call in calls;
      } else {
        assert forall later <- calls[1..] :: later in calls;
      }
    }
  }

  // ---- How a leftover arises, and how it goes away ----

  /** The first datagram of the answer ends the call: one reply was asked for, or the dump fails or completes in it. */
  predicate EndsIn(family: u16, sequence: u32, call: Call, first: Arrival) {
    !call.dump
    || ParseAll(family, sequence, ArrivalItems(first)).Err?
    || FindDone(sequence, ArrivalItems(first)) == Ok(true)
  }

  /** Whatever comes after the datagram in which a call ends is left over. */
  lemma RestIsLeft(family: u16, sequence: u32, call: Call, first: Arrival, rest: seq<Arrival>)
    requires call.sendError.None? && call.delivered == [first] + rest && Complete(first)
    requires EndsIn(family, sequence, call, first)
    ensures Perform(family, sequence, [], call) == (ParseAll(family, sequence, ArrivalItems(first)), rest)
  {
    hide ParseAll, FindDone, ArrivalItems;
    assert [] + call.delivered == [first] + rest;
    assert ([first] + rest)[0] == first && ([first] + rest)[1..] == rest;
  }

  /** Then the next request for one reply returns nothing. */
  lemma LagStarts(family: u16, sequence: u32, first: Call, second: Call, a: Arrival, rest: seq<Arrival>)
    requires first.sendError.None? && first.delivered == [a] + rest && Complete(a)
    requires EndsIn(family, NextSequence(sequence), first, a)
    requires !second.dump && second.sendError.None?
    requires NoOlderThan(NextSequence(sequence), 0, rest)
    requires (forall arrival <- rest :: Orderly(arrival)) && !OnlySignals(rest)
    ensures Backlog(family, sequence, [], [first]) == rest
    ensures Results(family, sequence, [], [first, second])[0]
         == ParseAll(family, NextSequence(sequence), ArrivalItems(a))
    ensures Results(family, sequence, [], [first, second])[1] == Ok([])
  {
    hide Orderly, OnlySignals, NoOlderThan, AllRecords, Complete, EndsIn, Converse, ParseAll, ArrivalItems, SequenceOf;
    var current := NextSequence(sequence);
    RestIsLeft(family, current, first, a, rest);
    assert [first][1..] == [] && [first, second][1..] == [second];
    StaleIsForeign(current, 0, rest);
    SingleReadsBacklog(family, NextSequence(current), rest, second.delivered);
  }

  /** A dump drains any backlog: its result and what it leaves are as on a clean socket. */
  lemma DumpDrains(family: u16, sequence: u32, stale: seq<Arrival>, dump: Call)
    requires dump.dump && dump.sendError.None?
    requires forall arrival <- stale :: Orderly(arrival)
    requires AllRecords(stale, (m: Frame) => SequenceOf(m) != sequence)
    ensures Perform(family, sequence, stale, dump) == Perform(family, sequence, [], dump)
  {
    hide Orderly, AllRecords, Converse;
    assert [] + dump.delivered == dump.delivered;
    DumpReadsPastBacklog(family, sequence, stale, dump.delivered);
  }

  /** So after a dump whose own answer is read to the end, the next request returns its own reply again. */
  lemma DumpRealigns(family: u16, sequence: u32, age: nat, queue: seq<Arrival>, dump: Call, second: Call)
    requires age + 2 < 0x1_0000_0000 && NoOlderThan(sequence, age, queue)
    requires forall arrival <- queue :: Orderly(arrival)
    requires dump.dump && dump.sendError.None? && Perform(family, NextSequence(sequence), [], dump).1 == []
    ensures Backlog(family, sequence, queue, [dump]) == []
    ensures Results(family, sequence, queue, [dump, second])
         == [OwnReply(family, SequenceAfter(sequence, 1), dump), OwnReply(family, SequenceAfter(sequence, 2), second)]
  {
    hide Orderly, NoOlderThan, AllRecords, Perform, SequenceAfter, SequenceOf;
    var current := NextSequence(sequence);
    NextAfter(sequence, 1);
    StaleIsForeign(sequence, age, queue);
    DumpDrains(family, current, queue, dump);
    assert [dump][1..] == [] && [dump, second][1..] == [second] && [second][1..] == [];
  }

  // ---- Runs of requests for one reply ----

  /** Calls that ask for one reply and are answered by exactly one complete datagram. */
  predicate SingleReply(call: Call) {
    !call.dump && call.sendError.None? && |call.delivered| == 1 && Complete(call.delivered[0])
  }

  /** The own reply of such a call is what its datagram says, and it leaves nothing. */
  lemma OwnDatagram(family: u16, sequence: u32, call: Call)
    requires SingleReply(call)
    ensures Perform(family, sequence, [], call) == (ParseAll(family, sequence, ArrivalItems(call.delivered[0])), [])
  {
    hide Complete, ParseAll, ArrivalItems;
    assert call.delivered == [call.delivered[0]] + [];
    RestIsLeft(family, sequence, call, call.delivered[0], []);
  }

  /** With nothing left over, every such call returns the messages of its own datagram. */
  lemma {:induction false} InStep(family: u16, sequence: u32, calls: seq<Call>, n: nat)
    requires forall i :: 0 <= i < |calls| ==> SingleReply(calls[i])
    requires n < |calls|
    ensures Results(family, sequence, [], calls)[n] == OwnReply(family, SequenceAfter(sequence, n + 1), calls[n])
    ensures Backlog(family, sequence, [], calls[..n]) == []
    decreases n
  {
    hide SingleReply, Perform, SequenceAfter;
    var current, call := NextSequence(sequence), calls[0];
    NextAfter(sequence, n);
    assert SingleReply(calls[0]);
    OwnDatagram(family, current, call);
    if n == 0 {
      assert calls[..0] == [];
    } else {
      assert calls[..n][0] == calls[0] && calls[..n][1..] == calls[1..][..n - 1];
      InStep(family, current, calls[1..], n - 1);
    }
  }

  /** A call that finds stale datagrams consumes the first of them and leaves its own reply queued. */
  lemma LagStep(family: u16, sequence: u32, queue: seq<Arrival>, call: Call)
    requires queue != [] && Complete(queue[0]) && AllRecords(queue, (m: Frame) => SequenceOf(m) != sequence)
    requires !call.dump && call.sendError.None?
    ensures Perform(family, sequence, queue, call) == (Ok([]), queue[1..] + call.delivered)
  {
    hide SequenceOf, Complete, ArrivalItems;
    assert queue[0] in queue;
    assert queue + call.delivered == [queue[0]] + (queue[1..] + call.delivered);
    StaleDatagramIsEmpty(family, sequence, queue[0], queue[1..] + call.delivered);
  }

  /** With even one datagram left over, every such call returns an empty list, and the backlog never drains. */
  lemma {:induction false} LagPersists(
    family: u16, sequence: u32, age: nat, queue: seq<Arrival>, calls: seq<Call>, n: nat)
    requires age + |calls| < 0x1_0000_0000
    requires NoOlderThan(sequence, age, queue) && Honest(sequence, age, calls)
    requires queue != [] && forall arrival <- queue :: Complete(arrival)
    requires forall i :: 0 <= i < |calls| ==> SingleReply(calls[i])
    requires n < |calls|
    ensures Results(family, sequence, queue, calls)[n] == Ok([])
    ensures |Backlog(family, sequence, queue, calls)| == |queue|
    decreases |calls|
  {
    hide SequenceOf, AllRecords, NoOlderThan, Complete, Perform;
    var current, call := NextSequence(sequence), calls[0];
    assert SingleReply(calls[0]);
    assert queue[0] in queue;
    StaleIsForeign(sequence, age, queue);
    LagStep(family, current, queue, call);
    BacklogAges(family, sequence, age, queue, call);
    var rest := queue[1..] + call.delivered;
    assert forall arrival <- rest :: arrival in queue || arrival == call.delivered[0];
    if |calls| == 1 {
      assert calls[1..] == [];
    } else {
      LagPersists(family, current, age + 1, rest, calls[1..], if n == 0 then 0 else n - 1);
    }
  }

  // ---- Inputs that show it ----

  function Reply(family: u16, sequence: u32): Arrival {
    Datagram(MessageBytes(family, sequence, 1, 1, 0, []))
  }

  lemma ReplyIsComplete(family: u16, sequence: u32)
    requires family != NLMSG_ERROR && family != NLMSG_OVERRUN
    ensures Complete(Reply(family, sequence)) && NoOlderThan(sequence, 0, [Reply(family, sequence)])
    ensures !OnlySignals([Reply(family, sequence)])
    ensures ParseAll(family, sequence, ArrivalItems(Reply(family, sequence))) == Ok([Message(1, [])])
  {
    hide ArrivalItems, ParseAll, MessageBytes, SequenceOf;
    BuiltDatagram(family, sequence, 1, 1, 0, []);
    MessageRoundTrip(family, sequence, 1, 1, 0, []);
    assert Attributes.Masked([]) == [];
    assert Reply(family, sequence) in [Reply(family, sequence)];
  }

  /** Asks for one reply and gets it. */
  function Single(family: u16, sequence: u32): Call {
    Call(1, 1, false, [], None, [Reply(family, sequence)])
  }

  lemma LostReply(family: u16, first: Call, a: Arrival)
    requires family != NLMSG_ERROR && family != NLMSG_OVERRUN
    requires first.sendError.None? && first.delivered == [a, Reply(family, 2)] && Complete(a)
    requires EndsIn(family, 2, first, a)
    ensures var results := Results(family, 1, [], [first, Single(family, 3)]);
            results == [ParseAll(family, 2, ArrivalItems(a)), Ok([])]
    ensures OwnReply(family, 3, Single(family, 3)) == Ok([Message(1, [])])
  {
    hide Reply, Complete, NoOlderThan, ArrivalItems, ParseAll, EndsIn, Results, Perform;
    ReplyIsComplete(family, 2);
    ReplyIsComplete(family, 3);
    assert [a, Reply(family, 2)] == [a] + [Reply(family, 2)];
    LagStarts(family, 1, first, Single(family, 3), a, [Reply(family, 2)]);
    OwnDatagram(family, 3, Single(family, 3));
  }

  /** A request for one reply is answered twice, and the next one returns nothing although its reply holds a message. */
  lemma ReplyIsLost(family: u16)
    requires family != NLMSG_ERROR && family != NLMSG_OVERRUN
    ensures var first := Call(1, 1, false, [], None, [Reply(family, 2), Reply(family, 2)]);
            Results(family, 1, [], [first, Single(family, 3)]) == [Ok([Message(1, [])]), Ok([])]
    ensures OwnReply(family, 3, Single(family, 3)) == Ok([Message(1, [])])
  {
    hide Reply, Complete, ArrivalItems, ParseAll, Results, OwnReply;
    ReplyIsComplete(family, 2);
    LostReply(family, Call(1, 1, false, [], None, [Reply(family, 2), Reply(family, 2)]), Reply(family, 2));
  }

  function OverrunRecord(sequence: u32): Frame {
    HeaderBytes(MESSAGE_HEADER, NLMSG_OVERRUN, 0, sequence)
  }

  lemma OverrunArrival(family: u16, sequence: u32)
    ensures var a := Datagram(Wire([OverrunRecord(sequence)]));
            Complete(a) && ParseAll(family, sequence, ArrivalItems(a)) == Err(Overrun)
  {
    hide LengthOf, KindOf, SequenceOf, FlagsOf, Padded, ArrivalItems;
    var m := OverrunRecord(sequence);
    HeaderFields(MESSAGE_HEADER, NLMSG_OVERRUN, 0, sequence, []);
    assert m + [] == m;
    LoneIsSendable(m);
    GroupItems([m]);
    assert Records([m])[0] == Record(m);
  }

  /** The same after a dump that overran, with one more part of its answer in the socket. */
  lemma AbortedDumpLosesReply(family: u16)
    requires family != NLMSG_ERROR && family != NLMSG_OVERRUN
    ensures var a := Datagram(Wire([OverrunRecord(2)]));
            var dump := Call(1, 1, true, [], None, [a, Reply(family, 2)]);
            Results(family, 1, [], [dump, Single(family, 3)]) == [Err(Overrun), Ok([])]
    ensures OwnReply(family, 3, Single(family, 3)) == Ok([Message(1, [])])
  {
    hide Reply, Complete, ArrivalItems, ParseAll, Results, OwnReply, OverrunRecord, Wire;
    var a := Datagram(Wire([OverrunRecord(2)]));
    OverrunArrival(family, 2);
    LostReply(family, Call(1, 1, true, [], None, [a, Reply(family, 2)]), a);
  }
}
