/**
 The datagram-at-a-time loops that src/netlink.rs uses for neighbors and addresses.
 They differ from `receive_dump` in one respect: an acknowledgement ends the datagram.
 */
module DatagramDump {
  import opened Words
  import opened Frames
  import opened Dump
  import opened Lists

  /** An NLMSG_ERROR of the expected sequence with code zero. */
  predicate IsAck<T>(p: Protocol<T>, item: Item) {
    && item.Record?
    && SequenceOf(item.message) == p.sequence
    && KindOf(item.message) == NLMSG_ERROR
    && ReportedError(item.message).None?
  }

  /** The part of a datagram these loops look at: up to the first acknowledgement. */
  function Clipped<T>(p: Protocol<T>, items: seq<Item>): seq<Item> {
    if items == [] || IsAck(p, items[0]) then items[..if items == [] then 0 else 1]
    else [items[0]] + Clipped(p, items[1..])
  }

  function ClippedStream<T>(p: Protocol<T>, queue: seq<Arrival>): seq<Item> {
    if queue == [] then [] else Clipped(p, ArrivalItems(queue[0])) + ClippedStream(p, queue[1..])
  }

  /** The values a datagram contributes before anything stops. */
  function Before<T>(p: Protocol<T>, items: seq<Item>): seq<T> {
    if items == [] || Judge(p, items[0]).Stops() then []
    else (if Judge(p, items[0]).Yield? then [Judge(p, items[0]).value] else []) + Before(p, items[1..])
  }

  /** Whether a datagram completes the dump, fails it, or leaves it open. */
  function Ending<T>(p: Protocol<T>, items: seq<Item>): Result<bool, Error> {
    if items == [] then Ok(false)
    else match Judge(p, items[0])
      case Finish => Ok(true)
      case Abort(error) => Err(error)
      case _ => Ending(p, items[1..])
  }

  function Resumed<T>(values: seq<T>, ending: Result<bool, Error>, rest: Result<seq<T>, Error>): Result<seq<T>, Error> {
    match ending
    case Err(error) => Err(error)
    case Ok(done) => if done then Ok(values) else AfterOk(values, rest)
  }

  /** Running over a datagram is what its values and its ending say, then the rest of the stream. */
  lemma {:induction false} RunDatagram<T>(p: Protocol<T>, values: seq<T>, items: seq<Item>, rest: seq<Item>)
    ensures AfterOk(values, Run(p, items + rest)) == Resumed(values + Before(p, items), Ending(p, items), Run(p, rest))
    decreases items
  {
    if items == [] {
      assert [] + rest == rest && values + Before(p, []) == values;
    } else {
      var item, later := items[0], items[1..];
      assert items + rest == [item] + (later + rest);
      RunStep(p, values, item, later + rest);
      var front := if Judge(p, item).Yield? then [Judge(p, item).value] else [];
      if !Judge(p, item).Stops() {
        assert values + front + Before(p, later) == values + Before(p, items);
        assert values + front == if Judge(p, item).Yield? then values + [Judge(p, item).value] else values;
        RunDatagram(p, values + front, later, rest);
      } else {
        assert values + [] == values;
      }
    }
  }

  lemma ClippedStep<T>(p: Protocol<T>, buffer: seq<byte>, offset: nat)
    requires |buffer| >= offset + MESSAGE_HEADER
    ensures var item, later := ItemAt(buffer, offset), LaterItems(buffer, offset);
            Clipped(p, ItemsAt(buffer, offset)) == [item] + if IsAck(p, item) then [] else Clipped(p, later)
  {
    hide AlignTo4, LengthOf, IsAck;
    var item, later := ItemAt(buffer, offset), LaterItems(buffer, offset);
    assert ItemsAt(buffer, offset) == [item] + later;
  }

  lemma EndingStep<T>(p: Protocol<T>, values: seq<T>, item: Item, later: seq<Item>)
    ensures values + Before(p, [item] + later) ==
            if Judge(p, item).Stops() then values
            else if Judge(p, item).Yield? then values + [Judge(p, item).value] + Before(p, later)
            else values + Before(p, later)
    ensures Ending(p, [item] + later) ==
            match Judge(p, item)
            case Finish => Ok(true)
            case Abort(error) => Err(error)
            case _ => Ending(p, later)
  {
    assert ([item] + later)[1..] == later;
  }

  /** `parse_response` and `parse_address_response`: one datagram, appending to the caller's list. */
  method ParseResponse<T>(response: seq<byte>, expectedSequence: u32, expectedType: u16,
                          parse: Frame -> Option<T>, values: seq<T>)
    returns (done: Result<bool, Error>, extended: seq<T>)
    ensures var p, items := Listing(expectedSequence, expectedType, parse, true), ItemsAt(response, 0);
            && done == Ending(p, Clipped(p, items))
            && extended == values + Before(p, Clipped(p, items))
  {
    hide AlignTo4, LengthOf, KindOf, SequenceOf, ErrorCode, DumpInterrupted;
    hide ItemsAt, Clipped, Before, Ending;
    ghost var p := Listing(expectedSequence, expectedType, parse, true);
    ghost var all := Clipped(p, ItemsAt(response, 0));
    var offset := 0;
    extended := values;
    while SaturatingSub(|response|, offset) >= MESSAGE_HEADER
      invariant Ending(p, all) == Ending(p, Clipped(p, ItemsAt(response, offset)))
      invariant values + Before(p, all) == extended + Before(p, Clipped(p, ItemsAt(response, offset)))
      decreases |response| - offset
    {
      var length := LengthOf(response[offset..]);
      ghost var item, later := ItemAt(response, offset), LaterItems(response, offset);
      ClippedStep(p, response, offset);
      EndingStep(p, extended, item, if IsAck(p, item) then [] else Clipped(p, later));
      NothingLeft(p, extended);
      if length < MESSAGE_HEADER || length > |response| - offset {
        return Err(InvalidData), extended;
      }
      var message: Frame := response[offset..offset + length];
      if SequenceOf(message) == expectedSequence {
        var kind := KindOf(message);
        if kind == NLMSG_DONE {
          if DumpInterrupted(message) {
            return Err(Interrupted), extended;
          }
          var error := ErrorCode(message);
          if error.Some? && error.value != 0 {
            return Err(Os(Negated(error.value))), extended;
          }
          return Ok(true), extended;
        } else if kind == NLMSG_ERROR {
          var error := ReportedError(message);
          return if error.Some? then Err(error.value) else Ok(false), extended;
        } else if kind == NLMSG_OVERRUN {
          return Err(Overrun), extended;
        } else if kind == expectedType {
          var value := parse(message);
          if value.Some? {
            extended := extended + [value.value];
          }
        }
      }
      offset := offset + AlignTo4(length);
    }
    NoItems(response, offset);
    NothingLeft(p, extended);
    return Ok(false), extended;
  }

  lemma NoItems(response: seq<byte>, offset: nat)
    requires |response| < offset + MESSAGE_HEADER
    ensures ItemsAt(response, offset) == []
  {}

  lemma NothingLeft<T>(p: Protocol<T>, values: seq<T>)
    ensures Clipped(p, []) == [] && Ending(p, []) == Ok(false) && values + Before(p, []) == values
  {}

  function UnreadClipped<T>(p: Protocol<T>, queue: seq<Arrival>): seq<Arrival> {
    if queue == [] then []
    else if Ending(p, Clipped(p, ArrivalItems(queue[0]))) == Ok(false) then UnreadClipped(p, queue[1..])
    else queue[1..]
  }

  lemma {:induction false} ReceivedClipped<T>(p: Protocol<T>, values: seq<T>, queue: seq<Arrival>)
    ensures var r, rest := Received(queue).0, Received(queue).1;
            && AfterOk(values, Run(p, ClippedStream(p, queue))) ==
               (if r.Err? then Err(r.error)
                else Resumed(values + Before(p, Clipped(p, ItemsAt(r.value, 0))),
                             Ending(p, Clipped(p, ItemsAt(r.value, 0))),
                             Run(p, ClippedStream(p, rest))))
            && UnreadClipped(p, queue) ==
               (if r.Ok? && Ending(p, Clipped(p, ItemsAt(r.value, 0))) == Ok(false) then UnreadClipped(p, rest)
                else rest)
            && (r.Ok? ==> |rest| < |queue|)
  {
    if queue == [] {
    } else {
      var items := ArrivalItems(queue[0]);
      RunDatagram(p, values, Clipped(p, items), ClippedStream(p, queue[1..]));
      if queue[0].Signal? {
        ReceivedClipped(p, values, queue[1..]);
        assert values + Before(p, Clipped(p, items)) == values;
      } else if queue[0].Failure? {
        BrokenArrival(p, Os(queue[0].code));
      } else {
        BrokenArrival(p, UnexpectedEof);
      }
    }
  }

  lemma BrokenArrival<T>(p: Protocol<T>, error: Error)
    ensures Clipped(p, [Broken(error)]) == [Broken(error)]
    ensures Ending(p, [Broken(error)]) == Err(error)
  {}

  /** The receive loop shared by the neighbor and address dumps, up to the filtering and sorting that follow it. */
  method ReceiveByDatagram<T>(socket: Socket, expectedSequence: u32, expectedType: u16, parse: Frame -> Option<T>)
    returns (r: Result<seq<T>, Error>)
    modifies socket
    ensures var p := Listing(expectedSequence, expectedType, parse, true);
            r == Run(p, ClippedStream(p, old(socket.queue))) && socket.queue == UnreadClipped(p, old(socket.queue))
  {
    hide ItemsAt, Clipped, Before, Ending, Received, ClippedStream, UnreadClipped, Run;
    ghost var p := Listing(expectedSequence, expectedType, parse, true);
    ghost var goal, leftover := Run(p, ClippedStream(p, socket.queue)), UnreadClipped(p, socket.queue);
    var values: seq<T> := [];
    AfterOkAfterOk([], [], goal);
    while true
      invariant goal == AfterOk(values, Run(p, ClippedStream(p, socket.queue)))
      invariant leftover == UnreadClipped(p, socket.queue)
      decreases |socket.queue|
    {
      ReceivedClipped(p, values, socket.queue);
      var received := socket.Receive();
      if received.Err? {
        return Err(received.error);
      }
      var done;
      done, values := ParseResponse(received.value, expectedSequence, expectedType, parse, values);
      if done.Err? {
        return Err(done.error);
      }
      if done.value {
        return Ok(values);
      }
    }
  }

  // ---- When the two kinds of loop agree ----

  predicate Inert<T>(p: Protocol<T>, items: seq<Item>) {
    forall i :: 0 <= i < |items| ==> Judge(p, items[i]).Skip?
  }

  /** Nothing that matters comes after an acknowledgement in its datagram. */
  predicate AckIsHarmless<T>(p: Protocol<T>, items: seq<Item>) {
    || items == []
    || Judge(p, items[0]).Stops()
    || if IsAck(p, items[0]) then Inert(p, items[1..]) else AckIsHarmless(p, items[1..])
  }

  lemma {:induction false} SomethingYielded<T>(p: Protocol<T>, items: seq<Item>, i: nat)
    requires i < |items| && Judge(p, items[i]).Yield?
    ensures Yields(p, items) != []
  {
    if i == 0 {
    } else {
      SomethingYielded(p, items[1..], i - 1);
    }
  }

  /** Anything but skipped records shows, before a completion record or before silence. */
  lemma Visible<T>(p: Protocol<T>, items: seq<Item>, done: seq<Item>)
    requires !Inert(p, items) && Run(p, done) == Ok([])
    ensures Run(p, items + done) != Run(p, done) || Run(p, items + []) != Run(p, [])
  {
    hide Judge;
    var n := FirstStop(p, items);
    if n == |items| {
      assert items[..n] == items;
      RunPast(p, items, done);
      var i :| 0 <= i < |items| && !Judge(p, items[i]).Skip?;
      SomethingYielded(p, items, i);
    } else {
      assert items + done == items[..n] + [items[n]] + (items[n + 1..] + done);
      RunStops(p, items[..n], items[n], items[n + 1..] + done);
      assert items + [] == items[..n] + [items[n]] + items[n + 1..];
      RunStops(p, items[..n], items[n], items[n + 1..]);
    }
  }

  /** Records are invisible in every continuation exactly when each of them is skipped. */
  lemma InertIffInvisible<T>(p: Protocol<T>, items: seq<Item>)
    ensures Inert(p, items) <==> forall after: seq<Item> :: Run(p, items + after) == Run(p, after)
  {
    if Inert(p, items) {
      forall after: seq<Item> ensures Run(p, items + after) == Run(p, after) {
        RunPast(p, items, after);
        NothingYielded(p, items);
        AfterOkAfterOk([], [], Run(p, after));
      }
    } else {
      DoneRecordFinishes(p);
      Visible(p, items, [Record(DoneRecord(p.sequence))]);
    }
  }

  /** The completion record, alone. */
  function Completion<T>(p: Protocol<T>): seq<Item> {
    [Record(DoneRecord(p.sequence))]
  }

  /** Clipping is harmless if it cannot be seen before silence and before a completion record. */
  lemma {:induction false} TwoContinuationsDecide<T>(p: Protocol<T>, items: seq<Item>)
    requires Run(p, Clipped(p, items) + []) == Run(p, items + [])
    requires Run(p, Clipped(p, items) + Completion(p)) == Run(p, items + Completion(p))
    ensures AckIsHarmless(p, items)
  {
    hide IsAck, Completion;
    if items == [] {
    } else {
      var item, later := items[0], items[1..];
      var kept := Clipped(p, items)[1..];
      assert Clipped(p, items) == [item] + kept && items == [item] + later;
      if !Judge(p, item).Stops() {
        SameAfterFirst(p, item, kept, later, []);
        SameAfterFirst(p, item, kept, later, Completion(p));
        if IsAck(p, item) {
          AckDecides(p, later);
        } else {
          assert kept == Clipped(p, later);
          TwoContinuationsDecide(p, later);
        }
      }
    }
  }

  lemma SameAfterFirst<T>(p: Protocol<T>, item: Item, a: seq<Item>, b: seq<Item>, after: seq<Item>)
    requires !Judge(p, item).Stops() && Run(p, [item] + a + after) == Run(p, [item] + b + after)
    ensures Run(p, a + after) == Run(p, b + after)
  {
    FirstOf(p, item, a, after);
    FirstOf(p, item, b, after);
    ContinuedIsInjective(Judge(p, item), Run(p, a + after), Run(p, b + after));
  }

  lemma AckDecides<T>(p: Protocol<T>, later: seq<Item>)
    requires Run(p, [] + []) == Run(p, later + [])
    requires Run(p, [] + Completion(p)) == Run(p, later + Completion(p))
    ensures Inert(p, later)
  {
    hide Inert;
    DoneRecordFinishes(p);
    var done: seq<Item> := [];
    assert done + [] == [] && [] + Completion(p) == Completion(p);
    if !Inert(p, later) {
      Visible(p, later, Completion(p));
    }
  }

  /** Before harmless acknowledgements are cut off and after, a datagram has the same effect. */
  lemma {:induction false} HarmlessIsInvisible<T>(p: Protocol<T>, items: seq<Item>, after: seq<Item>)
    requires AckIsHarmless(p, items)
    ensures Run(p, Clipped(p, items) + after) == Run(p, items + after)
  {
    hide IsAck;
    if items == [] {
    } else {
      var item, later := items[0], items[1..];
      var kept := Clipped(p, items)[1..];
      assert Clipped(p, items) == [item] + kept && items == [item] + later;
      FirstOf(p, item, kept, after);
      FirstOf(p, item, later, after);
      if !Judge(p, item).Stops() {
        if IsAck(p, item) {
          assert kept + after == after;
          InertIffInvisible(p, later);
        } else {
          HarmlessIsInvisible(p, later, after);
        }
      }
    }
  }

  /**
   Ending a datagram at its first acknowledgement is unobservable, whatever follows the datagram,
   exactly when the acknowledgement is not reached or only inert records come after it.
   */
  lemma ClippingIsInvisibleIffHarmless<T>(p: Protocol<T>, items: seq<Item>)
    ensures AckIsHarmless(p, items)
       <==> forall after: seq<Item> :: Run(p, Clipped(p, items) + after) == Run(p, items + after)
  {
    if AckIsHarmless(p, items) {
      forall after: seq<Item> ensures Run(p, Clipped(p, items) + after) == Run(p, items + after) {
        HarmlessIsInvisible(p, items, after);
      }
    } else if forall after: seq<Item> :: Run(p, Clipped(p, items) + after) == Run(p, items + after) {
      TwoContinuationsDecide(p, items);
    }
  }

  lemma FirstOf<T>(p: Protocol<T>, item: Item, later: seq<Item>, after: seq<Item>)
    ensures Run(p, [item] + later + after) == Continued([], Judge(p, item), Run(p, later + after))
  {
    assert [item] + later + after == [item] + (later + after);
    RunStep(p, [], item, later + after);
    AfterOkAfterOk([], [], Run(p, [item] + (later + after)));
  }

  lemma ContinuedIsInjective<T>(verdict: Verdict<T>, a: Result<seq<T>, Error>, b: Result<seq<T>, Error>)
    requires !verdict.Stops()
    ensures a == b <==> Continued([], verdict, a) == Continued([], verdict, b)
  {
    var front := if verdict.Yield? then [] + [verdict.value] else [];
    assert Continued([], verdict, a) == AfterOk(front, a) && Continued([], verdict, b) == AfterOk(front, b);
    if AfterOk(front, a) == AfterOk(front, b) && a.Ok? {
      assert a.value == (front + a.value)[|front|..];
      assert b.value == (front + b.value)[|front|..];
    }
  }

  /** Every acknowledgement is harmless, as far as the loops read: up to the datagram that ends the dump. */
  predicate HarmlessUntilEnd<T>(p: Protocol<T>, queue: seq<Arrival>) {
    queue != [] ==>
      var items := ArrivalItems(queue[0]);
      && AckIsHarmless(p, items)
      && (NoneStops(p, items) ==> HarmlessUntilEnd(p, queue[1..]))
  }

  lemma {:induction false} OpenIffNoneStops<T>(p: Protocol<T>, items: seq<Item>)
    ensures Ending(p, items) == Ok(false) <==> NoneStops(p, items)
  {
    if items == [] {
    } else {
      OpenIffNoneStops(p, items[1..]);
      NoneStopsStep(p, items[0], items[1..]);
      assert items == [items[0]] + items[1..];
    }
  }

  /** The neighbor and address loops return what `receive_dump` returns if every acknowledgement is harmless. */
  lemma {:induction false} DatagramLoopAgrees<T>(p: Protocol<T>, queue: seq<Arrival>)
    requires HarmlessUntilEnd(p, queue)
    ensures Run(p, ClippedStream(p, queue)) == Run(p, Stream(queue))
  {
    hide AckIsHarmless, Clipped, Ending, Before, NoneStops;
    if queue == [] {
    } else {
      var items, rest := ArrivalItems(queue[0]), queue[1..];
      ClippingIsInvisibleIffHarmless(p, items);
      OpenIffNoneStops(p, items);
      if NoneStops(p, items) {
        DatagramLoopAgrees(p, rest);
      }
      RunDatagram(p, [], items, ClippedStream(p, rest));
      RunDatagram(p, [], items, Stream(rest));
      AfterOkAfterOk([], [], Run(p, items + ClippedStream(p, rest)));
      AfterOkAfterOk([], [], Run(p, items + Stream(rest)));
    }
  }

  /** In particular when acknowledgements come last in their datagrams. */
  lemma {:induction false} LastAckIsHarmless<T>(p: Protocol<T>, items: seq<Item>)
    requires forall i :: 0 <= i < |items| - 1 ==> !IsAck(p, items[i])
    ensures AckIsHarmless(p, items)
  {
    if items != [] && !IsAck(p, items[0]) {
      LastAckIsHarmless(p, items[1..]);
    }
  }

  /** In every datagram, nothing comes after an acknowledgement. */
  predicate AcksLast<T>(p: Protocol<T>, queue: seq<Arrival>) {
    forall arrival <- queue ::
      var items := ArrivalItems(arrival);
      forall i :: 0 <= i < |items| - 1 ==> !IsAck(p, items[i])
  }

  lemma {:induction false} LastAcksAreHarmless<T>(p: Protocol<T>, queue: seq<Arrival>)
    requires AcksLast(p, queue)
    ensures HarmlessUntilEnd(p, queue)
  {
    hide IsAck, AckIsHarmless, NoneStops;
    if queue == [] {
    } else {
      assert queue[0] in queue;
      LastAckIsHarmless(p, ArrivalItems(queue[0]));
      LastAcksAreHarmless(p, queue[1..]);
    }
  }

  // ---- Exactly when the two kinds of loop agree, however a stream goes on ----

  ghost predicate Agree<T>(p: Protocol<T>, queue: seq<Arrival>) {
    Run(p, ClippedStream(p, queue)) == Run(p, Stream(queue))
  }

  /** At every point of the stream, whatever arrives next with its acknowledgements last. */
  ghost predicate AgreeThroughout<T>(p: Protocol<T>, queue: seq<Arrival>) {
    forall k: nat, after: seq<Arrival> :: k <= |queue| && AcksLast(p, after) ==> Agree(p, queue[..k] + after)
  }

  lemma {:induction false} HarmlessPrefix<T>(p: Protocol<T>, queue: seq<Arrival>, k: nat, after: seq<Arrival>)
    requires k <= |queue| && HarmlessUntilEnd(p, queue) && HarmlessUntilEnd(p, after)
    ensures HarmlessUntilEnd(p, queue[..k] + after)
    decreases k
  {
    hide AckIsHarmless, NoneStops;
    var cut := queue[..k] + after;
    if k == 0 {
      assert cut == after;
    } else {
      assert cut[0] == queue[0] && cut[1..] == queue[1..][..k - 1] + after;
      if NoneStops(p, ArrivalItems(queue[0])) {
        HarmlessPrefix(p, queue[1..], k - 1, after);
      }
    }
  }

  lemma FirstArrival<T>(p: Protocol<T>, first: Arrival, queue: seq<Arrival>)
    ensures Stream([first] + queue) == ArrivalItems(first) + Stream(queue)
    ensures ClippedStream(p, [first] + queue) == Clipped(p, ArrivalItems(first)) + ClippedStream(p, queue)
  {
    assert ([first] + queue)[1..] == queue;
  }

  lemma DoneArrival<T>(p: Protocol<T>)
    ensures var done := [Datagram(Wire([DoneRecord(p.sequence)]))];
            && AcksLast(p, done) && AcksLast(p, [])
            && Stream(done) == ClippedStream(p, done) == Completion(p)
  {
    hide IsAck, Padded, AlignTo4;
    var done := Datagram(Wire([DoneRecord(p.sequence)]));
    DoneIsSendable(p.sequence);
    GroupItems([DoneRecord(p.sequence)]);
    assert ArrivalItems(done) == Completion(p);
    assert Completion(p)[1..] == [] && Clipped(p, Completion(p)) == Completion(p);
    FirstArrival(p, done, []);
    assert [done] + [] == [done];
    assert Completion(p) + [] == Completion(p);
  }

  lemma FirstIsHarmless<T>(p: Protocol<T>, queue: seq<Arrival>)
    requires queue != [] && AgreeThroughout(p, queue)
    ensures AckIsHarmless(p, ArrivalItems(queue[0]))
  {
    hide AcksLast, ArrivalItems, Clipped, Completion, Run, Stream, ClippedStream;
    var first, done := queue[0], [Datagram(Wire([DoneRecord(p.sequence)]))];
    DoneArrival(p);
    assert queue[..1] == [first];
    FirstArrival(p, first, []);
    FirstArrival(p, first, done);
    assert Agree(p, queue[..1] + []) && Agree(p, queue[..1] + done);
    NothingStreams(p);
    TwoContinuationsDecide(p, ArrivalItems(first));
  }

  lemma NothingStreams<T>(p: Protocol<T>)
    ensures Stream([]) == [] && ClippedStream(p, []) == []
  {}

  lemma LaterAgree<T>(p: Protocol<T>, queue: seq<Arrival>)
    requires queue != [] && AgreeThroughout(p, queue)
    requires NoneStops(p, ArrivalItems(queue[0]))
    ensures AgreeThroughout(p, queue[1..])
  {
    hide AcksLast, ArrivalItems, Clipped, Run, Stream, ClippedStream, NoneStops, AckIsHarmless;
    var items, rest := ArrivalItems(queue[0]), queue[1..];
    FirstIsHarmless(p, queue);
    forall k: nat, after: seq<Arrival> | k <= |rest| && AcksLast(p, after) ensures Agree(p, rest[..k] + after) {
      var next := rest[..k] + after;
      assert queue[..k + 1] + after == [queue[0]] + next;
      assert Agree(p, queue[..k + 1] + after);
      FirstArrival(p, queue[0], next);
      HarmlessIsInvisible(p, items, ClippedStream(p, next));
      RunPast(p, items, ClippedStream(p, next));
      RunPast(p, items, Stream(next));
      AfterOkCancels(Yields(p, items), Run(p, ClippedStream(p, next)), Run(p, Stream(next)));
    }
  }

  lemma {:induction false} AgreementIsHarmless<T>(p: Protocol<T>, queue: seq<Arrival>)
    requires AgreeThroughout(p, queue)
    ensures HarmlessUntilEnd(p, queue)
    decreases queue
  {
    hide AgreeThroughout, AckIsHarmless, NoneStops;
    if queue == [] {
    } else {
      FirstIsHarmless(p, queue);
      if NoneStops(p, ArrivalItems(queue[0])) {
        LaterAgree(p, queue);
        AgreementIsHarmless(p, queue[1..]);
      }
    }
  }

  /**
   The neighbor and address loops agree with `receive_dump` at every point of a stream, however it goes
   on, exactly if each acknowledgement before the end of the dump is harmless.
   */
  lemma LoopsAgreeIffHarmless<T>(p: Protocol<T>, queue: seq<Arrival>)
    ensures HarmlessUntilEnd(p, queue) <==> AgreeThroughout(p, queue)
  {
    hide HarmlessUntilEnd, AcksLast, Run, Stream, ClippedStream;
    if HarmlessUntilEnd(p, queue) {
      forall k: nat, after: seq<Arrival> | k <= |queue| && AcksLast(p, after)
        ensures Agree(p, queue[..k] + after)
      {
        LastAcksAreHarmless(p, after);
        HarmlessPrefix(p, queue, k, after);
        DatagramLoopAgrees(p, queue[..k] + after);
      }
    }
    if AgreeThroughout(p, queue) {
      AgreementIsHarmless(p, queue);
    }
  }

  // ---- An input on which they differ ----

  function AckRecord(sequence: u32): Frame {
    HeaderBytes(MESSAGE_HEADER + 4, NLMSG_ERROR, 0, sequence) + Zeros(4)
  }

  lemma AckRecordIsAck<T>(p: Protocol<T>)
    ensures WellFormed(AckRecord(p.sequence)) && |AckRecord(p.sequence)| == MESSAGE_HEADER + 4
    ensures IsAck(p, Record(AckRecord(p.sequence)))
    ensures Judge(p, Record(AckRecord(p.sequence))) == Skip
  {
    hide LengthOf, KindOf, SequenceOf, FlagsOf;
    HeaderFields(MESSAGE_HEADER + 4, NLMSG_ERROR, 0, p.sequence, Zeros(4));
    assert AckRecord(p.sequence)[MESSAGE_HEADER..] == Zeros(4);
  }

  /** With an acknowledgement and a completion in one datagram, `receive_dump` ends and the other loops wait forever. */
  lemma AckHidesCompletion<T>(p: Protocol<T>)
    ensures var queue := Cut([[AckRecord(p.sequence), DoneRecord(p.sequence)]]);
            && Run(p, Stream(queue)) == Ok([])
            && Run(p, ClippedStream(p, queue)) == Err(Blocked)
  {
    hide IsAck, Judge, Padded, AlignTo4, LengthOf, DoneRecord, AckRecord, ArrivalItems, Stream, ClippedStream;
    var ack, done := AckRecord(p.sequence), DoneRecord(p.sequence);
    var group := [ack, done];
    var queue := Cut([group]);
    AckRecordIsAck(p);
    DoneIsSendable(p.sequence);
    PairIsSendable(ack, done);
    GroupItems(group);
    assert queue == [Datagram(Wire(group))] + [];
    FirstArrival(p, Datagram(Wire(group)), []);
    NothingStreams(p);
    DoneRecordFinishes(p);
    var items := Records(group);
    assert items[0] == Record(ack) && items[1..] == [Record(done)];
    assert items + [] == items && Clipped(p, items) == [Record(ack)];
    assert [Record(ack)][1..] == [] && [Record(ack)] + [] == [Record(ack)];
  }

  // ---- What the loops return ----

  /** A stream without acknowledgements, closed by a completion record, yields the contributions of its records. */
  lemma CompletedByDatagram<T>(
    sequence: u32, kind: u16, parse: Frame -> Option<T>, groups: seq<seq<Frame>>, messages: seq<Frame>)
    requires kind > 4 && forall m <- messages :: NotControl(sequence, m)
    requires forall group <- groups :: Sendable(group)
    requires Flatten(groups) == messages + [DoneRecord(sequence)]
    ensures Run(Listing(sequence, kind, parse, true), ClippedStream(Listing(sequence, kind, parse, true), Cut(groups)))
         == Ok(FilterMap(Contribution(sequence, kind, parse), messages))
  {
    hide KindOf, SequenceOf, DoneRecord, Sendable, Judge, Run, Stream, ClippedStream, Contribution;
    var p := Listing(sequence, kind, parse, true);
    assert messages + [DoneRecord(sequence)] + [] == messages + [DoneRecord(sequence)];
    CompletedDump(sequence, kind, parse, true, groups, messages, []);
    forall m | m in Flatten(groups) ensures !IsAck(p, Record(m)) {
      DoneIsNoAck(p);
      if m in messages {
        assert NotControl(sequence, m);
      }
    }
    NoAcksAtAll(p, groups);
    LastAcksAreHarmless(p, Cut(groups));
    DatagramLoopAgrees(p, Cut(groups));
  }

  lemma DoneIsNoAck<T>(p: Protocol<T>)
    ensures !IsAck(p, Record(DoneRecord(p.sequence)))
  {
    HeaderFields(MESSAGE_HEADER, NLMSG_DONE, 0, p.sequence, []);
    assert DoneRecord(p.sequence) + [] == DoneRecord(p.sequence);
  }

  lemma {:induction false} NoAcksAtAll<T>(p: Protocol<T>, groups: seq<seq<Frame>>)
    requires forall group <- groups :: Sendable(group)
    requires forall m <- Flatten(groups) :: !IsAck(p, Record(m))
    ensures AcksLast(p, Cut(groups))
  {
    hide IsAck, Sendable, ArrivalItems;
    if groups == [] {
    } else {
      var group, rest := groups[0], groups[1..];
      assert Flatten(groups) == group + Flatten(rest);
      assert Cut(groups) == [Datagram(Wire(group))] + Cut(rest);
      assert Sendable(groups[0]);
      GroupItems(group);
      assert forall i :: 0 <= i < |group| ==> Records(group)[i] == Record(group[i]) && group[i] in group;
      NoAcksAtAll(p, rest);
    }
  }
}
