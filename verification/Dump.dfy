/**
 Multi-datagram dumps. One pass over all records of all datagrams is the reference;
 the loops of src/netlink.rs and src/sock_diag.rs, which work datagram by datagram
 with byte offsets, are proved against it.
 */
module Dump {
  import opened Words
  import opened Frames
  import opened Lists
  import Bits

  const NLM_F_DUMP_INTR: nat := 0x10

  /** What a record parser makes of a record of the expected type. */
  datatype Parsed<+T> = Value(value: T) | Unusable | Rejected(error: Error)

  datatype Protocol<!T> = Protocol(sequence: u32, kind: u16, parse: Frame -> Parsed<T>, checksDone: bool)

  /** A record parser in the style of netlink.rs: what it cannot use is dropped. */
  function Lenient<T>(parse: Frame -> Option<T>): Frame -> Parsed<T> {
    (m: Frame) => Usable(parse(m))
  }

  function Usable<T>(value: Option<T>): Parsed<T> {
    if value.Some? then Value(value.value) else Unusable
  }

  function Listing<T>(sequence: u32, kind: u16, parse: Frame -> Option<T>, checksDone: bool): Protocol<T> {
    Protocol(sequence, kind, Lenient(parse), checksDone)
  }

  // ---- The one-pass reference ----

  datatype Verdict<+T> = Skip | Yield(value: T) | Finish | Abort(error: Error)
  {
    predicate Stops() { Finish? || Abort? }
  }

  /** `header.flags & NLM_F_DUMP_INTR != 0` */
  predicate DumpInterrupted(m: Frame) {
    Bits.And(16, FlagsOf(m), NLM_F_DUMP_INTR) != 0
  }

  function DoneVerdict<T>(checksDone: bool, m: Frame): Verdict<T> {
    if !checksDone then Finish
    else if DumpInterrupted(m) then Abort(Interrupted)
    else match ErrorCode(m)
      case Some(error) => if error != 0 then Abort(Os(Negated(error))) else Finish
      case None => Finish
  }

  function Judge<T>(p: Protocol<T>, item: Item): Verdict<T> {
    match item
    case Broken(error) => Abort(error)
    case Record(m) =>
      if SequenceOf(m) != p.sequence then Skip
      else if KindOf(m) == NLMSG_DONE then DoneVerdict(p.checksDone, m)
      else if KindOf(m) == NLMSG_ERROR then
        match ReportedError(m)
        case None => Skip
        case Some(error) => Abort(error)
      else if KindOf(m) == NLMSG_OVERRUN then Abort(Overrun)
      else if KindOf(m) == p.kind then
        match p.parse(m)
        case Value(v) => Yield(v)
        case Unusable => Skip
        case Rejected(error) => Abort(error)
      else Skip
  }

  function Run<T>(p: Protocol<T>, items: seq<Item>): Result<seq<T>, Error> {
    if items == [] then Err(Blocked)
    else match Judge(p, items[0])
      case Skip => Run(p, items[1..])
      case Yield(v) => AfterOk([v], Run(p, items[1..]))
      case Finish => Ok([])
      case Abort(error) => Err(error)
  }

  predicate NoneStops<T>(p: Protocol<T>, items: seq<Item>) {
    forall i :: 0 <= i < |items| ==> !Judge(p, items[i]).Stops()
  }

  /** The values of a stretch of records, in order. */
  function Yields<T>(p: Protocol<T>, items: seq<Item>): seq<T> {
    if items == [] then []
    else (if Judge(p, items[0]).Yield? then [Judge(p, items[0]).value] else []) + Yields(p, items[1..])
  }

  /** A stretch in which nothing stops contributes its values, whatever follows. */
  lemma {:induction false} RunPast<T>(p: Protocol<T>, a: seq<Item>, b: seq<Item>)
    requires NoneStops(p, a)
    ensures Run(p, a + b) == AfterOk(Yields(p, a), Run(p, b))
  {
    if a == [] {
      assert [] + b == b;
      AfterOkAfterOk([], [], Run(p, b));
    } else {
      assert (a + b)[1..] == a[1..] + b;
      RunPast(p, a[1..], b);
      AfterOkAfterOk(if Judge(p, a[0]).Yield? then [Judge(p, a[0]).value] else [], Yields(p, a[1..]), Run(p, b));
      AfterOkAfterOk([], [], Run(p, a[1..] + b));
    }
  }

  /** After the first record that stops, nothing matters. */
  lemma {:induction false} RunStops<T>(p: Protocol<T>, a: seq<Item>, stop: Item, b: seq<Item>)
    requires NoneStops(p, a) && Judge(p, stop).Stops()
    ensures Run(p, a + [stop] + b) ==
            match Judge(p, stop) case Abort(error) => Err(error) case _ => Ok(Yields(p, a))
  {
    assert a + [stop] + b == a + ([stop] + b);
    RunPast(p, a, [stop] + b);
    assert Yields(p, a) + [] == Yields(p, a);
  }

  /** The position of the first record that stops, or the length of the list. */
  function FirstStop<T>(p: Protocol<T>, items: seq<Item>): (n: nat)
    ensures n <= |items| && NoneStops(p, items[..n])
    ensures n < |items| ==> Judge(p, items[n]).Stops()
  {
    if items == [] || Judge(p, items[0]).Stops() then 0
    else
      var n := 1 + FirstStop(p, items[1..]);
      assert items[..n] == [items[0]] + items[1..][..n - 1];
      n
  }

  /**
   The outcome of a dump in one sentence: the usable records of the expected sequence and type
   before the first record that stops, with that record deciding between success and error.
   */
  lemma RunIsDecidedByFirstStop<T>(p: Protocol<T>, items: seq<Item>)
    ensures var n := FirstStop(p, items);
            Run(p, items) ==
            if n == |items| then Err(Blocked)
            else match Judge(p, items[n])
              case Abort(error) => Err(error)
              case _ => Ok(Yields(p, items[..n]))
  {
    var n := FirstStop(p, items);
    if n == |items| {
      assert items == items[..n] + [];
      RunPast(p, items[..n], []);
    } else {
      assert items == items[..n] + [items[n]] + items[n + 1..];
      RunStops(p, items[..n], items[n], items[n + 1..]);
    }
  }

  function DoneRecord(sequence: u32): Frame {
    HeaderBytes(MESSAGE_HEADER, NLMSG_DONE, 0, sequence)
  }

  lemma DoneRecordFinishes<T>(p: Protocol<T>)
    ensures Judge(p, Record(DoneRecord(p.sequence))) == Finish
    ensures Run(p, [Record(DoneRecord(p.sequence))]) == Ok([])
  {
    HeaderFields(MESSAGE_HEADER, NLMSG_DONE, 0, p.sequence, []);
    Bits.AndOfZero(16, NLM_F_DUMP_INTR);
    assert DoneRecord(p.sequence) + [] == DoneRecord(p.sequence);
  }

  predicate Foreign<T>(p: Protocol<T>, item: Item) {
    item.Record? && SequenceOf(item.message) != p.sequence
  }

  /** Records of other sequences can be inserted anywhere. */
  lemma ForeignRecordsChangeNothing<T>(p: Protocol<T>, a: seq<Item>, foreign: seq<Item>, b: seq<Item>)
    requires forall item <- foreign :: Foreign(p, item)
    ensures Run(p, a + foreign + b) == Run(p, a + b)
  {
    var n := FirstStop(p, a);
    if n < |a| {
      assert a + foreign + b == a[..n] + [a[n]] + (a[n + 1..] + foreign + b);
      assert a + b == a[..n] + [a[n]] + (a[n + 1..] + b);
      RunStops(p, a[..n], a[n], a[n + 1..] + foreign + b);
      RunStops(p, a[..n], a[n], a[n + 1..] + b);
    } else {
      assert a == a[..n] && a + foreign + b == a + (foreign + b);
      assert forall i :: 0 <= i < |foreign| ==> foreign[i] in foreign;
      RunPast(p, a, foreign + b);
      RunPast(p, foreign, b);
      RunPast(p, a, b);
      NothingYielded(p, foreign);
      AfterOkAfterOk([], [], Run(p, b));
    }
  }

  lemma {:induction false} NothingYielded<T>(p: Protocol<T>, items: seq<Item>)
    requires forall i :: 0 <= i < |items| ==> !Judge(p, items[i]).Yield?
    ensures Yields(p, items) == []
  {
    if items == [] {
    } else {
      NothingYielded(p, items[1..]);
    }
  }

  // ---- What a dump returns ----

  /** What each control record does to a dump of its sequence, by its kind and by the word after its header. */
  lemma ControlRecords<T>(p: Protocol<T>, m: Frame, a: byte, b: byte, c: byte, d: byte)
    requires SequenceOf(m) == p.sequence
    requires |m| >= 20 ==> m[16..20] == [a, b, c, d]
    ensures var word: u32 := a + 0x100 * b + 0x1_0000 * c + 0x100_0000 * d;
            var failed := |m| >= 20 && word != 0;
            && (KindOf(m) == 2 ==>
                  Judge(p, Record(m)) == if |m| < 20 then Abort(InvalidData)
                                         else if failed then Abort(Os(CodeOf(word))) else Skip)
            && (KindOf(m) == 3 ==>
                  Judge(p, Record(m)) == if !p.checksDone then Finish
                                         else if FlagsOf(m) / 0x10 % 2 == 1 then Abort(Interrupted)
                                         else if failed then Abort(Os(CodeOf(word))) else Finish)
            && (KindOf(m) == 4 ==> Judge(p, Record(m)) == Abort(Overrun))
  {
    hide KindOf, SequenceOf, FlagsOf, ErrorCode, ReportedError, CodeOf, Negated;
    ErrorsAreReported(m, a, b, c, d);
    InterruptedFlag(m);
  }

  lemma InterruptedFlag(m: Frame)
    ensures DumpInterrupted(m) <==> FlagsOf(m) / 0x10 % 2 == 1
  {
    hide FlagsOf;
    assert Bits.Pow2(4) == 0x10;
    Bits.AndTestsBit(16, FlagsOf(m), 4);
  }

  /** What a record contributes to the list: what its parser makes of it, if it has the right sequence and type. */
  function Contribution<T>(sequence: u32, kind: u16, parse: Frame -> Option<T>): Frame -> Option<T> {
    (m: Frame) => if SequenceOf(m) == sequence && KindOf(m) == kind then parse(m) else None
  }

  predicate NotControl(sequence: u32, m: Frame) {
    SequenceOf(m) == sequence ==> KindOf(m) != 2 && KindOf(m) != 3 && KindOf(m) != 4
  }

  /** A dump collects every parsed record of its sequence and type, in order, and drops the others. */
  lemma {:induction false} RecordsAreCollected<T>(
    sequence: u32, kind: u16, parse: Frame -> Option<T>, checksDone: bool, messages: seq<Frame>, after: seq<Item>)
    requires kind > 4 && forall m <- messages :: NotControl(sequence, m)
    ensures var p := Listing(sequence, kind, parse, checksDone);
            Run(p, Records(messages) + after) ==
            AfterOk(FilterMap(Contribution(sequence, kind, parse), messages), Run(p, after))
    decreases messages
  {
    hide KindOf, SequenceOf;
    var p, f := Listing(sequence, kind, parse, checksDone), Contribution(sequence, kind, parse);
    if messages == [] {
      assert Records(messages) + after == after;
      AfterOkAfterOk([], [], Run(p, after));
    } else {
      var m, rest := messages[0], messages[1..];
      assert NotControl(sequence, m);
      RecordsAreCollected(sequence, kind, parse, checksDone, rest, after);
      assert Records(messages) + after == [Record(m)] + (Records(rest) + after);
      RunStep(p, [], Record(m), Records(rest) + after);
      AfterOkAfterOk([], [], Run(p, Records(messages) + after));
      AfterOkAfterOk(AsList(f(m)), FilterMap(f, rest), Run(p, after));
      ContributionIsJudged(sequence, kind, parse, checksDone, m);
    }
  }

  lemma ContributionIsJudged<T>(sequence: u32, kind: u16, parse: Frame -> Option<T>, checksDone: bool, m: Frame)
    requires kind > 4 && NotControl(sequence, m)
    ensures Judge(Listing(sequence, kind, parse, checksDone), Record(m))
         == match Contribution(sequence, kind, parse)(m) case None => Skip case Some(value) => Yield(value)
  {
    hide KindOf, SequenceOf;
    var p := Listing(sequence, kind, parse, checksDone);
    assert p.parse(m) == Usable(parse(m));
    if SequenceOf(m) == sequence && KindOf(m) == kind {
      assert Contribution(sequence, kind, parse)(m) == parse(m);
    } else {
      assert Contribution(sequence, kind, parse)(m) == None;
    }
  }

  /** A stream closed by a completion record yields exactly the contributions of the records before it. */
  lemma CompletedDump<T>(
    sequence: u32, kind: u16, parse: Frame -> Option<T>, checksDone: bool,
    groups: seq<seq<Frame>>, messages: seq<Frame>, rest: seq<Frame>)
    requires kind > 4 && forall m <- messages :: NotControl(sequence, m)
    requires forall group <- groups :: Sendable(group)
    requires Flatten(groups) == messages + [DoneRecord(sequence)] + rest
    ensures Run(Listing(sequence, kind, parse, checksDone), Stream(Cut(groups)))
         == Ok(FilterMap(Contribution(sequence, kind, parse), messages))
  {
    hide KindOf, SequenceOf, DoneRecord, Sendable, Stream, Cut, Flatten, Judge;
    var p := Listing(sequence, kind, parse, checksDone);
    var done, values := Record(DoneRecord(sequence)), FilterMap(Contribution(sequence, kind, parse), messages);
    CutStream(groups);
    RecordsAreCollected(sequence, kind, parse, checksDone, messages, [done] + Records(rest));
    assert Records(messages + [DoneRecord(sequence)] + rest) == Records(messages) + ([done] + Records(rest));
    DoneRecordFinishes(p);
    assert [done] + Records(rest) == [] + [done] + Records(rest);
    RunStops(p, [], done, Records(rest));
    assert values + [] == values;
  }

  // ---- Cutting a stream into datagrams ----

  /** Each group of records sent as one datagram. */
  function Cut(groups: seq<seq<Frame>>): seq<Arrival> {
    seq(|groups|, i requires 0 <= i < |groups| => Datagram(Wire(groups[i])))
  }

  ghost predicate Sendable(group: seq<Frame>) {
    group != [] && |Wire(group)| <= RECEIVE_BUFFER && forall m <- group :: WellFormed(m)
  }

  lemma GroupItems(group: seq<Frame>)
    requires Sendable(group)
    ensures ArrivalItems(Datagram(Wire(group))) == Records(group)
  {
    hide ItemsAt, WellFormed, Wire;
    assert [] + Wire(group) + [] == Wire(group);
    WireComesApart([], group, []);
    WireIsNotEmpty(group);
  }

  lemma WireIsNotEmpty(group: seq<Frame>)
    requires group != []
    ensures Wire(group) != []
  {
    assert |Padded(group[0])| >= MESSAGE_HEADER;
  }

  lemma LoneIsSendable(m: Frame)
    requires WellFormed(m) && |m| + 3 <= RECEIVE_BUFFER
    ensures Sendable([m])
  {
    hide LengthOf;
    assert [m][1..] == [] && Wire([m]) == Padded(m) + Wire([]);
  }

  lemma DoneIsSendable(sequence: u32)
    ensures Sendable([DoneRecord(sequence)])
    ensures WellFormed(DoneRecord(sequence)) && |DoneRecord(sequence)| == MESSAGE_HEADER
  {
    HeaderFields(MESSAGE_HEADER, NLMSG_DONE, 0, sequence, []);
    assert DoneRecord(sequence) + [] == DoneRecord(sequence);
    assert [DoneRecord(sequence)][1..] == [];
  }

  lemma PairIsSendable(a: Frame, b: Frame)
    requires WellFormed(a) && WellFormed(b) && |a| + |b| + 6 <= RECEIVE_BUFFER
    ensures Sendable([a, b])
  {
    hide LengthOf;
    assert [a, b][1..] == [b] && [b][1..] == [];
    assert Wire([a, b]) == Padded(a) + (Padded(b) + Wire([]));
  }

  lemma {:induction false} CutStream(groups: seq<seq<Frame>>)
    requires forall group <- groups :: Sendable(group)
    ensures Stream(Cut(groups)) == Records(Flatten(groups))
  {
    hide Sendable, ArrivalItems, Wire;
    if groups == [] {
    } else {
      var group, rest := groups[0], groups[1..];
      assert Cut(groups)[0] == Datagram(Wire(group)) && Cut(groups)[1..] == Cut(rest);
      assert Sendable(groups[0]);
      GroupItems(group);
      CutStream(rest);
      assert Records(group + Flatten(rest)) == Records(group) + Records(Flatten(rest));
    }
  }

  /** However a stream of records is cut into datagrams, the dump has the same outcome. */
  lemma RegroupingInvariance<T>(p: Protocol<T>, groups: seq<seq<Frame>>, regrouped: seq<seq<Frame>>)
    requires forall group <- groups :: Sendable(group)
    requires forall group <- regrouped :: Sendable(group)
    requires Flatten(groups) == Flatten(regrouped)
    ensures Run(p, Stream(Cut(groups))) == Run(p, Stream(Cut(regrouped)))
         == Run(p, Records(Flatten(groups)))
  {
    CutStream(groups);
    CutStream(regrouped);
  }

  /** Records of other sequences, anywhere in the stream and in any datagrams, leave the outcome as it is. */
  lemma ForeignRecordsOnTheWire<T>(
    p: Protocol<T>, groups: seq<seq<Frame>>, without: seq<seq<Frame>>,
    a: seq<Frame>, foreign: seq<Frame>, b: seq<Frame>)
    requires forall group <- groups :: Sendable(group)
    requires forall group <- without :: Sendable(group)
    requires Flatten(groups) == a + foreign + b && Flatten(without) == a + b
    requires forall m <- foreign :: SequenceOf(m) != p.sequence
    ensures Run(p, Stream(Cut(groups))) == Run(p, Stream(Cut(without)))
  {
    hide Stream, Cut, Run, SequenceOf, Sendable, Flatten;
    CutStream(groups);
    CutStream(without);
    assert Records(a + foreign + b) == Records(a) + Records(foreign) + Records(b);
    assert Records(a + b) == Records(a) + Records(b);
    assert forall i :: 0 <= i < |foreign| ==> Records(foreign)[i].message in foreign;
    ForeignRecordsChangeNothing(p, Records(a), Records(foreign), Records(b));
  }

  // ---- netlink::receive_dump and sock_diag::receive_dump ----

  /** What is left in the socket: everything after the arrival in which the dump stopped. */
  function Unread<T>(p: Protocol<T>, queue: seq<Arrival>): seq<Arrival> {
    if queue == [] then []
    else if NoneStops(p, ArrivalItems(queue[0])) then Unread(p, queue[1..])
    else queue[1..]
  }

  lemma {:induction false} ReceivedIsUnread<T>(p: Protocol<T>, queue: seq<Arrival>)
    ensures var r, rest := Received(queue).0, Received(queue).1;
            Unread(p, queue) == if r.Ok? && NoneStops(p, ItemsAt(r.value, 0)) then Unread(p, rest) else rest
  {
    if queue == [] {
    } else {
      match queue[0] {
        case Signal => ReceivedIsUnread(p, queue[1..]);
        case Failure(code) => assert Judge(p, ArrivalItems(queue[0])[0]).Stops();
        case Datagram(bytes) =>
          if bytes == [] { assert Judge(p, ArrivalItems(queue[0])[0]).Stops(); }
      }
    }
  }

  function Continued<T>(values: seq<T>, verdict: Verdict<T>, rest: Result<seq<T>, Error>): Result<seq<T>, Error> {
    match verdict
    case Skip => AfterOk(values, rest)
    case Yield(v) => AfterOk(values + [v], rest)
    case Finish => Ok(values)
    case Abort(error) => Err(error)
  }

  /** How one more record changes the outcome of the stream it starts. */
  lemma RunStep<T>(p: Protocol<T>, values: seq<T>, item: Item, rest: seq<Item>)
    ensures AfterOk(values, Run(p, [item] + rest)) == Continued(values, Judge(p, item), Run(p, rest))
  {
    assert ([item] + rest)[1..] == rest;
    if Judge(p, item).Yield? {
      AfterOkAfterOk(values, [Judge(p, item).value], Run(p, rest));
    }
    assert values + [] == values;
  }

  lemma ReceiveFailed<T>(p: Protocol<T>, values: seq<T>, queue: seq<Arrival>)
    requires Received(queue).0.Err?
    ensures AfterOk(values, Run(p, Stream(queue))) == Err(Received(queue).0.error)
  {
    ReceivedIsNext(queue);
  }

  /** The item a walk meets at `offset`, and where it goes from there. */
  function ItemAt(response: seq<byte>, offset: nat): Item
    requires |response| >= offset + MESSAGE_HEADER
  {
    var length := LengthOf(response[offset..]);
    if length < MESSAGE_HEADER || length > |response| - offset then Broken(InvalidData)
    else Record(response[offset..offset + length])
  }

  function LaterItems(response: seq<byte>, offset: nat): seq<Item>
    requires |response| >= offset + MESSAGE_HEADER
  {
    if ItemAt(response, offset).Broken? then []
    else ItemsAt(response, offset + AlignTo4(LengthOf(response[offset..])))
  }

  lemma NoneStopsStep<T>(p: Protocol<T>, item: Item, rest: seq<Item>)
    ensures NoneStops(p, [item] + rest) <==> !Judge(p, item).Stops() && NoneStops(p, rest)
  {
    if NoneStops(p, [item] + rest) {
      assert [item] + rest == [([item] + rest)[0]] + rest;
      forall i | 0 <= i < |rest| ensures !Judge(p, rest[i]).Stops() {
        assert rest[i] == ([item] + rest)[i + 1];
      }
      assert !Judge(p, ([item] + rest)[0]).Stops();
    }
  }

  /** One turn of a datagram loop, seen from the reference. */
  lemma DatagramStep<T>(p: Protocol<T>, values: seq<T>, buffer: seq<byte>, offset: nat, rest: seq<Item>)
    requires |buffer| >= offset + MESSAGE_HEADER
    ensures var item, later := ItemAt(buffer, offset), LaterItems(buffer, offset);
            && AfterOk(values, Run(p, ItemsAt(buffer, offset) + rest))
               == Continued(values, Judge(p, item), Run(p, later + rest))
            && (NoneStops(p, ItemsAt(buffer, offset)) <==> !Judge(p, item).Stops() && NoneStops(p, later))
  {
    hide Word32, AlignTo4, Judge;
    var item, later := ItemAt(buffer, offset), LaterItems(buffer, offset);
    assert ItemsAt(buffer, offset) == [item] + later;
    assert [item] + later + rest == [item] + (later + rest);
    RunStep(p, values, item, later + rest);
    NoneStopsStep(p, item, later);
  }

  lemma DatagramEnd<T>(p: Protocol<T>, buffer: seq<byte>, offset: nat, rest: seq<Item>)
    requires |buffer| < offset + MESSAGE_HEADER
    ensures ItemsAt(buffer, offset) + rest == rest && NoneStops(p, ItemsAt(buffer, offset))
  {}

  /**
   The nested loops of `receive_dump`. With checksDone this is src/netlink.rs, which examines the
   flags and payload of DONE; without it src/sock_diag.rs, which does not.
   */
  method ReceiveDump<T>(socket: Socket, expectedSequence: u32, expectedType: u16,
                        parse: Frame -> Option<T>, checksDone: bool)
    returns (r: Result<seq<T>, Error>)
    modifies socket
    ensures var p := Listing(expectedSequence, expectedType, parse, checksDone);
            r == Run(p, Stream(old(socket.queue))) && socket.queue == Unread(p, old(socket.queue))
  {
    hide AlignTo4, LengthOf, KindOf, SequenceOf, ErrorCode, ReportedError, DumpInterrupted;
    hide ItemsAt, Run, Stream, Unread, NoneStops, Received;
    ghost var p := Listing(expectedSequence, expectedType, parse, checksDone);
    ghost var goal, leftover := Run(p, Stream(socket.queue)), Unread(p, socket.queue);
    var values: seq<T> := [];
    AfterOkAfterOk([], [], goal);
    while true
      invariant goal == AfterOk(values, Run(p, Stream(socket.queue)))
      invariant leftover == Unread(p, socket.queue)
      decreases |socket.queue|
    {
      ReceivedIsNext(socket.queue);
      ReceivedIsUnread(p, socket.queue);
      if Received(socket.queue).0.Err? {
        ReceiveFailed(p, values, socket.queue);
      }
      var received := socket.Receive();
      if received.Err? {
        return Err(received.error);
      }
      var buffer, offset := received.value, 0;
      ghost var rest := socket.queue;
      while SaturatingSub(|buffer|, offset) >= MESSAGE_HEADER
        invariant goal == AfterOk(values, Run(p, ItemsAt(buffer, offset) + Stream(socket.queue)))
        invariant leftover == if NoneStops(p, ItemsAt(buffer, offset)) then Unread(p, socket.queue) else socket.queue
        invariant socket.queue == rest
        decreases |buffer| - offset
      {
        var length := LengthOf(buffer[offset..]);
        DatagramStep(p, values, buffer, offset, Stream(socket.queue));
        if length < MESSAGE_HEADER || length > |buffer| - offset {
          return Err(InvalidData);
        }
        var message: Frame := buffer[offset..offset + length];
        if SequenceOf(message) == expectedSequence {
          var kind := KindOf(message);
          if kind == NLMSG_DONE {
            if checksDone {
              if DumpInterrupted(message) {
                return Err(Interrupted);
              }
              var error := ErrorCode(message);
              if error.Some? && error.value != 0 {
                return Err(Os(Negated(error.value)));
              }
            }
            return Ok(values);
          } else if kind == NLMSG_ERROR {
            var error := ReportedError(message);
            if error.Some? {
              return Err(error.value);
            }
          } else if kind == NLMSG_OVERRUN {
            return Err(Overrun);
          } else if kind == expectedType {
            var value := parse(message);
            if value.Some? {
              values := values + [value.value];
            }
          }
        }
        offset := offset + AlignTo4(length);
      }
      DatagramEnd(p, buffer, offset, Stream(socket.queue));
    }
  }
}
