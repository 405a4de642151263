/**
 The generic-netlink client: one request and its replies, and whole runs of requests
 over a socket in which unread datagrams of earlier requests may still be queued.
 */
module Client {
  import opened Words
  import opened Attributes
  import opened Frames
  import opened Dump
  import opened GenericNetlink

  /** Waits for replies until the datagram with the completion record, or for one datagram only. */
  function Converse(family: u16, sequence: u32, dump: bool, queue: seq<Arrival>)
    : (Result<seq<Message>, Error>, seq<Arrival>)
  {
    if queue == [] then (Err(Blocked), [])
    else if queue[0].Signal? then Converse(family, sequence, dump, queue[1..])
    else
      var items := ArrivalItems(queue[0]);
      var parsed := ParseAll(family, sequence, items);
      if parsed.Err? then (parsed, queue[1..])
      else if !dump || FindDone(sequence, items) != Ok(false) then (parsed, queue[1..])
      else
        var later := Converse(family, sequence, dump, queue[1..]);
        (AfterOk(parsed.value, later.0), later.1)
  }

  lemma {:induction false} ReceivedConverse(family: u16, sequence: u32, dump: bool, queue: seq<Arrival>)
    ensures var r, rest := Received(queue).0, Received(queue).1;
            Converse(family, sequence, dump, queue) ==
            if r.Err? then (Err(r.error), rest)
            else
              var items := ItemsAt(r.value, 0);
              var parsed := ParseAll(family, sequence, items);
              if parsed.Err? then (parsed, rest)
              else if !dump || FindDone(sequence, items) != Ok(false) then (parsed, rest)
              else
                var later := Converse(family, sequence, dump, rest);
                (AfterOk(parsed.value, later.0), later.1)
  {
    if queue == [] {
    } else if queue[0].Signal? {
      ReceivedConverse(family, sequence, dump, queue[1..]);
    }
  }

  // ---- Runs of requests ----

  /** One call of `request`; sending may fail, and the kernel queues some arrivals in answer. */
  datatype Call = Call(command: byte, version: byte, dump: bool, attributes: seq<Attribute>,
                       sendError: Option<Error>, delivered: seq<Arrival>)

  function NextSequence(sequence: u32): u32 {
    if sequence == 0xffff_ffff then 0 else sequence + 1
  }

  /** Result, and the arrivals left in the socket, of a call that runs with the given sequence number. */
  function Perform(family: u16, sequence: u32, queue: seq<Arrival>, call: Call)
    : (Result<seq<Message>, Error>, seq<Arrival>)
  {
    if call.sendError.Some? then (Err(call.sendError.value), queue + call.delivered)
    else Converse(family, sequence, call.dump, queue + call.delivered)
  }

  // ---- Connecting ----

  const GENL_ID_CTRL: u16 := 0x10
  const CTRL_CMD_GETFAMILY: byte := 3
  const CTRL_ATTR_FAMILY_ID: u16 := 1
  const CTRL_ATTR_FAMILY_NAME: u16 := 2

  function NativeU16(value: seq<byte>): Option<u16> {
    if |value| < 2 then None else Some(Word16(value))
  }

  function FamilyIdIn(a: Attribute): Option<u16> {
    if a.kind == CTRL_ATTR_FAMILY_ID then NativeU16(a.value) else None
  }

  /** `find_map`: the first attribute that holds an identifier. */
  function FirstFamilyId(attributes: seq<Attribute>): Option<u16> {
    if attributes == [] then None
    else if FamilyIdIn(attributes[0]).Some? then FamilyIdIn(attributes[0])
    else FirstFamilyId(attributes[1..])
  }

  function AttributesOf(messages: seq<Message>): seq<Attribute> {
    if messages == [] then [] else messages[0].attributes + AttributesOf(messages[1..])
  }

  /** The controller's answer, read by a client that expects one datagram under number 1. */
  function FamilyLookup(queue: seq<Arrival>): (Result<u16, Error>, seq<Arrival>) {
    var (r, rest) := Converse(GENL_ID_CTRL, 1, false, queue);
    match r
    case Err(error) => (Err(error), rest)
    case Ok(messages) =>
      match FirstFamilyId(AttributesOf(messages))
      case None => (Err(NotFound), rest)
      case Some(id) => (Ok(id), rest)
  }

  function FamilyRequest(name: seq<byte>): seq<byte> {
    MessageBytes(GENL_ID_CTRL, 1, CTRL_CMD_GETFAMILY, 1, NLM_F_REQUEST, [Attribute(CTRL_ATTR_FAMILY_NAME, name + [0])])
  }

  /** A controller that reads the request finds the command and the NUL-terminated name. */
  lemma FamilyRequestNames(name: seq<byte>)
    requires |name| + 1 <= LARGEST_VALUE
    ensures ParseAll(GENL_ID_CTRL, 1, ItemsAt(FamilyRequest(name), 0))
         == Ok([Message(3, [Attribute(2, name + [0])])])
  {
    hide ItemsAt, ParseAll, MessageBytes, EncodeAttributes, EncodeAttribute;
    var a := Attribute(CTRL_ATTR_FAMILY_NAME, name + [0]);
    LoneAttribute(a);
    MessageRoundTrip(GENL_ID_CTRL, 1, CTRL_CMD_GETFAMILY, 1, NLM_F_REQUEST, [a]);
    assert Masked([a]) == [a];
  }

  lemma LoneAttribute(a: Attribute)
    ensures EncodeAttributes([a]) == EncodeAttribute(a)
  {
    assert [a][1..] == [] && EncodeAttributes([a]) == EncodeAttribute(a) + EncodeAttributes([a][1..]);
  }

  /**
   A controller's reply resolves to its first identifier that is two bytes long or more, and to
   NotFound if it has none.
   */
  lemma FamilyReplyResolves(command: byte, version: byte, flags: u16, attributes: seq<Attribute>, rest: seq<Arrival>)
    requires forall a <- attributes :: Fits(a)
    requires PAYLOAD + |EncodeAttributes(attributes)| <= RECEIVE_BUFFER
    ensures var reply := Datagram(MessageBytes(GENL_ID_CTRL, 1, command, version, flags, attributes));
            FamilyLookup([reply] + rest) ==
            (match FirstFamilyId(Masked(attributes)) case None => Err(NotFound) case Some(id) => Ok(id), rest)
  {
    hide ItemsAt, ParseAll, FirstFamilyId, MessageBytes, EncodeAttributes;
    BuiltDatagram(GENL_ID_CTRL, 1, command, version, flags, attributes);
    MessageRoundTrip(GENL_ID_CTRL, 1, command, version, flags, attributes);
    var reply := Datagram(MessageBytes(GENL_ID_CTRL, 1, command, version, flags, attributes));
    assert ([reply] + rest)[0] == reply && ([reply] + rest)[1..] == rest;
    var messages := [Message(command, Masked(attributes))];
    assert Converse(GENL_ID_CTRL, 1, false, [reply] + rest) == (Ok(messages), rest);
    assert messages[1..] == [] && AttributesOf(messages) == Masked(attributes) + [];
    assert Masked(attributes) + [] == Masked(attributes);
  }

  /** In particular to the identifier the kernel put after attributes of other kinds. */
  lemma {:induction false} IdentifierIsFound(front: seq<Attribute>, id: u16, back: seq<Attribute>)
    requires forall a <- front :: MaskedKind(a.kind) != 1
    ensures FirstFamilyId(Masked(front + [Attribute(1, Bytes16(id))] + back)) == Some(id)
  {
    var all := front + [Attribute(CTRL_ATTR_FAMILY_ID, Bytes16(id))] + back;
    if front == [] {
      Word16OfBytes(id);
      assert Masked(all)[0] == Attribute(CTRL_ATTR_FAMILY_ID, Bytes16(id));
    } else {
      assert front[0] in front && all[0] == front[0];
      assert all[1..] == front[1..] + [Attribute(CTRL_ATTR_FAMILY_ID, Bytes16(id))] + back;
      assert Masked(all)[1..] == Masked(all[1..]);
      IdentifierIsFound(front[1..], id, back);
    }
  }

  // ---- Requests ----

  /** What `request` sends: a request flag, and the two dump flags if a dump is asked for. */
  function RequestBytes(family: u16, sequence: u32, call: Call): seq<byte> {
    MessageBytes(family, sequence, call.command, call.version,
                 if call.dump then NLM_F_REQUEST_DUMP else NLM_F_REQUEST, call.attributes)
  }

  /** The kernel finds bit 0x1 set in every request, bits 0x100 and 0x200 exactly in dumps, and no other flag. */
  lemma RequestAsks(family: u16, sequence: u32, call: Call)
    ensures |RequestBytes(family, sequence, call)| >= 20
    ensures var m: Frame := RequestBytes(family, sequence, call);
            && FlagsOf(m) == (if call.dump then 0x301 else 0x001)
            && KindOf(m) == family && SequenceOf(m) == sequence
            && m[16] == call.command && m[17] == call.version
            && m[20..] == EncodeAttributes(call.attributes)
  {
    hide FlagsOf, KindOf, SequenceOf, EncodeAttributes;
    BuiltHeader(family, sequence, call.command, call.version,
                if call.dump then NLM_F_REQUEST_DUMP else NLM_F_REQUEST, call.attributes);
    var m := RequestBytes(family, sequence, call);
    assert m[16] == m[16..20][0] && m[17] == m[16..20][1];
  }

  /** The numbers of the family request: the controller, one reply, sequence 1, command 3, version 1. */
  lemma FamilyRequestAsks(name: seq<byte>)
    ensures |FamilyRequest(name)| >= 20
    ensures var m: Frame := FamilyRequest(name);
            KindOf(m) == 0x10 && FlagsOf(m) == 0x001 && SequenceOf(m) == 1 && m[16] == 3 && m[17] == 1
  {
    hide FlagsOf, KindOf, SequenceOf, EncodeAttributes;
    var attributes := [Attribute(CTRL_ATTR_FAMILY_NAME, name + [0])];
    BuiltHeader(GENL_ID_CTRL, 1, CTRL_CMD_GETFAMILY, 1, NLM_F_REQUEST, attributes);
    var m := FamilyRequest(name);
    assert m[16] == m[16..20][0] && m[17] == m[16..20][1];
  }

  class GenericClient {
    const family: u16
    const socket: Socket
    var sequence: u32

    /** The state `connect` leaves: its own request used sequence number 1. */
    constructor (socket: Socket, family: u16)
      ensures this.socket == socket && this.family == family && sequence == 1
    {
      this.socket, this.family, this.sequence := socket, family, 1;
    }

    /** `connect`: opening the socket and sending may fail, and the kernel queues some arrivals in answer. */
    static method Connect(name: seq<byte>, openError: Option<Error>, sendError: Option<Error>,
                          delivered: seq<Arrival>)
      returns (request: seq<byte>, r: Result<GenericClient, Error>)
      ensures openError.Some? ==> r == Err(openError.value)
      ensures openError.None? ==> request == FamilyRequest(name)
      ensures openError.None? && sendError.Some? ==> r == Err(sendError.value)
      ensures openError.None? && sendError.None? ==>
                match FamilyLookup(delivered).0
                case Err(error) => r == Err(error)
                case Ok(id) => r.Ok? && r.value.family == id && r.value.sequence == 1
                               && r.value.socket.queue == FamilyLookup(delivered).1
      ensures r.Ok? ==> fresh(r.value) && fresh(r.value.socket)
    {
      hide ItemsAt, ParseAll, FirstFamilyId, MessageBytes, Received, Converse;
      if openError.Some? {
        return [], Err(openError.value);
      }
      var socket := new Socket();
      request := BuildMessage(GENL_ID_CTRL, 1, CTRL_CMD_GETFAMILY, 1, NLM_F_REQUEST,
                              [Attribute(CTRL_ATTR_FAMILY_NAME, name + [0])]);
      socket.Deliver(delivered);
      assert socket.queue == delivered;
      if sendError.Some? {
        return request, Err(sendError.value);
      }
      ReceivedConverse(GENL_ID_CTRL, 1, false, delivered);
      var response := socket.Receive();
      if response.Err? {
        return request, Err(response.error);
      }
      var messages := ParseMessages(response.value, GENL_ID_CTRL, 1);
      if messages.Err? {
        return request, Err(messages.error);
      }
      var id := FirstFamilyId(AttributesOf(messages.value));
      if id.None? {
        return request, Err(NotFound);
      }
      var client := new GenericClient(socket, id.value);
      return request, Ok(client);
    }

    method Request(call: Call) returns (request: seq<byte>, r: Result<seq<Message>, Error>)
      modifies this, socket
      ensures sequence == NextSequence(old(sequence))
      ensures request == RequestBytes(family, sequence, call)
      ensures (r, socket.queue) == Perform(family, sequence, old(socket.queue), call)
      ensures call.sendError.Some? ==> r == Err(call.sendError.value)
    {
      sequence := NextSequence(sequence);
      request := BuildMessage(family, sequence, call.command, call.version,
                              if call.dump then NLM_F_REQUEST_DUMP else NLM_F_REQUEST, call.attributes);
      socket.Deliver(call.delivered);
      if call.sendError.Some? {
        return request, Err(call.sendError.value);
      }
      var messages: seq<Message> := [];
      ghost var goal := Converse(family, sequence, call.dump, socket.queue);
      AfterOkAfterOk([], [], goal.0);
      while true
        invariant sequence == NextSequence(old(sequence))
        invariant goal == (AfterOk(messages, Converse(family, sequence, call.dump, socket.queue).0),
                           Converse(family, sequence, call.dump, socket.queue).1)
        decreases |socket.queue|
      {
        ReceivedConverse(family, sequence, call.dump, socket.queue);
        var response := socket.Receive();
        if response.Err? {
          return request, Err(response.error);
        }
        var parsed := ParseMessages(response.value, family, sequence);
        if parsed.Err? {
          return request, parsed;
        }
        var done := ResponseHasDone(response.value, sequence);
        CompletionScanCannotFail(family, sequence, ItemsAt(response.value, 0));
        AfterOkAfterOk(messages, parsed.value, Converse(family, sequence, call.dump, socket.queue).0);
        messages := messages + parsed.value;
        if done.value || !call.dump {
          return request, Ok(messages);
        }
      }
    }
  }

  // ---- The two-pass loop against the one-pass dump ----

  function Decoded(m: Frame): Parsed<Message> {
    match Decode(m)
    case Err(error) => Rejected(error)
    case Ok(message) => Value(message)
  }

  function GenericProtocol(family: u16, sequence: u32): Protocol<Message> {
    Protocol(sequence, family, (m: Frame) => Decoded(m), false)
  }

  /** A resolved family identifier is none of the control message types. */
  predicate IsFamily(family: u16) {
    family != NLMSG_ERROR && family != NLMSG_DONE && family != NLMSG_OVERRUN
  }

  lemma AcceptIsJudge(family: u16, sequence: u32, item: Item)
    requires IsFamily(family)
    ensures var judged := Judge(GenericProtocol(family, sequence), item);
            && (IsDone(sequence, item) ==> judged == Finish)
            && Accept(family, sequence, item) == (if IsDone(sequence, item) then Skip else judged)
            && (judged.Finish? ==> IsDone(sequence, item))
  {}

  /** Before the first record that stops, the first pass collects what the one-pass dump collects. */
  lemma {:induction false} ParsePast(family: u16, sequence: u32, a: seq<Item>, b: seq<Item>)
    requires IsFamily(family) && NoneStops(GenericProtocol(family, sequence), a)
    ensures ParseAll(family, sequence, a + b)
         == AfterOk(Yields(GenericProtocol(family, sequence), a), ParseAll(family, sequence, b))
    ensures FindDone(sequence, a + b) == FindDone(sequence, b)
  {
    hide Decode, Decoded;
    var p := GenericProtocol(family, sequence);
    if a == [] {
      assert [] + b == b;
      AfterOkAfterOk([], [], ParseAll(family, sequence, b));
    } else {
      AcceptIsJudge(family, sequence, a[0]);
      assert !Judge(p, a[0]).Stops();
      assert a + b == [a[0]] + (a[1..] + b) && (a + b)[1..] == a[1..] + b;
      ParsePast(family, sequence, a[1..], b);
      AfterOkAfterOk(if Judge(p, a[0]).Yield? then [Judge(p, a[0]).value] else [], Yields(p, a[1..]),
                     ParseAll(family, sequence, b));
      AfterOkAfterOk([], [], ParseAll(family, sequence, a[1..] + b));
    }
  }

  /** No message, error or overrun for this request. */
  predicate Quiet(family: u16, sequence: u32, items: seq<Item>) {
    forall i :: 0 <= i < |items| ==> Accept(family, sequence, items[i]).Skip?
  }

  lemma {:induction false} NothingParsedIffQuiet(family: u16, sequence: u32, items: seq<Item>)
    ensures ParseAll(family, sequence, items) == Ok([]) <==> Quiet(family, sequence, items)
  {
    if items == [] {
    } else {
      NothingParsedIffQuiet(family, sequence, items[1..]);
      assert items == [items[0]] + items[1..];
      assert Quiet(family, sequence, items) ==> Quiet(family, sequence, items[1..]);
    }
  }

  /** In the datagram where the dump ends, only quiet records follow the completion record. */
  predicate QuietAfterDone(family: u16, sequence: u32, queue: seq<Arrival>) {
    queue != [] ==>
      var items := ArrivalItems(queue[0]);
      var n := FirstStop(GenericProtocol(family, sequence), items);
      if n == |items| then QuietAfterDone(family, sequence, queue[1..])
      else IsDone(sequence, items[n]) ==> Quiet(family, sequence, items[n + 1..])
  }

  lemma SplitAt<T>(s: seq<T>, n: nat, rest: seq<T>)
    requires n < |s|
    ensures s == s[..n] + ([s[n]] + s[n + 1..])
    ensures s + rest == s[..n] + [s[n]] + (s[n + 1..] + rest)
  {}

  /** A datagram with a record that stops the one-pass dump ends the client's loop as well. */
  lemma StoppingDatagramEnds(family: u16, sequence: u32, items: seq<Item>, n: nat)
    requires IsFamily(family) && n < |items|
    requires n == FirstStop(GenericProtocol(family, sequence), items)
    ensures var parsed := ParseAll(family, sequence, items);
            parsed.Ok? ==> IsDone(sequence, items[n]) && FindDone(sequence, items) == Ok(true)
  {
    hide Decode, Decoded, IsDone, Accept, Judge;
    SplitAt(items, n, []);
    ParsePast(family, sequence, items[..n], [items[n]] + items[n + 1..]);
    FirstParsed(family, sequence, items[n], items[n + 1..]);
  }

  lemma FirstParsed(family: u16, sequence: u32, item: Item, later: seq<Item>)
    requires IsFamily(family) && Judge(GenericProtocol(family, sequence), item).Stops()
    ensures ParseAll(family, sequence, [item] + later) ==
            if IsDone(sequence, item) then ParseAll(family, sequence, later)
            else Err(Judge(GenericProtocol(family, sequence), item).error)
    ensures IsDone(sequence, item) <==> Judge(GenericProtocol(family, sequence), item).Finish?
    ensures IsDone(sequence, item) ==> FindDone(sequence, [item] + later) == Ok(true)
  {
    hide Decode, Decoded;
    AcceptIsJudge(family, sequence, item);
    assert ([item] + later)[1..] == later;
  }

  lemma StoppingParts(family: u16, sequence: u32, a: seq<Item>, stop: Item, b: seq<Item>, rest: seq<Item>)
    requires IsFamily(family) && NoneStops(GenericProtocol(family, sequence), a)
    requires Judge(GenericProtocol(family, sequence), stop).Stops()
    ensures ParseAll(family, sequence, a + ([stop] + b))
            == Run(GenericProtocol(family, sequence), a + [stop] + (b + rest))
       <==> (IsDone(sequence, stop) ==> Quiet(family, sequence, b))
  {
    hide IsDone, Judge, ParseAll, Run, Quiet, Yields, NoneStops, IsFamily, GenericProtocol;
    var p := GenericProtocol(family, sequence);
    RunStops(p, a, stop, b + rest);
    ParsePast(family, sequence, a, [stop] + b);
    FirstParsed(family, sequence, stop, b);
    NothingParsedIffQuiet(family, sequence, b);
    AfterOkNothing(Yields(p, a), ParseAll(family, sequence, b));
  }

  /** Whether the two passes and the one-pass dump agree on a datagram that ends the dump. */
  lemma StoppingDatagram(family: u16, sequence: u32, items: seq<Item>, n: nat, rest: seq<Item>)
    requires IsFamily(family) && n < |items|
    requires n == FirstStop(GenericProtocol(family, sequence), items)
    ensures ParseAll(family, sequence, items) == Run(GenericProtocol(family, sequence), items + rest)
       <==> (IsDone(sequence, items[n]) ==> Quiet(family, sequence, items[n + 1..]))
  {
    hide IsDone, Judge, ParseAll, Run, Quiet, NoneStops, IsFamily, GenericProtocol;
    SplitAt(items, n, rest);
    StoppingParts(family, sequence, items[..n], items[n], items[n + 1..], rest);
  }

  lemma AfterOkNothing<T, E>(front: seq<T>, rest: Result<seq<T>, E>)
    ensures AfterOk(front, rest) == Ok(front) <==> rest == Ok([])
  {
    if rest.Ok? {
      assert |front + rest.value| == |front| + |rest.value|;
      assert front + [] == front;
    }
  }

  /**
   A dump request returns what the one-pass dump returns exactly when nothing with a meaning for
   the request shares a datagram with the completion record and comes after it.
   */
  lemma {:induction false} TwoPassesRefineOnePassIff(family: u16, sequence: u32, queue: seq<Arrival>)
    requires IsFamily(family)
    ensures Converse(family, sequence, true, queue).0 == Run(GenericProtocol(family, sequence), Stream(queue))
       <==> QuietAfterDone(family, sequence, queue)
  {
    var p := GenericProtocol(family, sequence);
    if queue == [] {
    } else {
      var items, rest := ArrivalItems(queue[0]), queue[1..];
      var n := FirstStop(p, items);
      if n == |items| {
        TwoPassesRefineOnePassIff(family, sequence, rest);
        assert items[..n] == items && items + [] == items;
        ParsePast(family, sequence, items, []);
        RunPast(p, items, Stream(rest));
        AfterOkCancels(Yields(p, items), Converse(family, sequence, true, rest).0, Run(p, Stream(rest)));
        AfterOkAfterOk([], [], Converse(family, sequence, true, rest).0);
        assert Yields(p, items) + [] == Yields(p, items);
      } else {
        StoppingDatagramEnds(family, sequence, items, n);
        StoppingDatagram(family, sequence, items, n, Stream(rest));
      }
    }
  }

  /** Both loops leave the same arrivals unread: the client, too, stops in the datagram that ends the dump. */
  lemma {:induction false} SameUnread(family: u16, sequence: u32, queue: seq<Arrival>)
    requires IsFamily(family)
    ensures Converse(family, sequence, true, queue).1 == Unread(GenericProtocol(family, sequence), queue)
  {
    hide Judge, Accept, ArrivalItems, ParseAll, FindDone;
    var p := GenericProtocol(family, sequence);
    if queue == [] {
    } else if queue[0].Signal? {
      NothingInSignal(p);
      SameUnread(family, sequence, queue[1..]);
    } else {
      var items := ArrivalItems(queue[0]);
      var n := FirstStop(p, items);
      if n == |items| {
        assert items[..n] == items && items + [] == items;
        ParsePast(family, sequence, items, []);
        NothingToParse(family, sequence);
        SameUnread(family, sequence, queue[1..]);
      } else {
        StoppingDatagramEnds(family, sequence, items, n);
      }
    }
  }

  lemma NothingInSignal<T>(p: Protocol<T>)
    ensures NoneStops(p, ArrivalItems(Signal))
  {}

  lemma NothingToParse(family: u16, sequence: u32)
    ensures ParseAll(family, sequence, []) == Ok([]) && FindDone(sequence, []) == Ok(false)
  {}

  /** A completion record and then a message of the same request, in one datagram. */
  function DoneThenMessage(family: u16, sequence: u32): seq<Frame> {
    [DoneRecord(sequence), MessageBytes(family, sequence, 1, 1, 0, [])]
  }

  /** An input on which the two passes return a message that the one-pass dump does not. */
  lemma MessageAfterDone(family: u16, sequence: u32)
    requires IsFamily(family)
    ensures var queue := Cut([DoneThenMessage(family, sequence)]);
            && Run(GenericProtocol(family, sequence), Stream(queue)) == Ok([])
            && Converse(family, sequence, true, queue).0 == Ok([Message(1, [])])
  {
    hide DoneRecord, MessageBytes, ArrivalItems, ItemsAt, Judge, Accept;
    var p, group := GenericProtocol(family, sequence), DoneThenMessage(family, sequence);
    var done, m := Record(group[0]), Record(group[1]);
    DoneThenMessageItems(family, sequence);
    var first := Cut([group])[0];
    assert Cut([group]) == [first] && [first][1..] == [] && Stream([first]) == [done, m] + Stream([]);
    DoneRecordFinishes(p);
    assert [done, m] + [] == [] + [done] + [m] && [done, m] == [done] + [m];
    RunStops(p, [], done, [m]);
    FirstParsed(family, sequence, done, [m]);
  }

  lemma DoneThenMessageItems(family: u16, sequence: u32)
    requires IsFamily(family)
    ensures var group := DoneThenMessage(family, sequence);
            && ArrivalItems(Datagram(Wire(group))) == Records(group)
            && Records(group) == [Record(group[0]), Record(group[1])]
            && ParseAll(family, sequence, [Record(group[1])]) == Ok([Message(1, [])])
  {
    hide MessageBytes, ItemsAt, ParseAll, LengthOf;
    var group := DoneThenMessage(family, sequence);
    BuiltIsWellFormed(family, sequence, 1, 1, 0, []);
    BuiltDatagram(family, sequence, 1, 1, 0, []);
    MessageRoundTrip(family, sequence, 1, 1, 0, []);
    assert Masked([]) == [];
    DoneIsSendable(sequence);
    PairIsSendable(group[0], group[1]);
    GroupItems(group);
  }
}
