/**
 src/generic_netlink.rs: building a request, parsing a reply datagram, and looking for
 its completion record.
 */
module GenericNetlink {
  import opened Words
  import opened Attributes
  import opened Frames
  import opened Dump

  const GENERIC_HEADER: nat := 4
  const PAYLOAD: nat := MESSAGE_HEADER + GENERIC_HEADER
  const NLM_F_REQUEST: u16 := 0x001
  const NLM_F_REQUEST_DUMP: u16 := 0x301

  datatype Message = Message(command: byte, attributes: seq<Attribute>)

  // ---- build_message ----

  function MessageBytes(kind: u16, sequence: u32, command: byte, version: byte, flags: u16,
                        attributes: seq<Attribute>): (m: seq<byte>)
    ensures |m| == PAYLOAD + |EncodeAttributes(attributes)|
  {
    var body := [command, version, 0, 0] + EncodeAttributes(attributes);
    HeaderBytes((MESSAGE_HEADER + |body|) % 0x1_0000_0000, kind, flags, sequence) + body
  }

  /** The header goes in last, over the zeros that hold its place. */
  method BuildMessage(kind: u16, sequence: u32, command: byte, version: byte, flags: u16,
                      attributes: seq<Attribute>)
    returns (message: seq<byte>)
    ensures message == MessageBytes(kind, sequence, command, version, flags, attributes)
  {
    message := Zeros(MESSAGE_HEADER);
    message := message + [command, version, 0, 0];
    ghost var body := [command, version, 0, 0] + EncodeAttributes(attributes);
    message := AppendAttributes(message, attributes);
    assert message[MESSAGE_HEADER..] == body;
    var header := HeaderBytes(|message| % 0x1_0000_0000, kind, flags, sequence);
    message := header + message[|header|..];
  }

  // ---- parse_messages and response_has_done ----

  function Decode(m: Frame): Result<Message, Error> {
    if |m| < PAYLOAD then Err(InvalidData)
    else match AttributesAt(m, PAYLOAD)
      case None => Err(InvalidData)
      case Some(attributes) => Ok(Message(m[MESSAGE_HEADER], attributes))
  }

  function Accept(family: u16, sequence: u32, item: Item): Verdict<Message> {
    match item
    case Broken(error) => Abort(error)
    case Record(m) =>
      if SequenceOf(m) != sequence then Skip
      else if KindOf(m) == NLMSG_ERROR then
        (match ReportedError(m) case None => Skip case Some(error) => Abort(error))
      else if KindOf(m) == NLMSG_OVERRUN then Abort(Overrun)
      else if KindOf(m) == family then
        (match Decode(m) case Err(error) => Abort(error) case Ok(message) => Yield(message))
      else Skip
  }

  /** All messages of a datagram; the records after a completion record are parsed as well. */
  function ParseAll(family: u16, sequence: u32, items: seq<Item>): Result<seq<Message>, Error> {
    if items == [] then Ok([])
    else match Accept(family, sequence, items[0])
      case Abort(error) => Err(error)
      case Yield(message) => AfterOk([message], ParseAll(family, sequence, items[1..]))
      case _ => ParseAll(family, sequence, items[1..])
  }

  predicate IsDone(sequence: u32, item: Item) {
    item.Record? && SequenceOf(item.message) == sequence && KindOf(item.message) == NLMSG_DONE
  }

  function FindDone(sequence: u32, items: seq<Item>): Result<bool, Error> {
    if items == [] then Ok(false)
    else if items[0].Broken? then Err(items[0].error)
    else if IsDone(sequence, items[0]) then Ok(true)
    else FindDone(sequence, items[1..])
  }

  function Accumulated(messages: seq<Message>, verdict: Verdict<Message>, rest: Result<seq<Message>, Error>)
    : Result<seq<Message>, Error>
  {
    match verdict
    case Abort(error) => Err(error)
    case Yield(message) => AfterOk(messages + [message], rest)
    case _ => AfterOk(messages, rest)
  }

  lemma ParseStep(family: u16, sequence: u32, messages: seq<Message>, buffer: seq<byte>, offset: nat)
    requires |buffer| >= offset + MESSAGE_HEADER
    ensures AfterOk(messages, ParseAll(family, sequence, ItemsAt(buffer, offset)))
         == Accumulated(messages, Accept(family, sequence, ItemAt(buffer, offset)),
                        ParseAll(family, sequence, LaterItems(buffer, offset)))
  {
    hide AlignTo4, LengthOf, Accept;
    var item, later := ItemAt(buffer, offset), LaterItems(buffer, offset);
    assert ItemsAt(buffer, offset) == [item] + later;
    if Accept(family, sequence, item).Yield? {
      AfterOkAfterOk(messages, [Accept(family, sequence, item).value], ParseAll(family, sequence, later));
    }
  }

  method ParseMessages(response: seq<byte>, family: u16, sequence: u32) returns (r: Result<seq<Message>, Error>)
    ensures r == ParseAll(family, sequence, ItemsAt(response, 0))
  {
    hide AlignTo4, LengthOf, KindOf, SequenceOf, ReportedError, ItemsAt, ParseAll;
    var messages, offset := [], 0;
    ghost var goal := ParseAll(family, sequence, ItemsAt(response, 0));
    AfterOkAfterOk([], [], goal);
    while SaturatingSub(|response|, offset) >= MESSAGE_HEADER
      invariant goal == AfterOk(messages, ParseAll(family, sequence, ItemsAt(response, offset)))
      decreases |response| - offset
    {
      ParseStep(family, sequence, messages, response, offset);
      var length := LengthOf(response[offset..]);
      if length < MESSAGE_HEADER || length > |response| - offset {
        return Err(InvalidData);
      }
      var message: Frame := response[offset..offset + length];
      if SequenceOf(message) == sequence {
        var kind := KindOf(message);
        if kind == NLMSG_ERROR {
          var error := ReportedError(message);
          if error.Some? {
            return Err(error.value);
          }
        } else if kind == NLMSG_OVERRUN {
          return Err(Overrun);
        } else if kind == family {
          if |message| < PAYLOAD {
            return Err(InvalidData);
          }
          var attributes := ParseAttributes(message, PAYLOAD);
          if attributes.None? {
            return Err(InvalidData);
          }
          messages := messages + [Message(message[MESSAGE_HEADER], attributes.value)];
        }
      }
      offset := offset + AlignTo4(length);
    }
    NothingParsed(family, sequence, response, offset, messages);
    return Ok(messages);
  }

  lemma NothingParsed(family: u16, sequence: u32, response: seq<byte>, offset: nat, messages: seq<Message>)
    requires |response| < offset + MESSAGE_HEADER
    ensures AfterOk(messages, ParseAll(family, sequence, ItemsAt(response, offset))) == Ok(messages)
    ensures FindDone(sequence, ItemsAt(response, offset)) == Ok(false)
  {
    assert messages + [] == messages;
  }

  lemma FindStep(sequence: u32, buffer: seq<byte>, offset: nat)
    requires |buffer| >= offset + MESSAGE_HEADER
    ensures FindDone(sequence, ItemsAt(buffer, offset)) ==
            if ItemAt(buffer, offset).Broken? then Err(InvalidData)
            else if IsDone(sequence, ItemAt(buffer, offset)) then Ok(true)
            else FindDone(sequence, LaterItems(buffer, offset))
  {
    hide AlignTo4, LengthOf, IsDone;
    assert ItemsAt(buffer, offset) == [ItemAt(buffer, offset)] + LaterItems(buffer, offset);
  }

  method ResponseHasDone(response: seq<byte>, sequence: u32) returns (r: Result<bool, Error>)
    ensures r == FindDone(sequence, ItemsAt(response, 0))
  {
    hide AlignTo4, LengthOf, KindOf, SequenceOf, ItemsAt, FindDone;
    var offset := 0;
    while SaturatingSub(|response|, offset) >= MESSAGE_HEADER
      invariant FindDone(sequence, ItemsAt(response, 0)) == FindDone(sequence, ItemsAt(response, offset))
      decreases |response| - offset
    {
      FindStep(sequence, response, offset);
      var length := LengthOf(response[offset..]);
      if length < MESSAGE_HEADER || length > |response| - offset {
        return Err(InvalidData);
      }
      var message: Frame := response[offset..offset + length];
      if SequenceOf(message) == sequence && KindOf(message) == NLMSG_DONE {
        return Ok(true);
      }
      offset := offset + AlignTo4(length);
    }
    NothingParsed(0, sequence, response, offset, []);
    return Ok(false);
  }

  /** Once the first pass has accepted a datagram, the second pass cannot fail on it. */
  lemma {:induction false} CompletionScanCannotFail(family: u16, sequence: u32, items: seq<Item>)
    requires ParseAll(family, sequence, items).Ok?
    ensures FindDone(sequence, items) == Ok(exists item <- items :: IsDone(sequence, item))
  {
    if items == [] {
    } else {
      CompletionScanCannotFail(family, sequence, items[1..]);
      assert items == [items[0]] + items[1..];
    }
  }

  // ---- Round trip ----

  lemma LoneRecord(m: Frame)
    requires WellFormed(m)
    ensures ItemsAt(m, 0) == [Record(m)]
  {
    hide Word32, AlignTo4;
    assert m[0..] == m && m[0..0 + |m|] == m;
  }

  lemma DecodeBuilt(header: seq<byte>, command: byte, version: byte, attributes: seq<Attribute>)
    requires |header| == MESSAGE_HEADER
    requires forall a <- attributes :: Fits(a)
    ensures Decode(header + ([command, version, 0, 0] + EncodeAttributes(attributes)))
         == Ok(Message(command, Masked(attributes)))
  {
    var prefix := header + [command, version, 0, 0];
    assert header + ([command, version, 0, 0] + EncodeAttributes(attributes)) == prefix + EncodeAttributes(attributes);
    RoundTripIffFits(prefix, attributes);
  }

  /** A built message is a datagram of one record, under its own number. */
  lemma BuiltDatagram(kind: u16, sequence: u32, command: byte, version: byte, flags: u16, attributes: seq<Attribute>)
    requires PAYLOAD + |EncodeAttributes(attributes)| <= RECEIVE_BUFFER
    ensures var m: Frame := MessageBytes(kind, sequence, command, version, flags, attributes);
            && ArrivalItems(Datagram(m)) == ItemsAt(m, 0) == [Record(m)]
            && SequenceOf(m) == sequence
  {
    hide LengthOf, KindOf, SequenceOf, FlagsOf, AlignTo4, ItemsAt, EncodeAttributes, HeaderBytes;
    var body := [command, version, 0, 0] + EncodeAttributes(attributes);
    var length: u32 := MESSAGE_HEADER + |body|;
    var m: Frame := HeaderBytes(length, kind, flags, sequence) + body;
    HeaderFields(length, kind, flags, sequence, body);
    LoneRecord(m);
    assert Copied(m) == m;
  }

  /** What the kernel finds in a built message, and where. */
  lemma BuiltHeader(
    kind: u16, sequence: u32, command: byte, version: byte, flags: u16, attributes: seq<Attribute>)
    ensures var m: Frame := MessageBytes(kind, sequence, command, version, flags, attributes);
            && |m| >= 20
            && LengthOf(m) == |m| % 0x1_0000_0000
            && KindOf(m) == kind && FlagsOf(m) == flags && SequenceOf(m) == sequence
            && m[12..16] == [0, 0, 0, 0]
            && m[16..20] == [command, version, 0, 0]
            && m[20..] == EncodeAttributes(attributes)
  {
    hide LengthOf, KindOf, SequenceOf, FlagsOf, EncodeAttributes;
    var body := [command, version, 0, 0] + EncodeAttributes(attributes);
    HeaderFields((MESSAGE_HEADER + |body|) % 0x1_0000_0000, kind, flags, sequence, body);
  }

  /** A record of the family that is too short for its header, or holds a malformed attribute, fails the request. */
  lemma MalformedReply(family: u16, sequence: u32, m: Frame)
    requires SequenceOf(m) == sequence && KindOf(m) == family && family > 4
    requires |m| < 20 || AttributesAt(m, 20) == None
    ensures Accept(family, sequence, Record(m)) == Abort(InvalidData)
  {
    hide SequenceOf, KindOf;
  }

  lemma BuiltIsWellFormed(
    kind: u16, sequence: u32, command: byte, version: byte, flags: u16, attributes: seq<Attribute>)
    requires PAYLOAD + |EncodeAttributes(attributes)| < 0x1_0000_0000
    ensures WellFormed(MessageBytes(kind, sequence, command, version, flags, attributes))
  {
    hide LengthOf, KindOf, SequenceOf, FlagsOf, EncodeAttributes, HeaderBytes;
    var body := [command, version, 0, 0] + EncodeAttributes(attributes);
    HeaderFields(MESSAGE_HEADER + |body|, kind, flags, sequence, body);
  }

  /** A request parsed as if it were a reply gives back its command and its attributes. */
  lemma MessageRoundTrip(kind: u16, sequence: u32, command: byte, version: byte, flags: u16,
                         attributes: seq<Attribute>)
    requires kind != NLMSG_ERROR && kind != NLMSG_OVERRUN
    requires forall a <- attributes :: Fits(a)
    requires PAYLOAD + |EncodeAttributes(attributes)| < 0x1_0000_0000
    ensures ParseAll(kind, sequence, ItemsAt(MessageBytes(kind, sequence, command, version, flags, attributes), 0))
         == Ok([Message(command, Masked(attributes))])
  {
    hide LengthOf, KindOf, SequenceOf, FlagsOf, AlignTo4, Decode, ItemsAt, ParseAll, EncodeAttributes, HeaderBytes;
    var body := [command, version, 0, 0] + EncodeAttributes(attributes);
    var length: u32 := MESSAGE_HEADER + |body|;
    var m: Frame := HeaderBytes(length, kind, flags, sequence) + body;
    assert length % 0x1_0000_0000 == length && m == MessageBytes(kind, sequence, command, version, flags, attributes);
    HeaderFields(length, kind, flags, sequence, body);
    LoneRecord(m);
    DecodeBuilt(HeaderBytes(length, kind, flags, sequence), command, version, attributes);
    OneMessage(kind, sequence, m);
  }

  lemma OneMessage(family: u16, sequence: u32, m: Frame)
    requires SequenceOf(m) == sequence && KindOf(m) == family
    requires family != NLMSG_ERROR && family != NLMSG_OVERRUN && Decode(m).Ok?
    ensures ParseAll(family, sequence, [Record(m)]) == Ok([Decode(m).value])
  {
    var items := [Record(m)];
    assert items[0] == Record(m) && items[1..] == [];
    assert Accept(family, sequence, items[0]) == Yield(Decode(m).value);
    assert ParseAll(family, sequence, items[1..]) == Ok([]);
    assert [Decode(m).value] + [] == [Decode(m).value];
  }

  /** Attribute trees of any depth survive `build_message` and repeated parsing. */
  lemma TreesRoundTrip(kind: u16, sequence: u32, command: byte, version: byte, flags: u16, trees: seq<Tree>)
    requires kind != NLMSG_ERROR && kind != NLMSG_OVERRUN
    requires forall tree <- trees :: Encodable(tree)
    requires PAYLOAD + |EncodeAttributes(BuildAll(trees))| < 0x1_0000_0000
    ensures var parsed := ParseAll(kind, sequence,
                            ItemsAt(MessageBytes(kind, sequence, command, version, flags, BuildAll(trees)), 0));
            && parsed.Ok? && |parsed.value| == 1 && parsed.value[0].command == command
            && |parsed.value[0].attributes| == |trees|
            && forall i :: 0 <= i < |trees| ==> Recovers(trees[i], parsed.value[0].attributes[i])
  {
    var attributes := BuildAll(trees);
    forall a | a in attributes ensures Fits(a) {
      var i :| 0 <= i < |trees| && a == Build(trees[i]);
      assert Encodable(trees[i]);
    }
    MessageRoundTrip(kind, sequence, command, version, flags, attributes);
    forall i | 0 <= i < |trees| ensures Recovers(trees[i], Masked(attributes)[i]) {
      TreeRoundTrip(trees[i]);
    }
  }
}
