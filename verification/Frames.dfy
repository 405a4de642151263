/**
 Netlink framing (section 2.3.2 of RFC 3549): how a datagram falls apart into records,
 and a kernel socket as a queue of datagrams still to be received.
 */
module Frames {
  import opened Words

  const MESSAGE_HEADER: nat := 16
  const RECEIVE_BUFFER: nat := 64 * 1024
  const NLMSG_ERROR: u16 := 2
  const NLMSG_DONE: u16 := 3
  const NLMSG_OVERRUN: u16 := 4

  /** The kinds of `io::Error` the loops return; Blocked stands for a receive that waits forever. */
  datatype Error = InvalidData | Overrun | Interrupted | Os(code: int) | UnexpectedEof | NotFound | Blocked

  /** One record: a header and the payload its length field covers. */
  type Frame = m: seq<byte> | |m| >= MESSAGE_HEADER witness Zeros(MESSAGE_HEADER)

  function LengthOf(m: Frame): u32 { Word32(m) }

  function KindOf(m: Frame): u16 { Word16(m[4..]) }

  function FlagsOf(m: Frame): u16 { Word16(m[6..]) }

  function SequenceOf(m: Frame): u32 { Word32(m[8..]) }

  function HeaderBytes(length: u32, kind: u16, flags: u16, sequence: u32): (b: seq<byte>)
    ensures |b| == MESSAGE_HEADER
  {
    Bytes32(length) + Bytes16(kind) + Bytes16(flags) + Bytes32(sequence) + Zeros(4)
  }

  /** Where each header field lies, byte by byte. */
  lemma HeaderIsAt(m: Frame)
    ensures var b: seq<int> := m;
            && LengthOf(m) == b[0] + 0x100 * b[1] + 0x1_0000 * b[2] + 0x100_0000 * b[3]
            && KindOf(m) == b[4] + 0x100 * b[5]
            && FlagsOf(m) == b[6] + 0x100 * b[7]
            && SequenceOf(m) == b[8] + 0x100 * b[9] + 0x1_0000 * b[10] + 0x100_0000 * b[11]
  {}

  lemma HeaderFields(length: u32, kind: u16, flags: u16, sequence: u32, payload: seq<byte>)
    ensures var m: Frame := HeaderBytes(length, kind, flags, sequence) + payload;
            && LengthOf(m) == length && KindOf(m) == kind
            && FlagsOf(m) == flags && SequenceOf(m) == sequence
  {
    var m: Frame := HeaderBytes(length, kind, flags, sequence) + payload;
    Word32OfBytes(length);
    Word16OfBytes(kind);
    Word16OfBytes(flags);
    Word32OfBytes(sequence);
    SamePrefix32(m, Bytes32(length));
    assert m[4..][..2] == Bytes16(kind);
    assert m[6..][..2] == Bytes16(flags);
    assert m[8..][..4] == Bytes32(sequence);
    SamePrefix32(m[8..], Bytes32(sequence));
  }

  lemma SamePrefix32(b: seq<byte>, w: seq<byte>)
    requires |w| == 4 && |b| >= 4 && b[..4] == w
    ensures Word32(b) == Word32(w)
  {
    assert b[0] == b[..4][0] && b[1] == b[..4][1] && b[2] == b[..4][2] && b[3] == b[..4][3];
  }

  /** The i32 at the start of the payload, if the record is long enough to have one. */
  function ErrorCode(m: Frame): Option<int> {
    if |m| < MESSAGE_HEADER + 4 then None else Some(Signed32(Word32(m[MESSAGE_HEADER..])))
  }

  /** `-error` on an i32, as it wraps for the most negative code. */
  function Negated(error: int): int {
    if error == -0x8000_0000 then error else -error
  }

  /** `parse_netlink_error` and `parse_error`: a zero code is an acknowledgement. */
  function ReportedError(m: Frame): Option<Error> {
    match ErrorCode(m)
    case None => Some(InvalidData)
    case Some(error) => if error == 0 then None else Some(Os(Negated(error)))
  }

  /** The error code an i32 field stands for, given the bytes of the field as an unsigned word. */
  function CodeOf(word: u32): int {
    if word > 0x8000_0000 then 0x1_0000_0000 - word else 0 - word
  }

  /** A code is reported with its sign turned, zero is no error, and a record without a code is malformed. */
  lemma ErrorsAreReported(m: Frame, a: byte, b: byte, c: byte, d: byte)
    ensures |m| < 20 ==> ReportedError(m) == Some(InvalidData) && ErrorCode(m) == None
    ensures |m| >= 20 && m[16..20] == [a, b, c, d] ==>
              var word: u32 := a + 0x100 * b + 0x1_0000 * c + 0x100_0000 * d;
              && ReportedError(m) == (if word == 0 then None else Some(Os(CodeOf(word))))
              && ErrorCode(m).Some? && (ErrorCode(m).value == 0 <==> word == 0)
              && Negated(ErrorCode(m).value) == CodeOf(word)
  {
    if |m| >= 20 && m[16..20] == [a, b, c, d] {
      assert m[16..][..4] == m[16..20];
      SamePrefix32(m[16..], [a, b, c, d]);
      LittleEndian(a, b, c, d);
    }
  }

  // ---- Datagrams as lists of records ----

  datatype Item = Record(message: Frame) | Broken(error: Error)

  /** What a walk from `offset` meets: records, and at most one impossible length at the end. */
  function ItemsAt(response: seq<byte>, offset: nat): seq<Item>
    decreases |response| - offset
  {
    if |response| < offset + MESSAGE_HEADER then []
    else
      var length := LengthOf(response[offset..]);
      if length < MESSAGE_HEADER || length > |response| - offset then [Broken(InvalidData)]
      else [Record(response[offset..offset + length])] + ItemsAt(response, offset + AlignTo4(length))
  }

  /** The offsets at which that walk reads a header. */
  function OffsetsAt(response: seq<byte>, offset: nat): seq<nat>
    decreases |response| - offset
  {
    if |response| < offset + MESSAGE_HEADER then []
    else
      var length := LengthOf(response[offset..]);
      if length < MESSAGE_HEADER || length > |response| - offset then [offset]
      else [offset] + OffsetsAt(response, offset + AlignTo4(length))
  }

  ghost predicate VisitedInBounds(response: seq<byte>, offset: nat, item: Item) {
    && offset % 4 == 0
    && offset + MESSAGE_HEADER <= |response|
    && (item.Record? ==>
          && offset + |item.message| <= |response|
          && item.message == response[offset..offset + |item.message|]
          && LengthOf(item.message) == |item.message|)
  }

  lemma OneOffsetPerItem(response: seq<byte>, offset: nat)
    ensures |OffsetsAt(response, offset)| == |ItemsAt(response, offset)|
    decreases |response| - offset
  {}

  lemma FirstVisit(response: seq<byte>, offset: nat)
    requires offset % 4 == 0 && ItemsAt(response, offset) != []
    ensures OffsetsAt(response, offset)[0] == offset
    ensures VisitedInBounds(response, offset, ItemsAt(response, offset)[0])
  {
    var length := LengthOf(response[offset..]);
    if MESSAGE_HEADER <= length <= |response| - offset {
      var message: Frame := response[offset..offset + length];
      assert response[offset..][..4] == message[..4];
      SamePrefix32(response[offset..], message[..4]);
      SamePrefix32(message, message[..4]);
    }
  }

  /**
   On arbitrary bytes the walk reads aligned headers inside the buffer, each record starts
   where the previous one and its padding end, and it stops with fewer than 16 bytes left
   unless a declared length was impossible.
   */
  lemma {:induction false} VisitsConsecutiveRecords(response: seq<byte>, offset: nat, i: nat)
    requires offset % 4 == 0
    requires i < |ItemsAt(response, offset)| == |OffsetsAt(response, offset)|
    ensures var offsets, items := OffsetsAt(response, offset), ItemsAt(response, offset);
            && VisitedInBounds(response, offsets[i], items[i])
            && (i + 1 < |items| ==>
                  items[i].Record? && offsets[i + 1] == offsets[i] + AlignTo4(|items[i].message|))
            && (i + 1 == |items| && items[i].Record? ==>
                  |response| < offsets[i] + AlignTo4(|items[i].message|) + MESSAGE_HEADER)
    decreases i
  {
    hide Word32, Word16, AlignTo4;
    FirstVisit(response, offset);
    var offsets, items := OffsetsAt(response, offset), ItemsAt(response, offset);
    if items[0].Record? {
      var next: nat := offset + AlignTo4(|items[0].message|);
      var offsets', items' := OffsetsAt(response, next), ItemsAt(response, next);
      assert offsets == [offset] + offsets' && items == [items[0]] + items';
      OneOffsetPerItem(response, next);
      if i > 0 {
        VisitsConsecutiveRecords(response, next, i - 1);
        assert offsets[i] == offsets'[i - 1] && items[i] == items'[i - 1];
        assert i + 1 < |items| ==> offsets[i + 1] == offsets'[i];
      } else if items' != [] {
        FirstVisit(response, next);
      }
    }
  }

  /** A length field below 16 or beyond the datagram breaks the walk, and nothing else does. */
  lemma BrokenIff(response: seq<byte>, offset: nat)
    requires |response| >= offset + 16
    ensures ItemsAt(response, offset) == [Broken(InvalidData)]
       <==> LengthOf(response[offset..]) < 16 || LengthOf(response[offset..]) > |response| - offset
  {
    hide LengthOf;
    var length := LengthOf(response[offset..]);
    if 16 <= length <= |response| - offset {
      assert ItemsAt(response, offset)[0].Record?;
    }
  }

  // ---- Records back to datagrams ----

  predicate WellFormed(m: Frame) {
    LengthOf(m) == |m|
  }

  function Padded(m: Frame): seq<byte> {
    m + Zeros(AlignTo4(|m|) - |m|)
  }

  function Wire(messages: seq<Frame>): seq<byte> {
    if messages == [] then [] else Padded(messages[0]) + Wire(messages[1..])
  }

  function Records(messages: seq<Frame>): (items: seq<Item>)
    ensures |items| == |messages|
  {
    seq(|messages|, i requires 0 <= i < |messages| => Record(messages[i]))
  }

  lemma FirstRecord(prefix: seq<byte>, m: Frame, rest: seq<byte>)
    requires WellFormed(m)
    ensures var response, offset := prefix + Padded(m) + rest, |prefix|;
            && offset + |m| <= |response|
            && LengthOf(response[offset..]) == |m|
            && response[offset..offset + |m|] == m
  {
    var response, offset := prefix + Padded(m) + rest, |prefix|;
    assert response[offset..offset + |m|] == m;
    assert response[offset..][..4] == m[..4];
    SamePrefix32(response[offset..], m[..4]);
    SamePrefix32(m, m[..4]);
  }

  /** Padded well-formed records come apart into exactly themselves; a short tail is ignored. */
  lemma {:induction false} WireComesApart(prefix: seq<byte>, messages: seq<Frame>, tail: seq<byte>)
    requires forall m <- messages :: WellFormed(m)
    requires |tail| < MESSAGE_HEADER
    ensures ItemsAt(prefix + Wire(messages) + tail, |prefix|) == Records(messages)
    decreases messages
  {
    hide Word32, Word16, AlignTo4;
    var response := prefix + Wire(messages) + tail;
    if messages == [] {
    } else {
      var m, rest := messages[0], messages[1..];
      var next := prefix + Padded(m);
      FirstRecord(prefix, m, Wire(rest) + tail);
      assert response == prefix + Padded(m) + (Wire(rest) + tail);
      assert response == next + Wire(rest) + tail;
      WireComesApart(next, rest, tail);
      assert Records(messages) == [Record(m)] + Records(rest);
    }
  }

  // ---- The socket ----

  /** What the next receive call finds: bytes, an interrupting signal, or another errno. */
  datatype Arrival = Datagram(bytes: seq<byte>) | Signal | Failure(code: int)

  /** recv copies no more than the buffer holds. */
  function Copied(bytes: seq<byte>): seq<byte> {
    if |bytes| <= RECEIVE_BUFFER then bytes else bytes[..RECEIVE_BUFFER]
  }

  function Received(queue: seq<Arrival>): (r: (Result<seq<byte>, Error>, seq<Arrival>))
    ensures r.0.Ok? ==> |r.1| < |queue|
  {
    if queue == [] then (Err(Blocked), [])
    else match queue[0]
      case Signal => Received(queue[1..])
      case Failure(code) => (Err(Os(code)), queue[1..])
      case Datagram(bytes) => (if bytes == [] then Err(UnexpectedEof) else Ok(Copied(bytes)), queue[1..])
  }

  function ArrivalItems(arrival: Arrival): seq<Item> {
    match arrival
    case Signal => []
    case Failure(code) => [Broken(Os(code))]
    case Datagram(bytes) => if bytes == [] then [Broken(UnexpectedEof)] else ItemsAt(Copied(bytes), 0)
  }

  /** Everything that will be read from the queue, one record after the other. */
  function Stream(queue: seq<Arrival>): seq<Item> {
    if queue == [] then [] else ArrivalItems(queue[0]) + Stream(queue[1..])
  }

  lemma {:induction false} ReceivedIsNext(queue: seq<Arrival>)
    ensures var r, rest := Received(queue).0, Received(queue).1;
            && (r.Ok? ==> |rest| < |queue| && Stream(queue) == ItemsAt(r.value, 0) + Stream(rest))
            && (r == Err(Blocked) ==> Stream(queue) == [] && rest == [])
            && (r.Err? && r.error != Blocked ==> |rest| < |queue| && Stream(queue) == [Broken(r.error)] + Stream(rest))
  {
    if queue == [] {
    } else if queue[0].Signal? {
      ReceivedIsNext(queue[1..]);
    }
  }

  class Socket {
    var queue: seq<Arrival>

    constructor ()
      ensures queue == []
    {
      queue := [];
    }

    /** `receive`: retry after a signal, fail on an error or an empty read. */
    method Receive() returns (r: Result<seq<byte>, Error>)
      modifies this
      ensures r == Received(old(queue)).0 && queue == Received(old(queue)).1
    {
      while queue != []
        invariant Received(queue) == Received(old(queue))
        decreases |queue|
      {
        var arrival := queue[0];
        queue := queue[1..];
        match arrival {
          case Signal =>
          case Failure(code) => return Err(Os(code));
          case Datagram(bytes) =>
            if bytes == [] {
              return Err(UnexpectedEof);
            }
            return Ok(Copied(bytes));
        }
      }
      return Err(Blocked);
    }

    /** The kernel queues more arrivals. */
    method Deliver(arrivals: seq<Arrival>)
      modifies this
      ensures queue == old(queue) + arrivals
    {
      queue := queue + arrivals;
    }
  }

  /** Signals are waited out; an errno, an empty read and silence are told apart. */
  lemma ReceiveOutcomes(code: int, bytes: seq<byte>, rest: seq<Arrival>)
    ensures Received([Signal, Failure(code)] + rest) == (Err(Os(code)), rest)
    ensures Received([Signal, Datagram(bytes)] + rest)
         == (if |bytes| == 0 then Err(UnexpectedEof) else Ok(Copied(bytes)), rest)
    ensures Received([Signal]) == (Err(Blocked), [])
  {
    assert ([Signal, Failure(code)] + rest)[1..] == [Failure(code)] + rest;
    assert ([Signal, Datagram(bytes)] + rest)[1..] == [Datagram(bytes)] + rest;
    assert [Signal][1..] == [];
  }

  /** A record longer than the 64 KiB buffer arrives cut off, and its length field then fails the walk. */
  lemma OversizedRecordBreaks(m: Frame)
    requires WellFormed(m) && |m| > 0x1_0000
    ensures ArrivalItems(Datagram(Padded(m))) == [Broken(InvalidData)]
  {
    hide LengthOf, Padded, AlignTo4;
    FirstRecord([], m, []);
    assert [] + Padded(m) + [] == Padded(m);
    var copy := Copied(Padded(m));
    assert |copy| == 0x1_0000;
    HeaderIsAt(m);
    HeaderIsAt(copy);
    assert copy[0..] == copy && Padded(m)[0..|m|] == m;
    assert copy[..16] == m[..16];
    assert forall i :: 0 <= i < 16 ==> copy[..16][i] == copy[i] && m[..16][i] == m[i];
    BrokenIff(copy, 0);
  }
}
