# networkrs: netlink dumps, the probe pool, JSON, checksums, CIDR scans, and encodings that must agree

networkrs is a Linux network inspection tool that speaks netlink, procfs and raw sockets without
helper libraries. This project models the parts of it in which a mistake would be silent, and proves
what they promise: for every buffer, every queue of datagrams, every interleaving of workers, every
value tree, every address and prefix.

`dafny verify dfyconfig.toml` checks all of it.

## How the model is laid out

- **Netlink framing.** `Attributes` is the length-prefixed, four-byte-aligned attribute format: the
  loops that append to a byte vector and pad it, the loop that walks it with an offset, and trees of
  nested attributes. `Frames` is the record header (section 2.3.2 of RFC 3549), the walk over a
  datagram, and a `Socket` whose queue holds what the kernel has sent and is still going to send.
- **Dumps.** `Dump` defines a one-pass reference, `Run`, over the records of a whole stream, and proves
  the nested offset loops of `receive_dump` against it. `DatagramDump` does the same for the loops that
  the neighbor and address dumps use, which stop reading a datagram at an acknowledgement.
  `GenericNetlink` and `Client` are the generic-netlink client, a class that increments its sequence
  number and passes over every datagram twice; `Session` is about whole runs of its requests.
- **Probing.** `Pool` is a transition system for the workers that share a counter and a result vector;
  `Ports` is the parser that produces the pool's input, and the two composed.
- **JSON.** `Json` is the printer, `JsonParser` a reference parser for sections 2 to 7 of RFC 8259,
  `JsonRoundTrip` the proof that the second undoes the first.
- **Word arithmetic.** `Ping` is the Internet checksum (section 1 of RFC 1071), the echo request and
  the reply accounting; `Scanner` is CIDR arithmetic (section 3.1 of RFC 4632; /31 as in section 2.1
  of RFC 3021), the host search and the probing loop.
- **Redundant encodings.** `Ethtool` (four encodings of a bitset), `Endpoints` (procfs text against raw
  kernel words), `Flags` (flag words printed as text that is split again), `Resolver` (chunked against
  sequential lookup) and `Watch` (two event handlers with a name map each).
- `Examples` states the inputs and outputs of the source's own unit tests as lemmas.
- `Words`, `Numbers`, `Bits`, `Lists`, `Sorting` and `Text` hold fixed-width words, ranges and products,
  the bitwise operators, list and sorting facts, and the string functions of the standard library the source relies on.

Conventions: words are bounded integers, and a cast that truncates in the source is written as a
remainder. Bitwise operators are defined bit by bit in `Bits` (or on `bv32` in `Flags`), and where the
model computes with remainders instead, a lemma says that this is the source's mask. Native-endian
fields are little-endian. Calls into the system are inputs: a receive call takes the next arrival
(bytes, a signal, an errno) from a queue and reports `Blocked` where the program would wait forever; a
read copies at most 64 KiB; a probe, a name lookup and the parser of one record are arbitrary functions.
Error messages are dropped and the kinds of errors kept.

## What the proofs found

- An attribute value longer than 65531 bytes has its length truncated to 16 bits and cannot be read
  back; every shorter one can. `Attributes.RoundTripIffFits` is an equivalence,
  `Attributes.OversizedValueIsLost` an input that is lost.
- Ending a datagram at an acknowledgement (src/netlink.rs:1887) is unobservable exactly when only
  records that the dump skips come after it; `DatagramDump.ClippingIsInvisibleIffHarmless` for one
  datagram, `DatagramDump.LoopsAgreeIffHarmless` for a stream. `DatagramDump.AckHidesCompletion` is an
  input on which the loop waits forever.
- The generic client keeps parsing after a completion record. It returns what a one-pass dump returns
  exactly when nothing with a meaning for the request follows that record in its datagram;
  `Client.TwoPassesRefineOnePassIff`, with an input on which it does not in `Client.MessageAfterDone`.
- A message of another request is never returned, but a datagram left unread shifts the conversation:
  a request for a single reply that finds one returns an empty list and leaves its own reply behind.
  By `Session.OwnReplyIff` a request in any run returns its own reply exactly when it is a dump, was not
  sent, finds nothing left over, or has an empty reply. A dump that fails leaves the rest of its answer
  (`Session.AbortedDumpLosesReply`); a dump whose own answer is read to its end drains the backlog and
  ends the shift (`Session.DumpRealigns`); without one it lasts (`Session.LagPersists`). Leftovers are
  complete datagrams here; one with an impossible length fails the request that reads it.
- Echo reads one packet per attempt. After one reply that arrives during the next attempt, every later
  reply is counted as missing, prompt as it may be; `Ping.OneLateReply`.
- A bitset sent as an index-only NOMASK list decodes to no names, which is right exactly for the empty
  set; `Ethtool.IndexListDecodesIffEmpty`, with an input in `Ethtool.IndexListIsLost`. The other
  four encodings all decode to the same answer.
- The 32-bit checksum accumulator suffices for buffers up to 131074 bytes and for no longer length;
  `Ping.SumFitsIff`.

## Model

| member | source | states |
|---|---|---|
| Attributes.AppendAttribute | src/generic_netlink.rs:55-65 | the loop body shared by `nested` and `build_message` extends an aligned vector by exactly one encoded attribute and leaves it aligned |
| Attributes.AppendAttributes | src/generic_netlink.rs:278-290 | the appending loop extends an aligned vector by the encodings of all attributes, in order |
| Attributes.Nested | src/generic_netlink.rs:51-70 | a nested attribute's value is the encoding of its children, its kind carries NLA_F_NESTED |
| Attributes.ParseAttributes | src/generic_netlink.rs:447-464 | on arbitrary bytes the offset loop ends and returns the attributes of the recursive walk, or nothing if a declared length does not fit |
| Attributes.RoundTripIffFits | src/generic_netlink.rs:54-64 | parsing appended attributes gives them back, kinds masked, if and only if every value fits the 16-bit length field |
| Attributes.AttributeLayout | src/generic_netlink.rs:54-64 | byte by byte: length and kind with the low byte first, the value, then zeros up to the next multiple of four |
| Attributes.ShortTailIsIgnored | src/generic_netlink.rs:451 | fewer than four bytes after the last attribute are ignored |
| Attributes.OversizedValueIsLost | src/generic_netlink.rs:57 | a concrete input: a value one byte too long makes its parent unreadable |
| Attributes.TreeRoundTrip | src/generic_netlink.rs:207-209 | re-applying `nested_attributes` recovers every child list of an attribute tree of any depth |
| Attributes.MaskedKindIsAnd | src/generic_netlink.rs:458 | the remainder the model uses for kinds is the bitwise NLA_TYPE_MASK |
| Attributes.NestedKindIsOr | src/generic_netlink.rs:67 | setting the nested flag arithmetically is the bitwise union |
| Attributes.AlignTo4IsMask | src/generic_netlink.rs:504-506 | rounding up to a multiple of four is `(length + 3) & !3` on words of any width that hold the sum |
| Frames.HeaderFields | src/generic_netlink.rs:291-300 | each header field is read back from where it was written |
| Frames.HeaderIsAt | src/netlink.rs:1802-1809 | which bytes of a record hold its length, kind, flags and sequence, low byte first |
| Frames.BrokenIff | src/netlink.rs:1810-1815 | a walk breaks with InvalidData if and only if a length is below 16 or beyond the datagram |
| Frames.ErrorsAreReported | src/netlink.rs:1964-1972 | a nonzero error word is reported with its sign turned, zero is no error, and a record too short for the word is malformed |
| Frames.ReceiveOutcomes | src/netlink.rs:1761-1787 | signals are waited out, and an errno, an empty read, data and silence are told apart |
| Frames.OversizedRecordBreaks | src/netlink.rs:1797-1815 | a record longer than the 64 KiB buffer arrives cut off and breaks the walk |
| Frames.VisitsConsecutiveRecords | src/generic_netlink.rs:369-418 | on arbitrary bytes the walk stays in bounds, visits aligned consecutive records, and stops with fewer than 16 bytes left or at an impossible length |
| Frames.WireComesApart | src/netlink.rs:1801-1848 | padded well-formed records come apart into exactly themselves; a tail shorter than a header is ignored |
| Frames.Socket.Receive | src/netlink.rs:1761-1787 | a receive retries after signals and otherwise consumes exactly one arrival, failing on an errno or an empty read |
| Frames.ReceivedIsNext | src/sock_diag.rs:373-399 | what a receive returns is the front of the stream of records, and the rest of the stream is what stays queued |
| Dump.ReceiveDump | src/netlink.rs:1789-1850 | the nested loops return what the one-pass reference returns on the whole stream, and leave the arrivals after the last one they read; without the DONE check this is src/sock_diag.rs:327-371 |
| Dump.RecordsAreCollected | src/netlink.rs:1839-1843 | a dump collects what the parser makes of every record of its sequence and type, in order, and drops the others |
| Dump.CompletedDump | src/netlink.rs:1789-1850 | datagrams whose records end in DONE yield exactly those values, whatever follows |
| Dump.ControlRecords | src/netlink.rs:1816-1838 | what DONE, error and overrun records do, by kind, flag 0x10 and error word, with and without the DONE check |
| Dump.RunIsDecidedByFirstStop | src/netlink.rs:1789-1850 | the outcome is the usable records of the expected sequence and type before the first DONE, error, overrun or bad length, and that record decides success |
| Dump.RegroupingInvariance | src/netlink.rs:1789-1850 | two ways of cutting a stream of records into datagrams give the same outcome |
| Dump.CutStream | src/netlink.rs:1798-1848 | any cut of well-formed records into datagrams is read as those records in order |
| Dump.ForeignRecordsChangeNothing | src/netlink.rs:1816 | records of other sequences can be inserted anywhere in the stream |
| Dump.ForeignRecordsOnTheWire | src/netlink.rs:1789-1850 | the same for bytes: with or without foreign records, in any datagrams, the dump ends alike |
| DatagramDump.ParseResponse | src/netlink.rs:1852-1906 | one datagram contributes the values before its first stop or acknowledgement, and completes, fails or continues the dump accordingly; also the address loop of src/netlink.rs:1908-1962 |
| DatagramDump.ReceiveByDatagram | src/netlink.rs:602-641 | the receive loop returns the one-pass outcome of the stream whose datagrams end at their first acknowledgement |
| DatagramDump.CompletedByDatagram | src/netlink.rs:1893-1897 | the datagram loops collect the same values from a stream without acknowledgements that ends in DONE |
| DatagramDump.RunDatagram | src/netlink.rs:631-639 | running over a stream is running over its first datagram and, unless that stops, over the rest |
| DatagramDump.InertIffInvisible | src/netlink.rs:1862-1904 | records are invisible before every continuation if and only if each of them is skipped |
| DatagramDump.ClippingIsInvisibleIffHarmless | src/netlink.rs:1887 | ending a datagram at its acknowledgement is unobservable if and only if only skipped records come after it or it is never reached |
| DatagramDump.DatagramLoopAgrees | src/netlink.rs:678-683 | the datagram loops return what `receive_dump` returns on every stream whose acknowledgements are harmless up to the datagram that ends the dump |
| DatagramDump.LastAckIsHarmless | src/netlink.rs:1887 | acknowledgements that come last in their datagrams are harmless |
| DatagramDump.LastAcksAreHarmless | src/netlink.rs:1887 | so are all acknowledgements of a stream whose datagrams end at them |
| DatagramDump.LoopsAgreeIffHarmless | src/netlink.rs:608-639 | the two kinds of loop agree at every point of a stream, however it goes on, if and only if its acknowledgements are harmless up to the end of the dump |
| DatagramDump.AckHidesCompletion | src/netlink.rs:1887 | a concrete input: with an acknowledgement and DONE in one datagram `receive_dump` returns an empty list and the other loops wait forever |
| GenericNetlink.BuildMessage | src/generic_netlink.rs:261-301 | the vector filled in place, header last, is header, command, version and encoded attributes |
| GenericNetlink.BuiltHeader | src/generic_netlink.rs:270-300 | the built message has these kind, flags, sequence, command and version, port 0, its own length, and then the attributes |
| GenericNetlink.ParseMessages | src/generic_netlink.rs:363-421 | on arbitrary bytes the loop returns the messages of all records, or the first error or overrun |
| GenericNetlink.MalformedReply | src/generic_netlink.rs:382-418 | a record of the family that is shorter than 20 bytes or has a malformed attribute fails the request with InvalidData |
| GenericNetlink.ResponseHasDone | src/generic_netlink.rs:423-445 | the second pass finds a completion record before any impossible length, or reports its absence |
| GenericNetlink.CompletionScanCannotFail | src/generic_netlink.rs:194-203 | after a successful first pass the second pass succeeds, with true if and only if a completion record is present |
| GenericNetlink.MessageRoundTrip | src/generic_netlink.rs:261-301 | parsing a built message yields exactly one message with the same command and attributes |
| GenericNetlink.TreesRoundTrip | src/generic_netlink.rs:51-70 | attribute trees survive `build_message`, `parse_messages` and repeated `nested_attributes` |
| Client.GenericClient.Request | src/generic_netlink.rs:175-204 | a request increments the wrapping sequence number, sends a message under it, and returns and leaves queued what the conversation over the queue says |
| Client.RequestAsks | src/generic_netlink.rs:183-191 | the kernel finds flags 0x301 in a dump request and 0x001 in any other, with the family, number, command, version and attributes of the call |
| Client.GenericClient.Connect | src/generic_netlink.rs:138-173 | connecting sends the family request under number 1 and fails, or ends in a fresh client with the identifier the reply resolves to, number 1 in use and the rest of the answer queued |
| Client.FamilyRequestNames | src/generic_netlink.rs:140-152 | whoever parses the family request finds the command and the NUL-terminated name |
| Client.FamilyRequestAsks | src/generic_netlink.rs:142-152 | the family request goes to type 0x10 with flags 1, sequence 1, command 3 and version 1 |
| Client.FamilyReplyResolves | src/generic_netlink.rs:154-167 | a built reply resolves to its first identifier of two bytes or more, or to NotFound if it has none, and leaves later arrivals queued |
| Client.IdentifierIsFound | src/generic_netlink.rs:156-161 | an identifier after attributes of other kinds is the one found, whatever follows it |
| Client.GenericClient.constructor | src/generic_netlink.rs:168-172 | a new client holds the socket and the identifier, with sequence number 1 in use |
| Client.StoppingDatagramEnds | src/generic_netlink.rs:194-203 | a datagram that stops the one-pass dump fails in the first pass or is found complete by the second |
| Client.StoppingDatagram | src/generic_netlink.rs:194-203 | in that datagram the first pass agrees with the one-pass dump if and only if only quiet records follow a completion |
| Client.TwoPassesRefineOnePassIff | src/generic_netlink.rs:194-203 | the client's dump equals the one-pass dump if and only if nothing with a matching sequence and a meaning follows DONE in its datagram |
| Client.SameUnread | src/generic_netlink.rs:193-203 | the client leaves exactly the arrivals unread that the one-pass dump leaves |
| Client.MessageAfterDone | src/generic_netlink.rs:382-418 | a concrete input: with a message after DONE in one datagram the client returns it and the one-pass dump does not |
| Session.ConverseSource | src/generic_netlink.rs:380 | every message a request returns was carried by a record under the request's own number |
| Session.BacklogAges | src/generic_netlink.rs:175-204 | what a request leaves queued, late arrivals included, is at most one request older than what it found |
| Session.SequenceIsolation | src/generic_netlink.rs:175-204 | in a run of fewer than 2^32 requests, dumps and single replies mixed, with leftovers, late parts of earlier answers and failed sends, the n-th request returns only messages that arrived during it under its own number |
| Session.StaleDatagramIsEmpty | src/generic_netlink.rs:380 | a stale datagram answers a single-reply request with an empty list, and a dump reads past it |
| Session.DumpReadsPastBacklog | src/generic_netlink.rs:193-203 | a dump returns the same with any backlog of stale datagrams and signals in front of its answer |
| Session.OwnDatagram | src/generic_netlink.rs:200-202 | on a clean socket a single-reply request returns the messages of its datagram and leaves nothing |
| Session.InStep | src/generic_netlink.rs:175-204 | in a run of single-reply requests from a clean socket each returns its own reply |
| Session.LagPersists | src/generic_netlink.rs:175-204 | with one leftover datagram, requests for single replies return empty lists as long as no dump comes between, and the backlog keeps its length |
| Session.OwnReplyIff | src/generic_netlink.rs:175-204 | in a run of any requests, dumps and failed sends among them, the n-th returns what it would on a clean socket if and only if it is a dump, was not sent, finds no datagram left over, or would return an empty list anyway |
| Session.ResultAt | src/generic_netlink.rs:175-204 | the n-th result of a run depends on the earlier requests only through what they left unread |
| Session.BacklogComesFrom | src/generic_netlink.rs:175-204 | what a run leaves unread was in the socket or arrived as an answer |
| Session.RestIsLeft | src/generic_netlink.rs:194-203 | a request that ends in its first datagram, as a single reply, an aborted dump or a completed one, leaves all later ones |
| Session.LagStarts | src/wifi.rs:156-179 | after a request that left a datagram, an aborted dump for instance, the next request for one reply returns an empty list |
| Session.ReplyIsLost | src/generic_netlink.rs:200-202 | a concrete input: the first request is answered twice, and the second returns nothing although its reply holds a message |
| Session.AbortedDumpLosesReply | src/wifi.rs:156-179 | a concrete input: a dump overruns with one more datagram to come, its error is dropped, and the next request for one reply returns nothing |
| Session.DumpDrains | src/generic_netlink.rs:193-203 | a dump returns and leaves what it would on a clean socket, whatever stale datagrams it finds |
| Session.DumpRealigns | src/generic_netlink.rs:193-203 | after a dump that is read to its end the next request returns its own reply again |
| Session.RunCalls | src/generic_netlink.rs:175-204 | requests made one after the other on a client give the results, the backlog and the sequence number of the run |
| Pool.StepKeepsInv | src/main.rs:2154-2171 | every step of every worker keeps the invariant that counts claims, results, busy and exited workers |
| Pool.RunInv | src/main.rs:2144-2176 | the invariant holds in every reachable state, and the length of a run is determined by the state |
| Pool.ClaimedIndices | src/main.rs:2160 | in every interleaving an index is in flight or has a result if and only if it is below the counter and the number of ports |
| Pool.NoIndexClaimedTwice | src/main.rs:2160 | no index is with two workers, in two results, or in both places |
| Pool.BoundsInEveryRun | src/main.rs:2150-2164 | results plus probes in flight equal the claimed ports, at most 64 are in flight, and the counter never exceeds ports plus workers |
| Pool.BoundIsReached | src/main.rs:2156 | some interleaving has min(n, 64) probes in flight at once |
| Pool.NoDeadlock | src/main.rs:2157-2169 | until all workers have exited, one of them can step |
| Pool.RunsAreBounded | src/main.rs:2157-2169 | no interleaving takes more than three steps per port and one per worker |
| Pool.FinishedCounts | src/main.rs:2160-2163 | every complete run has the same length and leaves the counter at ports plus workers |
| Pool.FinishedHasAllResults | src/main.rs:2144-2176 | every complete interleaving collects the sequential results as a multiset |
| Pool.EveryInterleavingRefinesSequential | src/main.rs:2172-2175 | for ascending ports, sorting what any complete interleaving collected gives the sequential map, entry by entry |
| Pool.TcpProbePorts | src/main.rs:2144-2176 | the call, with its one-port shortcut and any schedule, returns the sequential results |
| Ports.InsertRange | src/main.rs:2041-2046 | the range loop adds the whole range unless it stops for having too many ports |
| Ports.InOrder | src/main.rs:2054 | collecting the set lists its members in strictly ascending order |
| Ports.ParseProbePorts | src/main.rs:2022-2055 | parsing succeeds if and only if every item is valid and the union has at most 4096 ports, and the result is that union, ascending, within 1..65535, whatever the two early aborts cut short |
| Ports.UnionMembers | src/main.rs:2022-2055 | a port is in the union if and only if some valid item covers it |
| Ports.OrderDoesNotMatter | src/main.rs:2024-2053 | reordering and repeating items changes neither the union nor whether all items are valid |
| Ports.ItemsAreASet | src/main.rs:2022-2055 | lists with the same items, in any order and any number of times, are parsed to the same list or error |
| Ports.CoveredPortsDecide | src/main.rs:2022-2055 | lists of valid items that cover the same ports, however they overlap, are parsed to the same list or error |
| Ports.AscendingIsUnique | src/main.rs:2054 | an ascending list is determined by its members |
| Ports.PortReads | src/main.rs:2057-2071 | every port in decimal is read back |
| Ports.PortIff | src/main.rs:2057-2071 | a text is a port if and only if it is decimal digits, after an optional plus sign, with a value from 1 to 65535 |
| Ports.RefusedItems | src/main.rs:2025-2031 | items of whitespace alone, port 0 and whatever is no port are refused |
| Ports.SinglePort | src/main.rs:2048-2049 | an item of one port with whitespace around it stands for that port |
| Ports.PortRange | src/main.rs:2030-2046 | two ports joined by a hyphen stand for all ports between them, or for an error in descending order |
| Ports.Probe | src/main.rs:2144-2176 | parser and pool composed: one result per port of the union, ascending, with its own outcome, in every interleaving |
| JsonRoundTrip.EscapedCharacter | src/json.rs:90-102 | the escape of every character reads back as that character, whatever follows, and never starts with a control character or a quotation mark |
| JsonRoundTrip.ShortestEscape | src/json.rs:90-102 | seven characters have two-character escapes, the other controls six characters with lower-case digits, and all others stand for themselves |
| JsonRoundTrip.CharactersOfEscaped | src/json.rs:87-105 | the escaped characters of any text, a quotation mark and any suffix read back as that text and that suffix |
| Json.WriteString | src/json.rs:87-105 | the loop appends the quoted, escaped text |
| Json.Write | src/json.rs:41-70 | the printer appends the text of the tree to any output |
| Json.WriteItems | src/json.rs:47-56 | the loop over an array appends its elements, separated by commas |
| Json.WriteFields | src/json.rs:57-68 | the loop over an object appends its names and values, separated by commas |
| Json.RenderToString | src/json.rs:35-39 | `render` is the text of the tree |
| JsonRoundTrip.RoundTrip | src/json.rs:35-105 | parsing a rendered value followed by any text that does not continue a number returns the value and that text |
| JsonRoundTrip.TextRoundTrip | src/json.rs:35-39 | a rendered value is a complete JSON text for that value |
| JsonRoundTrip.TextRoundTripIff | src/json.rs:22-24 | a tree survives printing and parsing if and only if its number strings are number tokens |
| JsonRoundTrip.RenderIsInjective | src/json.rs:35-39 | different trees have different texts |
| JsonRoundTrip.CompactItems | src/json.rs:47-56 | an array is as long as its elements, one comma between two of them, and its brackets |
| JsonRoundTrip.CompactFields | src/json.rs:57-68 | an object is as long as its quoted names and values, a colon for each, one comma between two, and its braces |
| JsonRoundTrip.RenderHasNoControls | src/json.rs:90-102 | no character below U+0020 is ever emitted |
| JsonRoundTrip.RecordsRoundTrip | JSON.md:3-5 | cutting a printed stream at newlines and parsing each line gives back exactly the records |
| Ping.Checksum | src/ping.rs:163-173 | the accumulating and folding loops compute the complement of the folded word sum, for odd lengths too |
| Ping.WordsAreBigEndian | src/ping.rs:165-167 | the sum takes bytes as big-endian pairs and pads the last one with zero |
| Ping.FoldIsBitwise | src/ping.rs:170 | the remainder the fold uses is `sum & 0xffff` |
| Ping.ComplementIsNot | src/ping.rs:172 | the complement is `!` on 16 bits |
| Ping.FoldedIsResidue | src/ping.rs:169-171 | folding keeps the sum modulo 65535, choosing 1..65535 for every positive sum |
| Ping.SumFitsIff | src/ping.rs:164-168 | the u32 accumulator cannot overflow if and only if the buffer has at most 131074 bytes |
| Ping.PassesIff | src/ping.rs:163-173 | a buffer's checksum is zero if and only if its words sum to a positive multiple of 65535 |
| Ping.StoredChecksumPasses | src/ping.rs:153-161 | storing the checksum of a buffer in its zeroed field, at any even offset, makes the whole buffer's checksum zero |
| Ping.ChangedWordPassesIff | src/ping.rs:163-173 | changing one word goes unnoticed if and only if 0x0000 and 0xffff are exchanged and the new sum is not zero |
| Ping.EchoRequest | src/ping.rs:153-161 | the array filled in place has type 8, code 0, identifier 0, this sequence number, the bytes of networkr, and checksum zero |
| Ping.Echo | src/ping.rs:70-150 | each attempt reads the oldest arrival of the socket if there is one; the loop stops at the first failed send or poll and otherwise summarizes the times of exactly the attempts that read their own reply |
| Ping.CountsIff | src/ping.rs:127-131 | a packet counts for an attempt if and only if it has eight bytes, type 0, and the low 16 bits of the attempt's number at bytes 6 and 7 |
| Ping.AnsweredAttempts | src/ping.rs:84-133 | if each attempt gets its own reply, all times are collected and all replies counted |
| Ping.LagOfReplies | src/ping.rs:112-131 | with every reply prompt, all are counted if the number of replies still waiting is a multiple of 2^16, and none otherwise |
| Ping.OneLateReply | src/ping.rs:112-131 | after one reply that arrives during the next attempt, every later reply counts as missing |
| Ping.SummaryIsSound | src/ping.rs:134-150 | minimum and maximum are measured times that bound all others, and the mean lies between them |
| Ping.AverageIsMean | src/ping.rs:135-143 | the average is the sum of the times over their number, rounded down, or the largest u64 |
| Scanner.BlockValue | src/scanner.rs:62-83 | masking clears the host bits, the complement of the mask fills them, and nothing leaves 32 bits |
| Scanner.CidrBlock | src/scanner.rs:62-83 | network and broadcast bound the aligned block of 2^(32 - prefix) addresses around the CIDR address |
| Scanner.ContainsIffMaskedBitsMatch | src/scanner.rs:105-108 | an address lies in the block if and only if its masked bits match |
| Scanner.ForCidrIsIdempotent | src/main.rs:1771-1816 | building a network from an already masked address changes nothing |
| Scanner.HostBoundsFit | src/scanner.rs:89-95 | host bounds neither wrap nor invert and leave out two addresses exactly for prefixes up to 30 |
| Scanner.TargetCountIsCardinality | src/scanner.rs:98-102 | the closed form is the number of addresses between the bounds other than the local one, which may lie outside |
| Scanner.CidrTargetCount | src/scanner.rs:98-102 | for every prefix 0 to 32 that number is 2^(32 - prefix), less two through /30, less one for a local address between the bounds |
| Scanner.TotalTargetsAreAll | src/scanner.rs:129 | the total that decides acceptance is the number of targets of all networks |
| Scanner.OneNetworkAccepted | src/scanner.rs:129-143 | a scan of one CIDR is accepted if and only if its prefix is 20 or more and it is not the /32 of the host itself |
| Scanner.NetworkProbesCount | src/scanner.rs:158-165 | a pass probes each target that is not excluded, once, and nothing else |
| Scanner.ProbesAscend | src/scanner.rs:160 | the addresses of a network are probed in ascending order |
| Scanner.PassesConcat | src/scanner.rs:157 | a pass probes one network after the other |
| Scanner.RepeatedAt | src/scanner.rs:156 | every pass is the same |
| Scanner.ProbeNetwork | src/scanner.rs:158-165 | the innermost loop sends to exactly those addresses, in order, up to 255.255.255.255 |
| Scanner.Scan | src/scanner.rs:128-168 | a scan is refused if and only if it has no targets or more than 4096, and otherwise repeats the pass `retries` times |
| Scanner.ScanIsBounded | src/scanner.rs:129-143 | an accepted scan sends `retries` datagrams per target not excluded, at most `retries * 4096` |
| Scanner.FirstNonLocalScanAddress | src/main.rs:1853-1880 | the search returns the least address in bounds that is not local, or nothing if and only if all are, without leaving u32 |
| Scanner.ScanProbeAddress | src/main.rs:1771-1792 | the same for the block of any CIDR, of every prefix |
| Ethtool.NamedEncodingsDecode | src/ethtool.rs:412-455 | a named NOMASK list and named entries with VALUE flags decode to the sorted names of the set |
| Ethtool.IndexValuesDecode | src/ethtool.rs:474-498 | index-only entries with VALUE flags decode, through the dictionary, to the same names |
| Ethtool.CompactDecodes | src/ethtool.rs:499-512 | a bitmap that agrees with the set on the dictionary's indices decodes to the same names |
| Ethtool.BitmapIsFaithful | src/ethtool.rs:505-507 | testing bit `index % 8` of byte `index / 8` of a packed set tests membership |
| Ethtool.BitmapDecodes | src/ethtool.rs:457-513 | the compact encoding of any set, the empty one included, decodes to the same names |
| Ethtool.NamesWhereIsSorted | src/ethtool.rs:447-455 | the common answer is sorted and holds each chosen entry's name as often as the dictionary does |
| Ethtool.NamesWhereIff | src/ethtool.rs:490-494 | a name is in the answer if and only if the dictionary has it for a chosen index |
| Ethtool.LexOrder | src/ethtool.rs:495 | names sort by their first different byte, upwards, and before their extensions |
| Ethtool.EncodingNumbers | src/ethtool.rs:412-441 | the attribute numbers of the encodings: 1 to 4 for the set, 1 to 3 for an entry, 1 and 3 nested |
| Ethtool.IndexListDecodesIffEmpty | src/ethtool.rs:474-498 | an index-only NOMASK list decodes to nothing, which is right if and only if the set is empty |
| Ethtool.IndexListIsLost | src/ethtool.rs:474-498 | a concrete input: a single chosen entry, listed by its index, decodes to nothing |
| Ethtool.EntryRead | src/ethtool.rs:429-441 | an encoded bit is read back with its index, name and selection |
| Endpoints.Endpoint | src/sock_diag.rs:458-471 | filling the octet array in place gives the endpoint of the raw kernel words |
| Endpoints.EndpointBytes | src/sock_diag.rs:458-471 | the address of that endpoint is the bytes as they lie in memory, its port the first byte times 256 plus the second, for families 2 and 10, and other families have none |
| Endpoints.ProcPort | src/sockets.rs:244 | procfs text shows such a port as four hexadecimal digits of its number |
| Endpoints.ParseEndpoint | src/sockets.rs:242-260 | the loop over eight-character chunks fills the octets of the words they spell, or fails |
| Endpoints.EndpointNeeds | src/sockets.rs:243-258 | a text is an endpoint if and only if it has a colon, a hexadecimal port, and 8 or 32 characters of address whose chunks of eight are hexadecimal |
| Endpoints.HexWordsIff | src/sockets.rs:252-253 | the chunks of an address are read if and only if each of them is a hexadecimal number |
| Endpoints.TextRoundTrip | src/sockets.rs:242-260 | parsing the kernel's hexadecimal text of address words and port gives their socket address |
| Endpoints.EndpointsAgree | src/sock_diag.rs:458-471 | text and raw words of the same endpoint give the same socket address |
| Endpoints.JoinMatchesIff | src/main.rs:3133 | the join matches a diagnostic record with a table line if and only if family, address words and port are the same |
| Flags.DecodeOfFormat | src/netlink.rs:1669-1685 | splitting the text and reading names and the hexadecimal remainder gives back every bit |
| Flags.HasFlagIffBit | src/netlink.rs:1106 | a piece of the text equals a flag's name if and only if the flag's bit is set |
| Flags.LinkTable | src/netlink.rs:1600-1625 | the link table has single bits, all different, and different names free of bars and hexadecimal prefixes |
| Flags.LinkTextTests | src/ethtool.rs:142 | the `up` test of link events is bit 0 and the loopback test of ethtool is bit 3, for every flag word |
| Flags.FirstLinkTextTests | src/netlink.rs:1600-1625 | names 1 to 4 of the link text stand for bits 0x1 to 0x8 |
| Flags.SecondLinkTextTests | src/netlink.rs:1600-1625 | names 5 to 8 stand for bits 0x10 to 0x80 |
| Flags.ThirdLinkTextTests | src/netlink.rs:1600-1625 | names 9 to 12 stand for bits 0x100 to 0x800 |
| Flags.FourthLinkTextTests | src/netlink.rs:1600-1625 | names 13 to 16 stand for bits 0x1000 to 0x8000 |
| Flags.LastLinkTextTests | src/netlink.rs:1600-1625 | names 17 to 19 stand for bits 0x10000 to 0x40000 |
| Flags.NeighborTextTests | src/netlink.rs:2035-2063 | each of the eleven names of the combined text stands for its bit of one of the two words |
| Flags.NeighborPieces | src/netlink.rs:2035-2063 | the combined text consists of the pieces of both words, or of the word none |
| Flags.NeighborDecodes | src/netlink.rs:2035-2063 | both words can be read back from the combined text |
| Flags.NeighborFlagsAreInjective | src/netlink.rs:2035-2063 | no two pairs of u8 and u32 words print the same text |
| Resolver.ChunksAreWorkersShares | src/resolver.rs:53-58 | a non-empty input is cut into at most min(n, 8) non-empty chunks whose concatenation is the input, of the least size that allows it |
| Resolver.ReverseNames | src/resolver.rs:47-76 | every address in the share of a joined worker, and every address if all are joined, has exactly the name the lookup has for it, and no other address has one |
| Resolver.JoinedIff | src/resolver.rs:69-73 | an address keeps its name if and only if it is in the share of some worker that is joined |
| Resolver.AllJoined | src/resolver.rs:68-74 | if every worker is joined, all addresses are covered |
| Resolver.JoinedNames | src/resolver.rs:68-74 | a worker that cannot be joined costs names but never makes one wrong |
| Watch.Watch | src/main.rs:2811-2908 | the text handler prints exactly the subsequence of its unfiltered output that passes the filter, with the same labels, and ends with the common name map |
| Watch.WatchJson | src/main.rs:2910-2981 | the same for the JSON handler, with the same name map |
| Watch.FiltersSelectKinds | src/main.rs:2771-2781 | each filter passes the events of one kind, and no filter passes all |
| Watch.PassingSnoc | src/main.rs:2818 | an output is kept or dropped by its event alone, and the order is kept |
| Watch.NoFilterPassesAll | src/main.rs:2818 | without a filter everything is printed |
| Watch.RemembersLatestName | src/main.rs:2811-2908 | after every history both handlers know an interface by its newest name since its last removal, filtered out or not |
| Watch.LabelAt | src/main.rs:2811-2908 | each output is labelled with the names known at its own point of the history |
| Watch.TextShowsNewestName | src/main.rs:2819-2906 | a text line shows a link's own name, and otherwise the newest name of the event's interface or its index |
| Watch.JsonShowsNewestName | src/main.rs:2914-2974 | a JSON record shows the same, and no name for an unknown link or a route |
| Watch.LabelsAgree | src/main.rs:2910-2981 | wherever the JSON record has a label the text line has the same one, and an unknown link falls back to its index |
| Examples.BuildsAndParses | src/generic_netlink.rs:521-547 | the message of the source's test parses to its command and attributes |
| Examples.ChecksumExample | src/ping.rs:163-173 | the example of RFC 1071 and a buffer of one byte have checksums 0x220d and 0xfeff |
| Examples.ScanBounds | src/scanner.rs:203-226 | the bounds and counts of the source's tests |
| Examples.RawEndpoints | src/sock_diag.rs:596-621 | the raw words of the source's tests give 192.168.1.5:443 and [::1]:53 |
| Examples.ProcEndpoints | src/sockets.rs:287-311 | the procfs texts of the source's tests give 127.0.0.1:1314 and 0.0.0.0:47839 |
| Examples.PortLists | src/main.rs:3963-3989 | the port lists of the source's tests: accepted, with their ports, or refused |

## Left out

- Sockets, `bind`, `sendto`, `recv`, `poll`, clocks, sleeps, procfs and sysfs: inputs of the model, or absent.
- Unaligned reads of C structures: replaced by explicit little-endian decoding.
- Record decoders such as `parse_link`, `parse_rule`, `parse_station` and `parse_tcp_info`: arbitrary partial functions of a record inside the dumps.
- `attributes_from_offset`, `parse_next_hops` and the attribute walk of src/sock_diag.rs: the same offset loop as `ParseAttributes`.
- Filtering and sorting by key after the neighbor, address and diagnostic dumps.
- The rule and next-hop flag tables: instances of `Flags.DecodeOfFormat` once their entries are checked.
- Name tables, text rendering, the `json_*` record builders, the command line and its option loops.
- Number formatting: a JSON number is any string, and `JsonRoundTrip.TextRoundTripIff` says which strings survive.
- UTF-8 validity: a parameter of the bitset decoder. JSON and flag texts are sequences of characters.
- Floating-point figures (`human_bytes`, `format_bitrate`, packet loss).
- src/traffic.rs, src/oui.rs and src/wifi.rs: saturating differences, a table lookup, and an unaligned copy of the attribute walk.
- Ping.Echo: what arrives during an attempt, and how long the attempt takes until its read, are inputs; the poll timeout itself is not modelled.
- Client.GenericClient.Connect: opening the socket and sending succeed or fail as given; the name is a byte string.
- Pool.TcpProbePorts: `fetch_add` is atomic and the lock is never poisoned; thread creation and panics of a probe are not modelled.
- Scanner.Scan: neighbor snapshots, waiting between passes and the result list are not modelled, and the target total does not wrap at 64 bits.
- Scanner.ScanProbeAddress: the route lookup and the fallback to a configured local address that follow are not modelled.
- Resolver.ReverseNames: duplicates in the input are looked up once per occurrence in the source; the model has lookup as a function of the address.
- Watch.Watch: output fields other than interface labels are one opaque detail, and events arrive as a list rather than from a socket.
- Ping.Checksum: the accumulator wraps as in an optimized build, where an unoptimized one would panic; `Ping.SumFitsIff` says when neither can happen.
