/** src/ping.rs: the Internet checksum (section 1 of RFC 1071), the echo request, and the accounting of replies. */
module Ping {
  import opened Words
  import Bits
  import Sorting
  import Numbers

  const ONES: nat := 0xffff

  // ---- checksum ----

  /** A big-endian word whose second byte may be missing at the end of an odd buffer. */
  function WordOf(bytes: seq<byte>): u16
    requires bytes != []
  {
    var high: byte, low: byte := bytes[0], if |bytes| > 1 then bytes[1] else 0;
    0x100 * high + low
  }

  function AfterWord(bytes: seq<byte>): seq<byte>
    requires bytes != []
  {
    if |bytes| == 1 then [] else bytes[2..]
  }

  function SumWords(bytes: seq<byte>): nat
    decreases |bytes|
  {
    if bytes == [] then 0 else WordOf(bytes) + SumWords(AfterWord(bytes))
  }

  /** End-around carry. */
  function Folded(sum: nat): (r: nat)
    ensures r <= ONES
  {
    if sum <= ONES then sum else Folded(sum % 0x1_0000 + sum / 0x1_0000)
  }

  function ChecksumOf(bytes: seq<byte>): (r: u16) {
    ONES - Folded(SumWords(bytes) % 0x1_0000_0000)
  }

  /** The u32 accumulator wraps as an optimized build does; see SumFitsIff for when it never has to. */
  method Checksum(bytes: seq<byte>) returns (r: u16)
    ensures r == ChecksumOf(bytes)
  {
    hide SumWords, Folded, WordOf, AfterWord;
    var sum: u32, rest := 0, bytes;
    while rest != []
      invariant Accumulated(sum, rest) == Accumulated(0, bytes)
      decreases |rest|
    {
      AddWord(sum, rest);
      sum := WrappedSum(sum, WordOf(rest));
      rest := AfterWord(rest);
    }
    AllAdded(bytes, sum);
    while sum > ONES
      invariant Folded(sum) == Folded(Accumulated(0, bytes))
    {
      FoldOnce(sum);
      sum := sum % 0x1_0000 + sum / 0x1_0000;
    }
    FoldedSmall(sum);
    return ONES - sum;
  }

  /** Addition on u32. */
  function WrappedSum(a: nat, b: nat): u32 {
    (a + b) % 0x1_0000_0000
  }

  /** What the accumulator comes to when it holds `sum` and the words of `rest` are still to be added. */
  function Accumulated(sum: nat, rest: seq<byte>): u32 {
    WrappedSum(sum, SumWords(rest))
  }

  lemma AddWord(sum: u32, rest: seq<byte>)
    requires rest != []
    ensures Accumulated(WrappedSum(sum, WordOf(rest)), AfterWord(rest)) == Accumulated(sum, rest)
    ensures |AfterWord(rest)| < |rest|
  {
    hide WordOf;
    WrappedAdd(sum, WordOf(rest), SumWords(AfterWord(rest)));
  }

  lemma WrappedAdd(a: nat, b: nat, c: nat)
    ensures WrappedSum(WrappedSum(a, b), c) == WrappedSum(a, b + c)
  {}

  lemma AllAdded(bytes: seq<byte>, sum: u32)
    ensures Accumulated(0, bytes) == SumWords(bytes) % 0x1_0000_0000
    ensures Accumulated(sum, []) == sum
  {}

  lemma FoldOnce(sum: nat)
    requires sum > ONES
    ensures Folded(sum) == Folded(sum % 0x1_0000 + sum / 0x1_0000)
    ensures sum % 0x1_0000 + sum / 0x1_0000 < sum
  {}

  lemma FoldedSmall(sum: nat)
    requires sum <= ONES
    ensures Folded(sum) == sum
  {}

  /** A buffer is summed as big-endian words, the last one padded with a zero byte. */
  lemma WordsAreBigEndian(high: byte, low: byte, rest: seq<byte>)
    ensures SumWords([]) == 0 && SumWords([high]) == 0x100 * high
    ensures SumWords([high, low] + rest) == 0x100 * high + low + SumWords(rest)
  {
    assert ([high, low] + rest)[2..] == rest;
  }

  // ---- What the operators of the source mean ----

  lemma FoldIsBitwise(sum: u32)
    ensures Bits.And(32, sum, ONES) == sum % 0x1_0000
  {
    PowersOfTwo();
    Bits.AndKeepsLowBits(32, sum, 16);
    Bits.LowIsRemainder(sum, 16);
  }

  lemma ComplementIsNot(sum: u16)
    ensures Bits.Not(16, sum) == ONES - sum
  {
    PowersOfTwo();
    Bits.NotIsComplement(16, sum);
  }

  lemma PowersOfTwo()
    ensures Bits.Pow2(16) == 0x1_0000
  {
    assert Bits.Pow2(8) == 0x100;
    assert Bits.Pow2(12) == 0x1000;
    assert Bits.Pow2(16) == 0x1_0000;
  }

  // ---- Correctness ----

  /** The fold is the representative of the sum modulo 65535 in 1..65535, and zero for zero only. */
  lemma {:induction false} FoldedIsResidue(sum: nat)
    ensures Folded(sum) == if sum == 0 then 0 else (sum - 1) % ONES + 1
    decreases sum
  {
    if sum > ONES {
      FoldedIsResidue(sum % 0x1_0000 + sum / 0x1_0000);
      CarryKeepsResidue(sum);
    }
  }

  lemma CarryKeepsResidue(sum: nat)
    requires sum > ONES
    ensures (sum - 1) % ONES == (sum % 0x1_0000 + sum / 0x1_0000 - 1) % ONES
  {
    var q, r := sum / 0x1_0000, sum % 0x1_0000;
    assert sum - 1 == q * ONES + (r + q - 1);
    RemainderOfShifted(q, r + q - 1);
  }

  lemma {:induction false} RemainderOfShifted(q: nat, x: nat)
    ensures (q * ONES + x) % ONES == x % ONES
  {
    if q == 0 {
    } else {
      RemainderOfShifted(q - 1, x);
    }
  }

  lemma {:induction false} SumBound(bytes: seq<byte>)
    ensures SumWords(bytes) <= ONES * ((|bytes| + 1) / 2)
    decreases |bytes|
  {
    if bytes == [] {
    } else {
      SumBound(AfterWord(bytes));
    }
  }

  lemma SumFits(bytes: seq<byte>)
    requires |bytes| <= 131074
    ensures SumWords(bytes) % 0x1_0000_0000 == SumWords(bytes) < 0x1_0000_0000
  {
    SumBound(bytes);
  }

  function AllOnes(n: nat): (b: seq<byte>)
    ensures |b| == n
  {
    seq(n, i => 0xff)
  }

  lemma {:induction false} SumOfOnes(n: nat)
    ensures SumWords(AllOnes(n)) == ONES * (n / 2) + if n % 2 == 1 then 0xff00 else 0
  {
    if n > 1 {
      assert AfterWord(AllOnes(n)) == AllOnes(n - 2);
      SumOfOnes(n - 2);
    }
  }

  /** The u32 accumulator holds the sum of every buffer of a length exactly up to 131074 bytes. */
  lemma SumFitsIff(n: nat)
    ensures n <= 131074 <==> forall bytes: seq<byte> :: |bytes| == n ==> SumWords(bytes) < 0x1_0000_0000
  {
    if n <= 131074 {
      forall bytes: seq<byte> | |bytes| == n ensures SumWords(bytes) < 0x1_0000_0000 {
        SumBound(bytes);
      }
    } else {
      SumOfOnes(n);
      assert |AllOnes(n)| == n;
    }
  }

  /** A buffer passes exactly if its words sum to a positive multiple of 65535. */
  lemma PassesIff(bytes: seq<byte>)
    requires |bytes| <= 131074
    ensures ChecksumOf(bytes) == 0 <==> SumWords(bytes) > 0 && SumWords(bytes) % ONES == 0
  {
    hide SumWords, Folded;
    SumFits(bytes);
    var sum := SumWords(bytes);
    FoldedIsResidue(sum);
    if sum > 0 {
      LastResidue(sum);
    }
  }

  lemma LastResidue(sum: nat)
    requires sum > 0
    ensures (sum - 1) % ONES == ONES - 1 <==> sum % ONES == 0
  {}

  /** Storing a word big-endian at an even offset. */
  function WithWord(bytes: seq<byte>, offset: nat, word: u16): (r: seq<byte>)
    requires offset + 1 < |bytes|
    ensures |r| == |bytes|
  {
    bytes[offset := word / 0x100][offset + 1 := word % 0x100]
  }

  lemma {:induction false} SumWithWord(bytes: seq<byte>, offset: nat, word: u16)
    requires offset % 2 == 0 && offset + 1 < |bytes|
    ensures SumWords(WithWord(bytes, offset, word)) + WordOf(bytes[offset..]) == SumWords(bytes) + word
    decreases offset
  {
    var stored := WithWord(bytes, offset, word);
    if offset == 0 {
      assert stored[2..] == bytes[2..] && bytes[0..] == bytes;
      assert WordOf(stored) == word;
    } else {
      assert stored[2..] == WithWord(bytes[2..], offset - 2, word);
      assert bytes[2..][offset - 2..] == bytes[offset..];
      SumWithWord(bytes[2..], offset - 2, word);
      assert WordOf(stored) == WordOf(bytes);
    }
  }

  /** Computing the checksum over a zeroed field and storing it there makes the whole buffer pass. */
  lemma StoredChecksumPasses(bytes: seq<byte>, offset: nat)
    requires |bytes| <= 131074 && offset % 2 == 0 && offset + 1 < |bytes|
    requires bytes[offset] == 0 && bytes[offset + 1] == 0
    ensures ChecksumOf(WithWord(bytes, offset, ChecksumOf(bytes))) == 0
  {
    hide SumWords, Folded;
    var sum, c := SumWords(bytes), ChecksumOf(bytes);
    SumFits(bytes);
    ZeroWord(bytes, offset);
    FoldedIsResidue(sum);
    SumWithWord(bytes, offset, c);
    PassesIff(WithWord(bytes, offset, c));
    ResidueComplement(sum);
  }

  lemma ZeroWord(bytes: seq<byte>, offset: nat)
    requires offset + 1 < |bytes| && bytes[offset] == 0 && bytes[offset + 1] == 0
    ensures WordOf(bytes[offset..]) == 0
  {}

  lemma ResidueComplement(sum: nat)
    ensures sum > 0 ==> (sum + ONES - ((sum - 1) % ONES + 1)) % ONES == 0 && sum >= (sum - 1) % ONES + 1
  {
    if sum > 0 {
      var q := (sum - 1) / ONES;
      assert sum == q * ONES + ((sum - 1) % ONES + 1);
      assert sum + ONES - ((sum - 1) % ONES + 1) == (q + 1) * ONES;
    }
  }

  /**
   Which changes of one word go unnoticed: none, except between 0x0000 and 0xffff while some
   other word is not zero.
   */
  lemma ChangedWordPassesIff(bytes: seq<byte>, offset: nat, word: u16)
    requires |bytes| <= 131074 && offset % 2 == 0 && offset + 1 < |bytes|
    requires ChecksumOf(bytes) == 0
    ensures ChecksumOf(WithWord(bytes, offset, word)) == 0
       <==> var was := WordOf(bytes[offset..]);
            word == was || ({word, was} == {0, ONES} && SumWords(bytes) + word > was)
  {
    hide SumWords, ChecksumOf, Folded, WordOf, WithWord;
    SumWithWord(bytes, offset, word);
    PassesIff(bytes);
    PassesIff(WithWord(bytes, offset, word));
    MultiplesApart(SumWords(bytes), WordOf(bytes[offset..]), word);
  }

  lemma MultiplesApart(sum: nat, was: u16, word: u16)
    requires sum % ONES == 0 && sum + word >= was
    ensures (sum + word - was) % ONES == 0 <==> word == was || {word, was} == {0, ONES}
  {
    if {word, was} == {0, ONES} {
      assert (word == 0 && was == ONES) || (word == ONES && was == 0) by {
        assert word in {word, was} && was in {word, was} && 0 in {word, was} && ONES in {word, was};
      }
    }
    var d: int := word - was;
    assert 0 - ONES <= d <= ONES;
    assert (sum + d) % ONES == 0 <==> d == 0 || d == ONES || d + ONES == 0;
    if d == ONES || d + ONES == 0 {
      assert {word, was} == {0, ONES};
    }
  }

  // ---- echo_request ----

  const PAYLOAD: seq<byte> := [0x6e, 0x65, 0x74, 0x77, 0x6f, 0x72, 0x6b, 0x72]

  /** The request before its checksum is stored. */
  function Unsigned(sequence: u16): (b: seq<byte>)
    ensures |b| == 16
  {
    [8, 0, 0, 0, 0, 0, sequence / 0x100, sequence % 0x100] + PAYLOAD
  }

  /** An echo request with this number and the bytes of `networkr`, whose checksum is right. */
  predicate IsRequest(b: seq<byte>, sequence: u16) {
    && |b| == 16
    && b[0] == 8 && b[1] == 0
    && b[4..] == [0, 0, sequence / 0x100, sequence % 0x100, 0x6e, 0x65, 0x74, 0x77, 0x6f, 0x72, 0x6b, 0x72]
    && ChecksumOf(b) == 0
  }

  lemma SignedRequest(sequence: u16)
    ensures IsRequest(WithWord(Unsigned(sequence), 2, ChecksumOf(Unsigned(sequence))), sequence)
  {
    hide ChecksumOf;
    var unsigned := Unsigned(sequence);
    StoredChecksumPasses(unsigned, 2);
    assert WithWord(unsigned, 2, ChecksumOf(unsigned))[4..] == unsigned[4..];
    assert unsigned[4..] == [0, 0, sequence / 0x100, sequence % 0x100] + PAYLOAD;
  }

  method EchoRequest(sequence: u16) returns (packet: array<byte>)
    ensures fresh(packet) && packet.Length == 16
    ensures packet[0] == 8 && packet[1] == 0
    ensures packet[4..] == [0, 0, sequence / 0x100, sequence % 0x100, 0x6e, 0x65, 0x74, 0x77, 0x6f, 0x72, 0x6b, 0x72]
    ensures ChecksumOf(packet[..]) == 0
  {
    hide ChecksumOf, PAYLOAD;
    ghost var header: seq<byte> := [8, 0, 0, 0, 0, 0, sequence / 0x100, sequence % 0x100];
    packet := new byte[16](i => 0);
    packet[0] := 8;
    packet[6], packet[7] := sequence / 0x100, sequence % 0x100;
    assert packet[..8] == header;
    CopyPayload(packet);
    assert packet[..] == packet[..8] + packet[8..];
    assert packet[..] == Unsigned(sequence);
    var checksum := Checksum(packet[..]);
    packet[2], packet[3] := checksum / 0x100, checksum % 0x100;
    assert packet[..] == WithWord(Unsigned(sequence), 2, checksum);
    SignedRequest(sequence);
    assert packet[4..] == packet[..][4..] && packet[0] == packet[..][0] && packet[1] == packet[..][1];
  }

  /** `packet[8..].copy_from_slice(b"networkr")` */
  method CopyPayload(packet: array<byte>)
    requires packet.Length == 16
    modifies packet
    ensures packet[..8] == old(packet[..8]) && packet[8..] == PAYLOAD
  {
    ghost var before := packet[..8];
    for i := 0 to 8
      invariant packet[..8] == before && packet[8..8 + i] == PAYLOAD[..i]
    {
      packet[8 + i] := PAYLOAD[i];
    }
    assert packet[8..8 + 8] == packet[8..] && PAYLOAD[..8] == PAYLOAD;
  }

  // ---- echo ----

  /** What a read finds: a packet, or an error that the source does not report. */
  datatype Arrival = Packet(bytes: seq<byte>) | ReadError

  /**
   One attempt: whether sending fails, what arrives before the next attempt, whether polling fails,
   and the nanoseconds until the read. A poll without an arrival times out.
   */
  datatype Attempt = Attempt(sendError: Option<int>, arrivals: seq<Arrival>, pollError: Option<int>, elapsed: nat)
  {
    function Failure(): Option<int> {
      if sendError.Some? then sendError else pollError
    }
  }

  datatype Summary = Summary(transmitted: u32, received: nat,
                             minimum: Option<nat>, average: Option<nat>, maximum: Option<nat>)

  const RESPONSE_BUFFER: nat := 256

  /** recv copies no more than the buffer holds. */
  function Copied(bytes: seq<byte>): seq<byte> {
    if |bytes| <= RESPONSE_BUFFER then bytes else bytes[..RESPONSE_BUFFER]
  }

  /** An echo reply whose sequence field is the low 16 bits of the attempt's number. */
  predicate IsReply(arrival: Arrival, number: nat) {
    && arrival.Packet?
    && var response := Copied(arrival.bytes);
       |response| >= 8 && response[0] == 0 && WordOf(response[6..]) == number % 0x1_0000
  }

  /** Whether an attempt that finds `queue` in the socket counts a reply: it reads one arrival, the oldest. */
  predicate Counts(queue: seq<Arrival>, attempt: Attempt, number: nat) {
    var ready := queue + attempt.arrivals;
    ready != [] && IsReply(ready[0], number)
  }

  function Unread(queue: seq<Arrival>, attempt: Attempt): seq<Arrival> {
    var ready := queue + attempt.arrivals;
    if ready == [] then [] else ready[1..]
  }

  /** The round-trip times of the replies that the attempts from `first` on count. */
  function Times(queue: seq<Arrival>, attempts: seq<Attempt>, first: nat): (r: seq<nat>)
    ensures |r| <= |attempts|
    decreases attempts
  {
    if attempts == [] then []
    else
      (if Counts(queue, attempts[0], first) then [attempts[0].elapsed] else [])
      + Times(Unread(queue, attempts[0]), attempts[1..], first + 1)
  }

  function Total(times: seq<nat>): nat {
    if times == [] then 0 else times[0] + Total(times[1..])
  }

  const BY_TIME: (nat, nat) -> bool := (a: nat, b: nat) => a <= b
  const LONGEST: nat := 0xffff_ffff_ffff_ffff

  method Echo(attempts: seq<Attempt>) returns (r: Result<Summary, int>)
    requires |attempts| < 0x1_0000_0000
    ensures r.Ok? ==> NoErrors(attempts)
    ensures r.Err? ==> exists i :: 0 <= i < |attempts| && attempts[i].Failure() == Some(r.error)
                                   && NoErrors(attempts[..i])
    ensures r.Ok? ==> r.value == Summarize(|attempts|, Times([], attempts, 0))
  {
    hide WordOf, Summarize, Times, IsReply;
    var elapsed: seq<nat>, queue: seq<Arrival> := [], [];
    AllTimes(attempts);
    for number := 0 to |attempts|
      invariant NoErrors(attempts[..number])
      invariant elapsed + Times(queue, attempts[number..], number) == Times([], attempts, 0)
    {
      var attempt := attempts[number];
      assert attempts[..number + 1] == attempts[..number] + [attempt];
      if attempt.sendError.Some? {
        return Err(attempt.sendError.value);
      }
      TimesStep(queue, attempts, number, elapsed);
      queue := queue + attempt.arrivals;
      if attempt.pollError.Some? {
        return Err(attempt.pollError.value);
      }
      if queue != [] {
        var arrival := queue[0];
        queue := queue[1..];
        if IsReply(arrival, number) {
          elapsed := elapsed + [attempt.elapsed];
        }
      }
    }
    assert attempts[..|attempts|] == attempts;
    TimesEnd(queue, elapsed, |attempts|);
    return Ok(Summarize(|attempts|, elapsed));
  }

  predicate NoErrors(attempts: seq<Attempt>) {
    forall attempt <- attempts :: attempt.Failure().None?
  }

  lemma AllTimes(attempts: seq<Attempt>)
    ensures [] + Times([], attempts[0..], 0) == Times([], attempts, 0)
  {
    assert attempts[0..] == attempts;
  }

  lemma TimesStep(queue: seq<Arrival>, attempts: seq<Attempt>, number: nat, elapsed: seq<nat>)
    requires number < |attempts|
    ensures elapsed + Times(queue, attempts[number..], number)
         == (if Counts(queue, attempts[number], number) then elapsed + [attempts[number].elapsed] else elapsed)
            + Times(Unread(queue, attempts[number]), attempts[number + 1..], number + 1)
  {
    hide Counts, Unread;
    assert attempts[number..][1..] == attempts[number + 1..];
  }

  lemma TimesEnd(queue: seq<Arrival>, elapsed: seq<nat>, number: nat)
    ensures elapsed + Times(queue, [], number) == elapsed
  {}

  // ---- Which packets count ----

  /** The only packet of an attempt counts exactly if it is an echo reply with the attempt's 16-bit number. */
  lemma CountsIff(attempt: Attempt, bytes: seq<byte>, number: nat)
    requires attempt.arrivals == [Packet(bytes)]
    ensures Counts([], attempt, number)
       <==> && |bytes| >= 8 && bytes[0] == 0
            && bytes[6] == number % 0x1_0000 / 0x100 && bytes[7] == number % 0x100
  {
    assert [] + attempt.arrivals == [Packet(bytes)];
    if |bytes| >= 8 {
      var response := Copied(bytes);
      assert response[..8] == bytes[..8];
      assert response[0] == bytes[..8][0] && response[6] == bytes[..8][6] && response[7] == bytes[..8][7];
      BigEndianNumber(bytes[6], bytes[7], number);
    }
  }

  lemma BigEndianNumber(high: byte, low: byte, number: nat)
    ensures 0x100 * high + low == number % 0x1_0000
       <==> high == number % 0x1_0000 / 0x100 && low == number % 0x100
  {
    var word := number % 0x1_0000;
    assert number == number / 0x1_0000 * 0x100 * 0x100 + word;
    assert word % 0x100 == number % 0x100;
  }

  /** Neither a failed read nor a timeout counts. */
  lemma NothingCounts(attempt: Attempt, number: nat)
    requires attempt.arrivals == [] || attempt.arrivals[0] == ReadError
    ensures !Counts([], attempt, number)
  {
    assert [] + attempt.arrivals == attempt.arrivals;
  }

  /** A run in which each attempt gets its own reply counts all of them. */
  lemma AnsweredAttempts(attempts: seq<Attempt>, replies: seq<seq<byte>>)
    requires |attempts| == |replies| < 0x1_0000_0000
    requires forall i :: 0 <= i < |attempts| ==>
               && attempts[i].arrivals == [Packet(replies[i])]
               && |replies[i]| >= 8 && replies[i][0] == 0
               && replies[i][6] == i % 0x1_0000 / 0x100 && replies[i][7] == i % 0x100
    ensures Times([], attempts, 0) == AllElapsed(attempts)
    ensures Summarize(|attempts|, Times([], attempts, 0)).received == |attempts|
  {
    hide Counts, IsReply, Times;
    forall i | 0 <= i < |attempts| ensures Prompt(attempts[i], 0 + i) {
      CountsIff(attempts[i], replies[i], i);
      OneArrival(attempts[i], replies[i], i);
    }
    LagOfReplies([], attempts, 0);
    SummaryIsSound(|attempts|, AllElapsed(attempts));
  }

  lemma OneArrival(attempt: Attempt, bytes: seq<byte>, number: nat)
    requires attempt.arrivals == [Packet(bytes)] && Counts([], attempt, number)
    ensures Prompt(attempt, number)
  {
    hide IsReply;
    assert [] + attempt.arrivals == attempt.arrivals;
  }

  // ---- Late replies ----

  /** Nothing but the reply to this attempt arrives. */
  predicate Prompt(attempt: Attempt, number: nat) {
    |attempt.arrivals| == 1 && IsReply(attempt.arrivals[0], number)
  }

  predicate AllPrompt(attempts: seq<Attempt>, first: nat) {
    forall i :: 0 <= i < |attempts| ==> Prompt(attempts[i], first + i)
  }

  /** The socket holds the replies to the last attempts before `first`, oldest first. */
  predicate Waiting(queue: seq<Arrival>, first: nat) {
    |queue| <= first && forall i :: 0 <= i < |queue| ==> IsReply(queue[i], first - |queue| + i)
  }

  function AllElapsed(attempts: seq<Attempt>): (times: seq<nat>)
    ensures |times| == |attempts| && forall i :: 0 <= i < |times| ==> times[i] == attempts[i].elapsed
  {
    if attempts == [] then [] else [attempts[0].elapsed] + AllElapsed(attempts[1..])
  }

  /** A packet answers attempts whose numbers differ by a multiple of 2^16, and no others. */
  lemma RepliesAlias(arrival: Arrival, number: nat, other: nat)
    requires IsReply(arrival, other) && other <= number
    ensures IsReply(arrival, number) <==> (number - other) % 0x1_0000 == 0
  {
    hide WordOf;
  }

  lemma WaitingStep(queue: seq<Arrival>, attempt: Attempt, first: nat)
    requires Waiting(queue, first) && Prompt(attempt, first)
    ensures Waiting(Unread(queue, attempt), first + 1) && |Unread(queue, attempt)| == |queue|
    ensures Counts(queue, attempt, first) <==> |queue| % 0x1_0000 == 0
  {
    hide IsReply;
    var ready := queue + attempt.arrivals;
    assert forall i :: 0 <= i < |ready| ==> IsReply(ready[i], first - |queue| + i);
    RepliesAlias(ready[0], first, first - |queue|);
  }

  /**
   While every reply is prompt, all of them are counted if the number of replies still waiting is a
   multiple of 2^16, zero for instance, and none of them otherwise.
   */
  lemma {:induction false} LagOfReplies(queue: seq<Arrival>, attempts: seq<Attempt>, first: nat)
    requires Waiting(queue, first) && AllPrompt(attempts, first)
    ensures Times(queue, attempts, first) == if |queue| % 0x1_0000 == 0 then AllElapsed(attempts) else []
    decreases attempts
  {
    hide AllPrompt, Waiting, Counts, Unread;
    if attempts == [] {
    } else {
      FirstPrompt(attempts, first);
      WaitingStep(queue, attempts[0], first);
      LagOfReplies(Unread(queue, attempts[0]), attempts[1..], first + 1);
    }
  }

  /**
   After one reply that arrives during the next attempt, every later reply counts as missing, although
   each of them is prompt.
   */
  lemma {:induction false} OneLateReply(
    before: seq<Attempt>, late: Attempt, next: Attempt, later: seq<Attempt>, first: nat)
    requires AllPrompt(before, first)
    requires var n := first + |before|;
             && late.arrivals == []
             && |next.arrivals| == 2 && IsReply(next.arrivals[0], n) && IsReply(next.arrivals[1], n + 1)
             && AllPrompt(later, n + 2)
    ensures Times([], before + [late, next] + later, first) == AllElapsed(before)
    decreases before
  {
    hide IsReply, AllPrompt;
    var all := before + [late, next] + later;
    if before == [] {
      assert all[0] == late && all[1..][0] == next && all[1..][1..] == later;
      RepliesAlias(next.arrivals[0], first + 1, first);
      var queue := Unread([], next);
      assert Unread([], late) == [] && queue == [next.arrivals[1]];
      LagOfReplies(queue, later, first + 2);
      assert Times([], all[1..], first + 1) == Times(queue, later, first + 2);
    } else {
      assert all[0] == before[0] && all[1..] == before[1..] + [late, next] + later;
      FirstPrompt(before, first);
      assert Unread([], before[0]) == [];
      OneLateReply(before[1..], late, next, later, first + 1);
    }
  }

  lemma FirstPrompt(attempts: seq<Attempt>, first: nat)
    requires attempts != [] && AllPrompt(attempts, first)
    ensures Prompt(attempts[0], first) && AllPrompt(attempts[1..], first + 1)
  {
    hide Prompt;
    assert Prompt(attempts[0], first + 0);
    forall i | 0 <= i < |attempts[1..]| ensures Prompt(attempts[1..][i], first + 1 + i) {
      assert Prompt(attempts[1 + i], first + (1 + i));
    }
  }

  function Mean(total: nat, count: nat): nat
    requires count > 0
  {
    total / count
  }

  /** The figures over the sorted times; the mean saturates at the largest u64. */
  function Summarize(transmitted: u32, elapsed: seq<nat>): Summary {
    var sorted := Sorting.Sort(BY_TIME, elapsed);
    if sorted == [] then Summary(transmitted, 0, None, None, None)
    else
      var mean := Mean(Total(sorted), |sorted|);
      Summary(transmitted, |sorted|, Some(sorted[0]), Some(Saturated(mean)),
              Some(sorted[|sorted| - 1]))
  }

  /** Extremes are measured times that bound all others, and the mean lies between them. */
  lemma SummaryIsSound(transmitted: u32, times: seq<nat>)
    ensures var r := Summarize(transmitted, times);
            && r.transmitted == transmitted && r.received == |times|
            && (if times == [] then r.minimum.None? && r.average.None? && r.maximum.None?
                else
                  && r.minimum.Some? && r.average.Some? && r.maximum.Some?
                  && r.minimum.value in times && r.maximum.value in times
                  && (forall t <- times :: r.minimum.value <= t <= r.maximum.value)
                  && (r.maximum.value <= LONGEST ==>
                        r.minimum.value <= r.average.value <= r.maximum.value))
  {
    hide Mean, Total;
    var sorted := Sorting.Sort(BY_TIME, times);
    Sorting.SortSorts(BY_TIME, times);
    SameMembers(sorted, times);
    if sorted != [] {
      var low, high := sorted[0], sorted[|sorted| - 1];
      assert forall i :: 0 <= i < |sorted| ==> BY_TIME(low, sorted[i]) || i == 0;
      assert forall i :: 0 <= i < |sorted| ==> BY_TIME(sorted[i], high) || i == |sorted| - 1;
      TotalBetween(sorted, low, high);
      MeanBetween(Total(sorted), |sorted|, low, high);
      assert low in sorted && high in sorted;
    }
  }

  lemma SameMembers(a: seq<nat>, b: seq<nat>)
    requires multiset(a) == multiset(b)
    ensures |a| == |b| && forall t :: t in a <==> t in b
  {
    assert |multiset(a)| == |a| && |multiset(b)| == |b|;
    forall t ensures t in a <==> t in b {
      assert t in a <==> t in multiset(a);
      assert t in b <==> t in multiset(b);
    }
  }

  lemma {:induction false} TotalBetween(times: seq<nat>, low: nat, high: nat)
    requires forall i :: 0 <= i < |times| ==> low <= times[i] <= high
    ensures |times| * low <= Total(times) <= |times| * high
  {
    if times == [] {
    } else {
      TotalBetween(times[1..], low, high);
      Numbers.OneMore(|times| - 1, low);
      Numbers.OneMore(|times| - 1, high);
    }
  }

  lemma MeanBetween(total: nat, count: nat, low: nat, high: nat)
    requires count > 0 && count * low <= total <= count * high
    ensures low <= Mean(total, count) <= high
  {
    var mean := total / count;
    assert count * mean <= total < count * (mean + 1) by { Numbers.OneMore(mean, count); }
    if mean < low { Numbers.Monotone(count, mean + 1, low); }
  }

  // ---- The average ----

  lemma TotalIsSum(times: seq<nat>, x: nat)
    ensures Total([]) == 0 && Total([x] + times) == x + Total(times)
  {
    assert ([x] + times)[1..] == times;
  }

  lemma {:induction false} InsertTotal(x: nat, s: seq<nat>)
    ensures Total(Sorting.Insert(BY_TIME, x, s)) == x + Total(s)
  {
    if s == [] || BY_TIME(x, s[0]) {
      TotalIsSum(s, x);
    } else {
      InsertTotal(x, s[1..]);
      TotalIsSum(Sorting.Insert(BY_TIME, x, s[1..]), s[0]);
    }
  }

  lemma {:induction false} SortTotal(s: seq<nat>)
    ensures Total(Sorting.Sort(BY_TIME, s)) == Total(s)
  {
    if s == [] {
    } else {
      SortTotal(s[1..]);
      InsertTotal(s[0], Sorting.Sort(BY_TIME, s[1..]));
    }
  }

  function Saturated(mean: nat): nat {
    if mean <= LONGEST then mean else LONGEST
  }

  lemma AverageOf(transmitted: u32, times: seq<nat>)
    requires times != []
    ensures Summarize(transmitted, times).average == Some(Saturated(Mean(Total(times), |times|)))
  {
    hide Total, Mean, Sorting.Sort;
    SortTotal(times);
    SameMembers(Sorting.Sort(BY_TIME, times), times);
  }

  lemma SaturatedMean(total: nat, count: nat)
    requires count > 0
    ensures var average := Saturated(Mean(total, count));
            && count * average <= total
            && average <= 0xffff_ffff_ffff_ffff
            && (average < 0xffff_ffff_ffff_ffff ==> total < count * (average + 1))
  {
    hide Mean;
    MeanRoundsDown(total, count);
    if Mean(total, count) > LONGEST {
      Numbers.Monotone(count, LONGEST, Mean(total, count));
    }
  }

  /** The average is the sum of the times over their number, rounded down, or the largest u64. */
  lemma AverageIsMean(transmitted: u32, times: seq<nat>)
    requires times != []
    ensures var r := Summarize(transmitted, times);
            && r.average.Some?
            && |times| * r.average.value <= Total(times)
            && r.average.value <= 0xffff_ffff_ffff_ffff
            && (r.average.value < 0xffff_ffff_ffff_ffff ==> Total(times) < |times| * (r.average.value + 1))
  {
    hide Total, Mean, Summarize, Saturated;
    AverageOf(transmitted, times);
    SaturatedMean(Total(times), |times|);
  }

  lemma MeanRoundsDown(total: nat, count: nat)
    requires count > 0
    ensures count * Mean(total, count) <= total < count * (Mean(total, count) + 1)
  {
    var mean := total / count;
    Numbers.OneMore(mean, count);
  }
}
