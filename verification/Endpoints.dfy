/**
 Two encodings of a socket endpoint that have to agree: the hexadecimal text of /proc/net
 (src/sockets.rs) and the raw words of a socket diagnostic record (src/sock_diag.rs).
 */
module Endpoints {
  import opened Words
  import opened Text

  const AF_INET: byte := 2
  const AF_INET6: byte := 10

  datatype SocketAddr = V4(octets: seq<byte>, port: u16) | V6(octets: seq<byte>, port: u16)

  // ---- sock_diag::endpoint ----

  /** `u16::from_be` on a little-endian host. */
  function FromBigEndian(port: u16): u16 {
    port % 0x100 * 0x100 + port / 0x100
  }

  function Octets(words: seq<u32>): (b: seq<byte>)
    ensures |b| == 4 * |words|
  {
    if words == [] then [] else Octets(words[..|words| - 1]) + Bytes32(words[|words| - 1])
  }

  function EndpointOf(family: byte, address: seq<u32>, port: u16): Option<SocketAddr>
    requires |address| == 4
  {
    if family == AF_INET then Some(V4(Octets(address[..1]), FromBigEndian(port)))
    else if family == AF_INET6 then Some(V6(Octets(address), FromBigEndian(port)))
    else None
  }

  method CopyWord(octets: array<byte>, index: nat, word: u32)
    requires octets.Length == 16 && index < 4
    modifies octets
    ensures octets[..4 * index] == old(octets[..4 * index])
    ensures octets[..4 * index + 4] == old(octets[..4 * index]) + Bytes32(word)
  {
    var bytes := Bytes32(word);
    ghost var before := octets[..4 * index];
    for i := 0 to 4
      invariant octets[..4 * index] == before
      invariant octets[..4 * index + i] == before + bytes[..i]
    {
      octets[4 * index + i] := bytes[i];
    }
  }

  method Endpoint(family: byte, address: seq<u32>, port: u16) returns (r: Option<SocketAddr>)
    requires |address| == 4
    ensures r == EndpointOf(family, address, port)
  {
    var hostPort := FromBigEndian(port);
    if family == AF_INET {
      OneWord(address[0]);
      assert address[..1] == [address[0]];
      return Some(V4(Bytes32(address[0]), hostPort));
    }
    if family == AF_INET6 {
      var octets := new byte[16](i => 0);
      for index := 0 to 4
        invariant octets[..4 * index] == Octets(address[..index])
      {
        CopyWord(octets, index, address[index]);
        assert address[..index + 1][..index] == address[..index];
      }
      assert address[..4] == address && octets[..16] == octets[..];
      return Some(V6(octets[..], hostPort));
    }
    return None;
  }

  lemma OneWord(word: u32)
    ensures Octets([word]) == Bytes32(word)
  {
    assert [word][..0] == [];
  }

  lemma OneMoreWord(words: seq<u32>, word: u32)
    ensures Octets(words + [word]) == Octets(words) + Bytes32(word)
  {
    assert (words + [word])[..|words|] == words;
  }

  // ---- sockets::parse_endpoint ----

  function Hex32(s: string): (r: Option<u32>) { ParseUnsigned(s, 16, 0x1_0000_0000) }

  /** The words of consecutive eight-character chunks. */
  function HexWords(s: string, count: nat): (r: Option<seq<u32>>)
    requires |s| == 8 * count
    ensures r.Some? ==> |r.value| == count
  {
    if count == 0 then Some([])
    else match (HexWords(s[..8 * (count - 1)], count - 1), Hex32(s[8 * (count - 1)..]))
      case (Some(front), Some(word)) => Some(front + [word])
      case _ => None
  }

  function EndpointIn(value: string): Option<SocketAddr> {
    match SplitOnce(value, ':')
    case None => None
    case Some(halves) =>
      match ParseUnsigned(halves.1, 16, 0x1_0000)
      case None => None
      case Some(port) =>
        if |halves.0| == 8 then
          (match HexWords(halves.0, 1) case None => None case Some(words) => Some(V4(Octets(words), port)))
        else if |halves.0| == 32 then
          (match HexWords(halves.0, 4) case None => None case Some(words) => Some(V6(Octets(words), port)))
        else None
  }

  lemma NoWords()
    ensures Octets([]) == [] && HexWords("", 0) == Some([])
  {}

  lemma HexWordsPrefix(s: string, count: nat, index: nat)
    requires |s| == 8 * count && index < count
    ensures HexWords(s[..8 * (index + 1)], index + 1) ==
            match (HexWords(s[..8 * index], index), Hex32(s[8 * index..8 * (index + 1)]))
            case (Some(front), Some(word)) => Some(front + [word])
            case _ => None
  {
    var t := s[..8 * (index + 1)];
    assert t[..8 * index] == s[..8 * index] && t[8 * index..] == s[8 * index..8 * (index + 1)];
  }

  lemma {:induction false} HexWordsFail(s: string, count: nat, index: nat)
    requires |s| == 8 * count && index <= count && HexWords(s[..8 * index], index).None?
    ensures HexWords(s, count).None?
    decreases count - index
  {
    if index < count {
      HexWordsPrefix(s, count, index);
      HexWordsFail(s, count, index + 1);
    } else {
      assert s[..8 * count] == s;
    }
  }

  method ParseEndpoint(value: string) returns (r: Option<SocketAddr>)
    ensures r == EndpointIn(value)
  {
    hide Hex32, Octets, SplitOnce, ParseUnsigned, HexWords, Bytes32;
    var halves := SplitOnce(value, ':');
    if halves.None? {
      return None;
    }
    var (address, portText) := halves.value;
    NoWords();
    assert address[..0] == "";
    var port := ParseUnsigned(portText, 16, 0x1_0000);
    if port.None? {
      return None;
    }
    if |address| == 8 {
      var word := Hex32(address);
      HexWordsPrefix(address, 1, 0);
      assert address[..8] == address && address[0..8] == address;
      if word.None? {
        return None;
      }
      OneWord(word.value);
      assert [] + [word.value] == [word.value];
      return Some(V4(Bytes32(word.value), port.value));
    }
    if |address| == 32 {
      var octets := new byte[16](i => 0);
      ghost var words: seq<u32> := [];
      for index := 0 to 4
        invariant HexWords(address[..8 * index], index) == Some(words)
        invariant octets[..4 * index] == Octets(words)
      {
        HexWordsPrefix(address, 4, index);
        var word := Hex32(address[8 * index..8 * (index + 1)]);
        if word.None? {
          HexWordsFail(address, 4, index + 1);
          return None;
        }
        CopyWord(octets, index, word.value);
        OneMoreWord(words, word.value);
        words := words + [word.value];
      }
      assert address[..32] == address && octets[..16] == octets[..];
      return Some(V6(octets[..], port.value));
    }
    return None;
  }

  /** Nothing else is an endpoint: the address has 8 or 32 characters, all words and the port are hexadecimal. */
  lemma EndpointNeeds(address: string, port: string)
    requires ':' !in address
    ensures EndpointIn(address) == None
    ensures var r := EndpointIn(address + ([':'] + port));
            && (r.Some? <==>
                  && ParseUnsigned(port, 16, 0x1_0000).Some?
                  && (|| (|address| == 8 && HexWords(address, 1).Some?)
                      || (|address| == 32 && HexWords(address, 4).Some?)))
            && (r.Some? ==> (r.value.V4? <==> |address| == 8))
            && (r.Some? ==> Some(r.value.port) == ParseUnsigned(port, 16, 0x1_0000))
  {
    hide SplitOnce, ParseUnsigned, HexWords;
    SplitOnceAt(address, ':', port);
    NoSeparator(address, ':');
  }

  /** A list of words fails exactly if one of its chunks is no hexadecimal number. */
  lemma {:induction false} HexWordsIff(s: string, count: nat)
    requires |s| == 8 * count
    ensures HexWords(s, count).Some? <==> forall i :: 0 <= i < count ==> Hex32(s[8 * i..8 * i + 8]).Some?
  {
    hide Hex32;
    if count == 0 {
    } else {
      var front := s[..8 * (count - 1)];
      HexWordsIff(front, count - 1);
      assert forall i :: 0 <= i < count - 1 ==> front[8 * i..8 * i + 8] == s[8 * i..8 * i + 8];
      assert s[8 * (count - 1)..] == s[8 * (count - 1)..8 * (count - 1) + 8];
    }
  }

  // ---- Agreement ----

  /** The kernel's `%08X` of each raw word, a colon, and `%04X` of the port in host order. */
  function ProcText(words: seq<u32>, port: u16): string {
    WordText(words) + ([':'] + UpperHex(FromBigEndian(port), 4))
  }

  function WordText(words: seq<u32>): (s: string)
    ensures |s| == 8 * |words|
    ensures forall c <- s :: '0' <= c <= '9' || 'A' <= c <= 'F'
  {
    if words == [] then "" else WordText(words[..|words| - 1]) + UpperHex(words[|words| - 1], 8)
  }

  lemma Pow16Values()
    ensures Pow16(4) == 0x1_0000 && Pow16(8) == 0x1_0000_0000
  {
    assert Pow16(4) == 0x1_0000;
    assert Pow16(6) == 0x100_0000;
    assert Pow16(8) == 0x1_0000_0000;
  }

  lemma {:induction false} HexWordsOfText(words: seq<u32>)
    ensures HexWords(WordText(words), |words|) == Some(words)
  {
    if words == [] {
    } else {
      var n := |words| - 1;
      var front, word := words[..n], words[n];
      var s := WordText(words);
      HexWordsOfText(front);
      Pow16Values();
      UpperHexRoundTrip(word, 8, 0x1_0000_0000);
      assert s[..8 * n] == WordText(front) && s[8 * n..] == UpperHex(word, 8);
      assert words == front + [word];
    }
  }

  lemma TextRoundTrip(words: seq<u32>, port: u16)
    requires |words| == 1 || |words| == 4
    ensures EndpointIn(ProcText(words, port)) ==
            Some(if |words| == 1 then V4(Octets(words), FromBigEndian(port))
                 else V6(Octets(words), FromBigEndian(port)))
  {
    hide SplitOnce, ParseUnsigned, HexWords, UpperHex, WordText, Octets, Pow16;
    var hex := UpperHex(FromBigEndian(port), 4);
    assert ':' !in WordText(words);
    SplitOnceAt(WordText(words), ':', hex);
    Pow16Values();
    UpperHexRoundTrip(FromBigEndian(port), 4, 0x1_0000);
    HexWordsOfText(words);
  }

  /** For every address and port, reading the printed text gives the endpoint of the raw words. */
  lemma EndpointsAgree(family: byte, address: seq<u32>, port: u16)
    requires |address| == 4 && (family == AF_INET || family == AF_INET6)
    ensures EndpointIn(ProcText(if family == AF_INET then address[..1] else address, port))
         == EndpointOf(family, address, port)
  {
    TextRoundTrip(if family == AF_INET then address[..1] else address, port);
  }

  /**
   The bytes of a diagnostic record, in the order they lie in memory: the address as it is, the port in
   network order. A record of another family has no endpoint.
   */
  lemma EndpointBytes(family: byte, a: seq<byte>, b: seq<byte>, c: seq<byte>, d: seq<byte>, high: byte, low: byte)
    requires |a| == |b| == |c| == |d| == 4
    ensures EndpointOf(family, [Word32(a), Word32(b), Word32(c), Word32(d)], Word16([high, low])) ==
            if family == 2 then Some(V4(a, 0x100 * high + low))
            else if family == 10 then Some(V6(a + b + c + d, 0x100 * high + low))
            else None
  {
    hide Word32;
    var words := [Word32(a), Word32(b), Word32(c), Word32(d)];
    NetworkPort(high, low);
    SameBytes(a);
    SameBytes(b);
    SameBytes(c);
    SameBytes(d);
    assert words[..1] == [] + [Word32(a)] && words[..2] == words[..1] + [Word32(b)];
    assert words[..3] == words[..2] + [Word32(c)] && words == words[..3] + [Word32(d)];
    OneMoreWord([], Word32(a));
    OneMoreWord(words[..1], Word32(b));
    OneMoreWord(words[..2], Word32(c));
    OneMoreWord(words[..3], Word32(d));
    NoWords();
    assert [] + a == a;
  }

  lemma SameBytes(b: seq<byte>)
    requires |b| == 4
    ensures Bytes32(Word32(b)) == b
  {
    LittleEndian(b[0], b[1], b[2], b[3]);
    assert b == [b[0], b[1], b[2], b[3]];
  }

  /** A port in network order is its high byte first. */
  lemma NetworkPort(high: byte, low: byte)
    ensures FromBigEndian(Word16([high, low])) == 0x100 * high + low
  {
    LittleEndian(high, low, 0, 0);
    Halves(low, high);
  }

  /** What procfs prints for such a port: its number, in four hexadecimal digits. */
  lemma ProcPort(words: seq<u32>, high: byte, low: byte)
    ensures ProcText(words, Word16([high, low])) == WordText(words) + ":" + UpperHex(0x100 * high + low, 4)
  {
    hide WordText, UpperHex, FromBigEndian;
    NetworkPort(high, low);
    assert WordText(words) + ([':'] + UpperHex(0x100 * high + low, 4))
        == WordText(words) + ":" + UpperHex(0x100 * high + low, 4);
  }

  lemma {:induction false} OctetsInjective(a: seq<u32>, b: seq<u32>)
    requires |a| == |b| && Octets(a) == Octets(b)
    ensures a == b
    decreases |a|
  {
    if a == [] {
    } else {
      var n := |a| - 1;
      assert Octets(a)[..4 * n] == Octets(a[..n]) && Octets(b)[..4 * n] == Octets(b[..n]);
      assert Octets(a)[4 * n..] == Bytes32(a[n]) && Octets(b)[4 * n..] == Bytes32(b[n]);
      OctetsInjective(a[..n], b[..n]);
      Word32OfBytes(a[n]);
      Word32OfBytes(b[n]);
      assert a == a[..n] + [a[n]] && b == b[..n] + [b[n]];
    }
  }

  lemma FromBigEndianInjective(a: u16, b: u16)
    ensures FromBigEndian(a) == FromBigEndian(b) <==> a == b
  {
    if FromBigEndian(a) == FromBigEndian(b) {
      Halves(a % 0x100, a / 0x100);
      Halves(b % 0x100, b / 0x100);
      assert a == a / 0x100 * 0x100 + a % 0x100 && b == b / 0x100 * 0x100 + b % 0x100;
    }
  }

  lemma Halves(high: byte, low: byte)
    ensures (high * 0x100 + low) % 0x100 == low && (high * 0x100 + low) / 0x100 == high
  {}

  /**
   The join on endpoints matches a diagnostic record with a table line exactly when both stand for
   the same family, address words and port.
   */
  lemma JoinMatchesIff(
    family: byte, address: seq<u32>, port: u16, lineFamily: byte, lineAddress: seq<u32>, linePort: u16)
    requires |address| == 4 && |lineAddress| == 4
    requires family == AF_INET || family == AF_INET6
    requires lineFamily == AF_INET || lineFamily == AF_INET6
    ensures EndpointOf(family, address, port)
            == EndpointIn(ProcText(if lineFamily == AF_INET then lineAddress[..1] else lineAddress, linePort))
       <==> && family == lineFamily && port == linePort
            && (if family == AF_INET then address[0] == lineAddress[0] else address == lineAddress)
  {
    hide EndpointIn, ProcText, Octets, FromBigEndian;
    FromBigEndianInjective(port, linePort);
    EndpointsAgree(lineFamily, lineAddress, linePort);
    if EndpointOf(family, address, port) == EndpointOf(lineFamily, lineAddress, linePort) {
      if family == AF_INET {
        OctetsInjective(address[..1], lineAddress[..1]);
        assert address[0] == address[..1][0] && lineAddress[0] == lineAddress[..1][0];
      } else {
        OctetsInjective(address, lineAddress);
      }
    } else if family == lineFamily == AF_INET && address[0] == lineAddress[0] {
      assert address[..1] == lineAddress[..1];
    }
  }
}
