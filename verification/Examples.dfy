/** Concrete inputs and outputs: those of the source's own unit tests, and one of RFC 1071. */
module Examples {
  import opened Words
  import opened Bits
  import Attributes
  import Frames
  import GenericNetlink
  import Ping
  import Scanner
  import Endpoints
  import Text
  import Numbers
  import Ports

  // ---- Checksums ----

  lemma SumExample()
    ensures Ping.SumWords([0x00, 0x01, 0xf2, 0x03, 0xf4, 0xf5, 0xf6, 0xf7]) == 0x2ddf0
    ensures Ping.SumWords([0x01]) == 0x0100
  {
    hide Ping.SumWords;
    Ping.WordsAreBigEndian(0xf6, 0xf7, []);
    Ping.WordsAreBigEndian(0xf4, 0xf5, [0xf6, 0xf7]);
    Ping.WordsAreBigEndian(0xf2, 0x03, [0xf4, 0xf5, 0xf6, 0xf7]);
    Ping.WordsAreBigEndian(0x00, 0x01, [0xf2, 0x03, 0xf4, 0xf5, 0xf6, 0xf7]);
    Ping.WordsAreBigEndian(0x01, 0x00, []);
    assert [0xf6, 0xf7] + [] == [0xf6, 0xf7];
    assert [0xf4, 0xf5] + [0xf6, 0xf7] == [0xf4, 0xf5, 0xf6, 0xf7];
    assert [0xf2, 0x03] + [0xf4, 0xf5, 0xf6, 0xf7] == [0xf2, 0x03, 0xf4, 0xf5, 0xf6, 0xf7];
    assert [0x00, 0x01] + [0xf2, 0x03, 0xf4, 0xf5, 0xf6, 0xf7] == [0x00, 0x01, 0xf2, 0x03, 0xf4, 0xf5, 0xf6, 0xf7];
  }

  lemma FoldExample(bytes: seq<byte>)
    ensures Ping.SumWords(bytes) == 0x2ddf0 ==> Ping.ChecksumOf(bytes) == 0x220d
    ensures Ping.SumWords(bytes) == 0x0100 ==> Ping.ChecksumOf(bytes) == 0xfeff
  {
    hide Ping.SumWords, Ping.Folded;
    Ping.FoldOnce(0x2ddf0);
    Ping.FoldedSmall(0xddf2);
    Ping.FoldedSmall(0x0100);
  }

  /** The numerical example of section 3 of RFC 1071, and a buffer of odd length. */
  lemma ChecksumExample()
    ensures Ping.ChecksumOf([0x00, 0x01, 0xf2, 0x03, 0xf4, 0xf5, 0xf6, 0xf7]) == 0x220d
    ensures Ping.ChecksumOf([0x01]) == 0xfeff
  {
    hide Ping.SumWords, Ping.ChecksumOf;
    SumExample();
    FoldExample([0x00, 0x01, 0xf2, 0x03, 0xf4, 0xf5, 0xf6, 0xf7]);
    FoldExample([0x01]);
  }

  // ---- Networks ----

  function Address(a: byte, b: byte, c: byte, d: byte): u32 {
    var high: u16, low: u16 := 0x100 * a + b, 0x100 * c + d;
    0x1_0000 * high + low
  }

  /** `calculates_scan_bounds` and `handles_point_to_point_and_single_host_networks` */
  lemma ScanBounds()
    ensures var n := Scanner.ForCidr(2, Address(192, 168, 1, 42), Address(192, 168, 1, 42), 24);
            && n.network == Address(192, 168, 1, 0)
            && n.HostBounds() == (Address(192, 168, 1, 1), Address(192, 168, 1, 254))
            && n.TargetCount() == 253
            && n.Contains(Address(192, 168, 1, 200)) && !n.Contains(Address(192, 168, 2, 1))
    ensures Scanner.ForCidr(2, Address(10, 0, 0, 0), Address(10, 0, 0, 0), 31).TargetCount() == 1
    ensures Scanner.ForCidr(2, Address(10, 0, 0, 1), Address(10, 0, 0, 1), 32).TargetCount() == 0
  {
    hide Scanner.ForCidr;
    assert Pow2(8) == 0x100 && Pow2(1) == 2 && Pow2(0) == 1;
    Scanner.CidrBlock(2, Address(192, 168, 1, 42), Address(192, 168, 1, 42), 24);
    Scanner.LocalAddress(2, Address(192, 168, 1, 42), Address(192, 168, 1, 42), 24);
    Scanner.CidrTargetCount(2, Address(10, 0, 0, 0), Address(10, 0, 0, 0), 31);
    Scanner.CidrBlock(2, Address(10, 0, 0, 0), Address(10, 0, 0, 0), 31);
    Scanner.CidrTargetCount(2, Address(10, 0, 0, 1), Address(10, 0, 0, 1), 32);
    Scanner.CidrBlock(2, Address(10, 0, 0, 1), Address(10, 0, 0, 1), 32);
    SamePrefix(2, Address(192, 168, 1, 42), 24);
    SamePrefix(2, Address(10, 0, 0, 0), 31);
    SamePrefix(2, Address(10, 0, 0, 1), 32);
  }

  lemma SamePrefix(interfaceIndex: int, address: u32, prefix: nat)
    requires prefix <= 32
    ensures Scanner.ForCidr(interfaceIndex, address, address, prefix).prefix == prefix
  {}

  // ---- Endpoints ----

  /** `parses_network_order_endpoints` and `parses_ipv6_network_order_endpoints` */
  lemma RawEndpoints()
    ensures Endpoints.EndpointOf(2, [Word32([192, 168, 1, 5]), 0, 0, 0], Word16([1, 187]))
         == Some(Endpoints.V4([192, 168, 1, 5], 443))
    ensures Endpoints.EndpointOf(10, [0, 0, 0, Word32([0, 0, 0, 1])], Word16([0, 53]))
         == Some(Endpoints.V6([0, 0, 0, 0, 0, 0, 0, 0, 0, 0, 0, 0, 0, 0, 0, 1], 53))
  {
    hide Endpoints.EndpointOf;
    var zero: seq<byte> := [0, 0, 0, 0];
    LittleEndian(0, 0, 0, 0);
    Endpoints.EndpointBytes(2, [192, 168, 1, 5], zero, zero, zero, 1, 187);
    Endpoints.EndpointBytes(10, zero, zero, zero, [0, 0, 0, 1], 0, 53);
    assert zero + zero + zero + [0, 0, 0, 1] == [0, 0, 0, 0, 0, 0, 0, 0, 0, 0, 0, 0, 0, 0, 0, 1];
  }

  /** `parses_tcp_procfs_rows` and `parses_udp_procfs_rows`, as far as endpoints go */
  lemma ProcEndpoints()
    ensures Endpoints.EndpointIn("0100007F:0522") == Some(Endpoints.V4([127, 0, 0, 1], 1314))
    ensures Endpoints.EndpointIn("00000000:BADF") == Some(Endpoints.V4([0, 0, 0, 0], 47839))
  {
    hide Endpoints.EndpointIn;
    LittleEndian(127, 0, 0, 1);
    LittleEndian(0, 0, 0, 0);
    ProcEndpoint(127, 0, 0, 1, 0x05, 0x22, "0100007F", "0522");
    ProcEndpoint(0, 0, 0, 0, 0xba, 0xdf, "00000000", "BADF");
    LoopbackText();
    WildcardText();
    PortTexts();
    assert "0100007F" + ":" + "0522" == "0100007F:0522";
    assert "00000000" + ":" + "BADF" == "00000000:BADF";
  }

  lemma ProcEndpoint(a: byte, b: byte, c: byte, d: byte, high: byte, low: byte, address: string, port: string)
    ensures var text := address + ":" + port;
            address == Text.UpperHex(Word32([a, b, c, d]), 8) && port == Text.UpperHex(0x100 * high + low, 4)
            ==> Endpoints.EndpointIn(text) == Some(Endpoints.V4([a, b, c, d], 0x100 * high + low))
  {
    hide Endpoints.EndpointIn, Endpoints.EndpointOf, Endpoints.ProcText, Text.UpperHex, Word32, Word16;
    var zero: seq<byte> := [0, 0, 0, 0];
    var words := [Word32([a, b, c, d]), Word32(zero), Word32(zero), Word32(zero)];
    Endpoints.EndpointBytes(2, [a, b, c, d], zero, zero, zero, high, low);
    Endpoints.EndpointsAgree(2, words, Word16([high, low]));
    assert words[..1] == [Word32([a, b, c, d])];
    Endpoints.ProcPort(words[..1], high, low);
    OneWordText(Word32([a, b, c, d]));
  }

  lemma OneWordText(word: u32)
    ensures Endpoints.WordText([word]) == Text.UpperHex(word, 8)
  {
    hide Text.UpperHex;
    assert [word][..0] == [] && Endpoints.WordText([]) == "";
    assert "" + Text.UpperHex(word, 8) == Text.UpperHex(word, 8);
  }

  lemma NextDigit(n: nat, width: nat, d: nat)
    requires d < 16
    ensures Text.UpperHex(16 * n + d, width + 1) == Text.UpperHex(n, width) + [Text.UpperDigit(d)]
  {
    assert (16 * n + d) / 16 == n && (16 * n + d) % 16 == d;
  }

  lemma FourDigits(n: nat, a: nat, b: nat, c: nat, d: nat, width: nat)
    requires a < 16 && b < 16 && c < 16 && d < 16
    ensures Text.UpperHex(n * 0x1_0000 + a * 0x1000 + b * 0x100 + c * 0x10 + d, width + 4)
         == Text.UpperHex(n, width)
            + [Text.UpperDigit(a), Text.UpperDigit(b), Text.UpperDigit(c), Text.UpperDigit(d)]
  {
    hide Text.UpperHex, Text.UpperDigit;
    var x := 16 * n + a;
    var y := 16 * x + b;
    var z := 16 * y + c;
    NextDigit(n, width, a);
    NextDigit(x, width + 1, b);
    NextDigit(y, width + 2, c);
    NextDigit(z, width + 3, d);
    assert 16 * z + d == n * 0x1_0000 + a * 0x1000 + b * 0x100 + c * 0x10 + d;
  }

  lemma PortTexts()
    ensures Text.UpperHex(0x0522, 4) == "0522" && Text.UpperHex(0xbadf, 4) == "BADF"
  {
    hide Text.UpperHex;
    NoDigits();
    FourDigits(0, 0, 5, 2, 2, 0);
    FourDigits(0, 11, 10, 13, 15, 0);
  }

  lemma NoDigits()
    ensures Text.UpperHex(0, 0) == ""
  {}

  lemma LoopbackText()
    ensures Text.UpperHex(0x0100007f, 8) == "0100007F"
  {
    hide Text.UpperHex;
    NoDigits();
    FourDigits(0, 0, 1, 0, 0, 0);
    FourDigits(0x0100, 0, 0, 7, 15, 4);
  }

  lemma WildcardText()
    ensures Text.UpperHex(0, 8) == "00000000"
  {
    hide Text.UpperHex;
    NoDigits();
    FourDigits(0, 0, 0, 0, 0, 0);
    FourDigits(0, 0, 0, 0, 0, 4);
  }

  // ---- Messages ----

  /** `builds_and_parses_attributes` */
  lemma BuildsAndParses()
    ensures var attributes := [Attributes.Attribute(3, [123, 0, 0, 0]),
                               Attributes.Attribute(4, [0x77, 0x6c, 0x61, 0x6e, 0x30, 0])];
            var message := GenericNetlink.MessageBytes(42, 7, 5, 1, 1, attributes);
            GenericNetlink.ParseAll(42, 7, Frames.ItemsAt(message, 0)) ==
            Ok([GenericNetlink.Message(5, attributes)])
  {
    hide GenericNetlink.ParseAll, Frames.ItemsAt, GenericNetlink.MessageBytes, Attributes.EncodeAttributes;
    var attributes := [Attributes.Attribute(3, [123, 0, 0, 0]),
                       Attributes.Attribute(4, [0x77, 0x6c, 0x61, 0x6e, 0x30, 0])];
    EncodedLength(attributes);
    GenericNetlink.MessageRoundTrip(42, 7, 5, 1, 1, attributes);
    assert Attributes.Masked(attributes) == attributes;
  }

  lemma EncodedLength(attributes: seq<Attributes.Attribute>)
    requires |attributes| == 2
    ensures |Attributes.EncodeAttributes(attributes)|
         == AlignTo4(4 + |attributes[0].value|) + AlignTo4(4 + |attributes[1].value|)
  {
    hide Attributes.EncodeAttribute;
    assert attributes[1..][1..] == [] && attributes[1..][0] == attributes[1];
    assert Attributes.EncodeAttributes(attributes[1..][1..]) == [];
    assert |Attributes.EncodeAttributes(attributes[1..])| == |Attributes.EncodeAttribute(attributes[1])|;
  }

  // ---- Port lists ----

  /** `parses_probe_controls`, as far as port lists go */
  lemma PortLists(r: Result<seq<u16>, Ports.Error>)
    ensures Ports.IsPortSet(Text.Split("443,22,443", ','), r) ==> r == Ok([22, 443])
    ensures Ports.IsPortSet(Text.Split("0", ','), r) ==> r.Err?
    ensures Ports.IsPortSet(Text.Split("90-80", ','), r) ==> r.Err?
    ensures Ports.IsPortSet(Text.Split("22,,80", ','), r) ==> r.Err?
    ensures Ports.IsPortSet(Text.Split("1-4097", ','), r) ==> r.Err?
    ensures Ports.IsPortSet(Text.Split("1-4096", ','), r) ==> r.Ok? && |Ports.Union(["1-4096"])| == 4096
  {
    hide Ports.IsPortSet, Text.Split, Ports.Union, Text.Numeral;
    TwoPorts(r);
    RefusedLists(r);
    Decimals();
    assert "1-" + "4096" == "1-4096" && "1-" + "4097" == "1-4097";
    LargeRange(4096, "1-4096", r);
    LargeRange(4097, "1-4097", r);
  }

  lemma Decimals()
    ensures Text.Numeral(1, 10) == "1" && Text.Numeral(22, 10) == "22" && Text.Numeral(443, 10) == "443"
    ensures Text.Numeral(90, 10) == "90" && Text.Numeral(80, 10) == "80"
    ensures Text.Numeral(4096, 10) == "4096" && Text.Numeral(4097, 10) == "4097"
  {
    assert Text.Numeral(2, 10) == "2" && Text.Numeral(9, 10) == "9" && Text.Numeral(8, 10) == "8";
    assert Text.Numeral(44, 10) == "44" by { assert Text.Numeral(4, 10) == "4"; }
    assert Text.Numeral(40, 10) == "40" by { assert Text.Numeral(4, 10) == "4"; }
    assert Text.Numeral(409, 10) == "409";
  }

  lemma PortItem(port: u16)
    requires port >= 1
    ensures Ports.ItemPorts(Text.Numeral(port, 10)) == Some({port})
  {
    hide Ports.ItemPorts, Text.Numeral;
    Ports.SinglePort("", port, "");
    assert "" + Text.Numeral(port, 10) + "" == Text.Numeral(port, 10);
  }

  lemma RangeItem(first: u16, last: u16)
    requires first >= 1 && last >= 1
    ensures Ports.ItemPorts(Text.Numeral(first, 10) + "-" + Text.Numeral(last, 10))
         == if first <= last then Some(Numbers.Range(first, last)) else None
  {
    hide Ports.ItemPorts, Text.Numeral, Numbers.Range;
    var a, b := Text.Numeral(first, 10), Text.Numeral(last, 10);
    Ports.PortRange("", first, last, "");
    assert "" + (a + (['-'] + b)) + "" == a + "-" + b;
  }

  lemma LoneItem(item: string, r: Result<seq<u16>, Ports.Error>)
    requires ',' !in item && Ports.IsPortSet(Text.Split(item, ','), r)
    ensures Text.Split(item, ',') == [item]
    ensures r.Ok? <==> Ports.ItemPorts(item).Some? && |Ports.ItemPorts(item).value| <= 4096
    ensures Ports.ItemPorts(item).Some? ==> Ports.Union([item]) == Ports.ItemPorts(item).value
  {
    hide Ports.ItemPorts, Text.Split;
    Text.SplitPiece(item, ',', "");
    assert [item][..0] == [] && item in [item];
    assert Ports.Union([item][..0]) == {};
  }

  lemma RefusedLists(r: Result<seq<u16>, Ports.Error>)
    ensures Ports.IsPortSet(Text.Split("0", ','), r) ==> r.Err?
    ensures Ports.IsPortSet(Text.Split("90-80", ','), r) ==> r.Err?
    ensures Ports.IsPortSet(Text.Split("22,,80", ','), r) ==> r.Err?
  {
    hide Ports.ItemPorts, Text.Split, Text.Numeral, Ports.IsPortSet, Ports.ParseProbePort, Ports.Union;
    Ports.RefusedItems("", "0", "");
    assert "" + "0" + "" == "0";
    Decimals();
    RangeItem(90, 80);
    assert "90" + "-" + "80" == "90-80";
    if Ports.IsPortSet(Text.Split("0", ','), r) { LoneItem("0", r); }
    if Ports.IsPortSet(Text.Split("90-80", ','), r) { LoneItem("90-80", r); }
    Text.SplitPiece("22", ',', ",80");
    Text.SplitPiece("", ',', "80");
    assert "22" + ([','] + ",80") == "22,,80" && "" + ([','] + "80") == ",80";
    var items := Text.Split("22,,80", ',');
    assert items == ["22"] + ([""] + Text.Split("80", ','));
    assert "" in items;
    if Ports.IsPortSet(items, r) { InvalidMember(items, "", r); }
  }

  lemma InvalidMember(items: seq<string>, item: string, r: Result<seq<u16>, Ports.Error>)
    requires Ports.IsPortSet(items, r) && item in items && Ports.ItemPorts(item) == None
    ensures r.Err?
  {
    hide Ports.ItemPorts, Ports.Union;
  }

  lemma LargeRange(last: u16, text: string, r: Result<seq<u16>, Ports.Error>)
    requires last >= 1 && text == "1-" + Text.Numeral(last, 10)
    ensures Ports.IsPortSet(Text.Split(text, ','), r) ==>
              && (r.Ok? <==> last <= 4096)
              && |Ports.Union([text])| == last
  {
    hide Ports.ItemPorts, Text.Split, Text.Numeral, Ports.IsPortSet, Ports.Union, Numbers.Range;
    Decimals();
    RangeItem(1, last);
    assert "1" + "-" + Text.Numeral(last, 10) == text;
    assert ',' !in text;
    if Ports.IsPortSet(Text.Split(text, ','), r) {
      LoneItem(text, r);
    }
  }

  lemma TwoPorts(r: Result<seq<u16>, Ports.Error>)
    ensures Ports.IsPortSet(Text.Split("443,22,443", ','), r) ==> r == Ok([22, 443])
  {
    hide Ports.ItemPorts, Text.Split, Text.Numeral, Ports.Union, Ports.IsPortSet, Ports.AllValid;
    var items := ["443", "22", "443"];
    Text.SplitPiece("443", ',', "22,443");
    Text.SplitPiece("22", ',', "443");
    Text.SplitPiece("443", ',', "");
    assert "443" + ([','] + "22,443") == "443,22,443" && "22" + ([','] + "443") == "22,443";
    assert Text.Split("443,22,443", ',') == items;
    Decimals();
    PortItem(443);
    PortItem(22);
    ThreeItems("443", "22", "443");
    if Ports.IsPortSet(items, r) {
      TwoPortSet(items, r);
    }
  }

  lemma TwoPortSet(items: seq<string>, r: Result<seq<u16>, Ports.Error>)
    requires Ports.IsPortSet(items, r) && Ports.AllValid(items) && Ports.Union(items) == {443, 22}
    ensures r == Ok([22, 443])
  {
    hide Ports.AllValid, Ports.Union;
    assert |{443, 22}| == 2;
    Ports.AscendingIsUnique(r.value, [22, 443]);
  }

  lemma ThreeItems(a: string, b: string, c: string)
    requires Ports.ItemPorts(a).Some? && Ports.ItemPorts(b).Some? && Ports.ItemPorts(c).Some?
    ensures Ports.Union([a, b, c])
         == Ports.ItemPorts(a).value + Ports.ItemPorts(b).value + Ports.ItemPorts(c).value
    ensures Ports.AllValid([a, b, c])
  {
    hide Ports.ItemPorts;
    assert [a, b, c][..2] == [a, b] && [a, b][..1] == [a] && [a][..0] == [];
    assert Ports.Union([a]) == Ports.ItemPorts(a).value;
    assert Ports.Union([a, b]) == Ports.ItemPorts(a).value + Ports.ItemPorts(b).value;
  }
}
