/**
 src/netlink.rs, `format_flags`: a flag word as names joined by bars, with unknown bits in
 hexadecimal. Other parts of the program split the text again, so it must lose nothing.
 */
module Flags {
  import opened Words
  import opened Text

  datatype Flag = Flag(bit: bv32, name: string)

  // The word operators, named so that most proofs can treat them as an algebra.

  predicate Has(flags: bv32, bit: bv32) { flags & bit != 0 }

  function Union(a: bv32, b: bv32): bv32 { a | b }

  function Common(a: bv32, b: bv32): bv32 { a & b }

  function Without(a: bv32, b: bv32): bv32 { a & !b }

  lemma UnionLaws(a: bv32, b: bv32, c: bv32)
    ensures Union(a, Union(b, c)) == Union(Union(a, b), c)
    ensures Union(0, a) == a && Union(a, 0) == a
  {}

  function Names(flags: bv32, known: seq<Flag>): seq<string> {
    if known == [] then []
    else (if Has(flags, known[0].bit) then [known[0].name] else []) + Names(flags, known[1..])
  }

  function KnownBits(known: seq<Flag>): bv32 {
    if known == [] then 0 else Union(known[0].bit, KnownBits(known[1..]))
  }

  function Tokens(flags: bv32, known: seq<Flag>): seq<string> {
    var unknown := Without(flags, KnownBits(known));
    Names(flags, known) + if unknown != 0 then ["0x" + LowerHex(unknown as nat)] else []
  }

  function FormatFlags(flags: bv32, known: seq<Flag>): string {
    var names := Tokens(flags, known);
    if names == [] then "none" else Join(names, '|')
  }

  // ---- Reading the text again ----

  predicate IsHex(token: string) {
    |token| >= 2 && token[0] == '0' && token[1] == 'x'
  }

  function HexBits(token: string): bv32 {
    if !IsHex(token) then 0
    else match ParseUnsigned(token[2..], 16, 0x1_0000_0000)
      case None => 0
      case Some(n) => n as bv32
  }

  function NameBits(known: seq<Flag>, token: string): bv32 {
    if known == [] then 0
    else if known[0].name == token then known[0].bit
    else NameBits(known[1..], token)
  }

  /** The union of the named bits among the tokens. */
  function NamedBits(known: seq<Flag>, tokens: seq<string>): bv32 {
    if tokens == [] then 0 else Union(NameBits(known, tokens[0]), NamedBits(known, tokens[1..]))
  }

  /** The union of the hexadecimal tokens. */
  function UnnamedBits(tokens: seq<string>): bv32 {
    if tokens == [] then 0 else Union(HexBits(tokens[0]), UnnamedBits(tokens[1..]))
  }

  function Decode(text: string, known: seq<Flag>): bv32 {
    var tokens := Split(text, '|');
    Union(NamedBits(known, tokens), UnnamedBits(tokens))
  }

  /** `text.split('|').any(|flag| flag == name)` */
  predicate HasFlag(text: string, name: string) {
    name in Split(text, '|')
  }

  // ---- Tables ----

  predicate GoodName(name: string) {
    '|' !in name && !IsHex(name) && name != "none"
  }

  predicate SingleBit(bit: bv32) {
    bit != 0 && bit & (bit - 1) == 0
  }

  predicate NewName(name: string, known: seq<Flag>) {
    known == [] || (known[0].name != name && NewName(name, known[1..]))
  }

  predicate WellFormed(known: seq<Flag>) {
    known == [] || (
      && SingleBit(known[0].bit) && GoodName(known[0].name)
      && NewName(known[0].name, known[1..])
      && WellFormed(known[1..]))
  }

  // ---- Losslessness ----

  /** A single-bit flag contributes all of itself or nothing. */
  lemma OneMoreBit(flags: bv32, bit: bv32, rest: bv32)
    requires SingleBit(bit)
    ensures Has(flags, bit) ==> Union(bit, Common(flags, rest)) == Common(flags, Union(bit, rest))
    ensures !Has(flags, bit) ==> Common(flags, rest) == Common(flags, Union(bit, rest))
  {}

  lemma {:induction false} NameBitsAt(known: seq<Flag>, i: nat)
    requires i < |known| && WellFormed(known)
    ensures NameBits(known, known[i].name) == known[i].bit
    ensures GoodName(known[i].name) && SingleBit(known[i].bit)
  {
    if i == 0 {
    } else {
      NameBitsAt(known[1..], i - 1);
      NewNameAt(known[0].name, known[1..], i - 1);
    }
  }

  lemma {:induction false} NewNameAt(name: string, known: seq<Flag>, i: nat)
    requires i < |known| && NewName(name, known)
    ensures known[i].name != name
  {
    if i == 0 {
    } else {
      NewNameAt(name, known[1..], i - 1);
    }
  }

  lemma {:induction false} NamedBitsConcat(known: seq<Flag>, a: seq<string>, b: seq<string>)
    ensures NamedBits(known, a + b) == Union(NamedBits(known, a), NamedBits(known, b))
  {
    hide Union;
    if a == [] {
      assert a + b == b;
      UnionLaws(NamedBits(known, b), 0, 0);
    } else {
      assert (a + b)[1..] == a[1..] + b;
      NamedBitsConcat(known, a[1..], b);
      UnionLaws(NameBits(known, a[0]), NamedBits(known, a[1..]), NamedBits(known, b));
    }
  }

  lemma {:induction false} UnnamedBitsConcat(a: seq<string>, b: seq<string>)
    ensures UnnamedBits(a + b) == Union(UnnamedBits(a), UnnamedBits(b))
  {
    hide Union;
    if a == [] {
      assert a + b == b;
      UnionLaws(UnnamedBits(b), 0, 0);
    } else {
      assert (a + b)[1..] == a[1..] + b;
      UnnamedBitsConcat(a[1..], b);
      UnionLaws(HexBits(a[0]), UnnamedBits(a[1..]), UnnamedBits(b));
    }
  }

  /** The names printed for the entries from i on stand for exactly their bits. */
  lemma {:induction false} NamesDecode(flags: bv32, known: seq<Flag>, i: nat)
    requires i <= |known| && WellFormed(known)
    ensures var names := Names(flags, known[i..]);
            && NamedBits(known, names) == Common(flags, KnownBits(known[i..]))
            && UnnamedBits(names) == 0
            && forall name <- names :: GoodName(name)
    decreases |known| - i
  {
    hide SingleBit, HexBits, NameBits, GoodName, Has, Union, Common;
    CommonWithNone(flags);
    UnionLaws(0, 0, 0);
    if i < |known| {
      var later := Names(flags, known[i + 1..]);
      assert known[i..][1..] == known[i + 1..];
      NamesDecode(flags, known, i + 1);
      NameBitsAt(known, i);
      OneMoreBit(flags, known[i].bit, KnownBits(known[i + 1..]));
      if Has(flags, known[i].bit) {
        assert ([known[i].name] + later)[1..] == later;
        NameIsNotHex(known[i].name);
      } else {
        assert [] + later == later;
      }
    }
  }

  lemma CommonWithNone(flags: bv32)
    ensures Common(flags, 0) == 0
  {}

  lemma NameIsNotHex(name: string)
    requires GoodName(name)
    ensures HexBits(name) == 0
  {}

  lemma HexToken(bits: bv32)
    ensures var token := "0x" + LowerHex(bits as nat);
            IsHex(token) && HexBits(token) == bits && '|' !in token && token != "none"
  {
    var token := "0x" + LowerHex(bits as nat);
    assert token[2..] == LowerHex(bits as nat);
    LowerHexRoundTrip(bits as nat, 0x1_0000_0000);
    assert (bits as nat) as bv32 == bits;
  }

  lemma {:induction false} UnknownName(known: seq<Flag>, token: string)
    requires NewName(token, known)
    ensures NameBits(known, token) == 0
  {
    if known == [] {
    } else {
      UnknownName(known[1..], token);
    }
  }

  lemma {:induction false} OnlyGoodNames(known: seq<Flag>, token: string)
    requires WellFormed(known) && !GoodName(token)
    ensures NewName(token, known)
  {
    if known == [] {
    } else {
      OnlyGoodNames(known[1..], token);
    }
  }

  /** What the tokens of a flag word stand for, and that a bar never occurs in them. */
  lemma TokensDecode(flags: bv32, known: seq<Flag>)
    requires WellFormed(known)
    ensures var tokens := Tokens(flags, known);
            && NamedBits(known, tokens) == Common(flags, KnownBits(known))
            && UnnamedBits(tokens) == Without(flags, KnownBits(known))
            && (forall token <- tokens :: '|' !in token && token != "none")
  {
    hide HexBits, NameBits, Has, Union, Common, Without, Names, KnownBits, LowerHex;
    NamesDecode(flags, known, 0);
    assert known[0..] == known;
    var names, unknown := Names(flags, known), Without(flags, KnownBits(known));
    if unknown != 0 {
      var hex := "0x" + LowerHex(unknown as nat);
      HexToken(unknown);
      OnlyGoodNames(known, hex);
      UnknownName(known, hex);
      NamedBitsConcat(known, names, [hex]);
      UnnamedBitsConcat(names, [hex]);
      assert [hex][1..] == [];
      UnionLaws(NamedBits(known, names), 0, 0);
      UnionLaws(unknown, 0, 0);
    } else {
      assert names + [] == names;
    }
  }

  lemma Halves(flags: bv32, known: bv32)
    ensures Union(Common(flags, known), Without(flags, known)) == flags
  {}

  /** The pieces of the printed text are its tokens, or the word none. */
  lemma PrintedPieces(flags: bv32, known: seq<Flag>)
    requires WellFormed(known)
    ensures Split(FormatFlags(flags, known), '|')
         == if Tokens(flags, known) == [] then ["none"] else Tokens(flags, known)
  {
    TokensDecode(flags, known);
    if Tokens(flags, known) == [] {
      SplitPiece("none", '|', "");
    } else {
      SplitOfJoin(Tokens(flags, known), '|');
    }
  }

  /** Splitting the text and reading names and the hexadecimal remainder gives back every bit. */
  lemma DecodeOfFormat(flags: bv32, known: seq<Flag>)
    requires WellFormed(known)
    ensures Decode(FormatFlags(flags, known), known) == flags
  {
    hide Tokens, Names, KnownBits, HexBits, NameBits, Split, Union, Common, Without;
    TokensDecode(flags, known);
    PrintedPieces(flags, known);
    Halves(flags, KnownBits(known));
    if Tokens(flags, known) == [] {
      NoneDecodes(known);
    }
  }

  lemma NoneDecodes(known: seq<Flag>)
    requires WellFormed(known)
    ensures NamedBits(known, ["none"]) == 0 && UnnamedBits(["none"]) == 0
    ensures NamedBits(known, []) == 0 && UnnamedBits([]) == 0
  {
    OnlyGoodNames(known, "none");
    UnknownName(known, "none");
    assert ["none"][1..] == [];
  }

  /** Testing a piece of the text for a name tests that name's bit. */
  lemma HasFlagIffBit(flags: bv32, known: seq<Flag>, i: nat)
    requires WellFormed(known) && i < |known|
    ensures HasFlag(FormatFlags(flags, known), known[i].name) <==> Has(flags, known[i].bit)
  {
    hide Split, HexBits, Has, Without, Union, KnownBits;
    PrintedPieces(flags, known);
    NameBitsAt(known, i);
    NameInNames(flags, known, i);
    var unknown := Without(flags, KnownBits(known));
    if unknown != 0 {
      HexToken(unknown);
    }
  }

  lemma {:induction false} NewNameNotIn(flags: bv32, known: seq<Flag>, name: string)
    requires NewName(name, known)
    ensures name !in Names(flags, known)
  {
    if known == [] {
    } else {
      NewNameNotIn(flags, known[1..], name);
    }
  }

  lemma {:induction false} NameInNames(flags: bv32, known: seq<Flag>, i: nat)
    requires WellFormed(known) && i < |known|
    ensures known[i].name in Names(flags, known) <==> Has(flags, known[i].bit)
  {
    hide Has, GoodName, SingleBit;
    if i == 0 {
      NewNameNotIn(flags, known[1..], known[0].name);
    } else {
      NewNameAt(known[0].name, known[1..], i - 1);
      NameInNames(flags, known[1..], i - 1);
    }
  }

  // ---- The tables of the source ----

  const LINK_FLAGS: seq<Flag> := [
    Flag(0x0000_0001, "up"), Flag(0x0000_0002, "broadcast"), Flag(0x0000_0004, "debug"),
    Flag(0x0000_0008, "loopback"), Flag(0x0000_0010, "point-to-point"), Flag(0x0000_0020, "no-trailers"),
    Flag(0x0000_0040, "running"), Flag(0x0000_0080, "noarp"), Flag(0x0000_0100, "promiscuous"),
    Flag(0x0000_0200, "all-multicast"), Flag(0x0000_0400, "master"), Flag(0x0000_0800, "slave"),
    Flag(0x0000_1000, "multicast"), Flag(0x0000_2000, "port-selection"), Flag(0x0000_4000, "automedia"),
    Flag(0x0000_8000, "dynamic"), Flag(0x0001_0000, "lower-up"), Flag(0x0002_0000, "dormant"),
    Flag(0x0004_0000, "echo")]

  const NEIGHBOR_FLAGS: seq<Flag> := [
    Flag(0x01, "use"), Flag(0x02, "self"), Flag(0x04, "master"), Flag(0x08, "proxy"),
    Flag(0x10, "externally-learned"), Flag(0x20, "offloaded"), Flag(0x40, "sticky"), Flag(0x80, "router")]

  const EXTENDED_FLAGS: seq<Flag> := [
    Flag(0x01, "managed"), Flag(0x02, "locked"), Flag(0x04, "externally-validated")]

  ghost predicate EntriesGood(known: seq<Flag>) {
    && (forall i :: 0 <= i < |known| ==> SingleBit(known[i].bit) && GoodName(known[i].name))
    && (forall i, j :: 0 <= i < j < |known| ==> known[i].name != known[j].name)
  }

  lemma {:induction false} NewNameIf(name: string, known: seq<Flag>)
    requires forall i :: 0 <= i < |known| ==> known[i].name != name
    ensures NewName(name, known)
  {
    if known == [] {
    } else {
      NewNameIf(name, known[1..]);
    }
  }

  lemma {:induction false} WellFormedIf(known: seq<Flag>)
    requires EntriesGood(known)
    ensures WellFormed(known)
  {
    hide SingleBit, GoodName;
    if known == [] {
    } else {
      NewNameIf(known[0].name, known[1..]);
      assert forall i, j :: 0 <= i < j < |known[1..]| ==>
               known[1..][i] == known[i + 1] && known[1..][j] == known[j + 1];
      WellFormedIf(known[1..]);
    }
  }

  lemma LowLinkIsSingle(i: nat)
    requires i < 7
    ensures SingleBit(LINK_FLAGS[i].bit)
  {}

  lemma MiddleLinkIsSingle(i: nat)
    requires 7 <= i < 13
    ensures SingleBit(LINK_FLAGS[i].bit)
  {}

  lemma HighLinkIsSingle(i: nat)
    requires 13 <= i < |LINK_FLAGS|
    ensures SingleBit(LINK_FLAGS[i].bit)
  {}

  lemma LinkBit(i: nat)
    requires i < |LINK_FLAGS|
    ensures SingleBit(LINK_FLAGS[i].bit)
  {
    hide LINK_FLAGS, SingleBit;
    if i < 7 {
      LowLinkIsSingle(i);
    } else if i < 13 {
      MiddleLinkIsSingle(i);
    } else {
      HighLinkIsSingle(i);
    }
  }

  lemma LowLinkName(i: nat)
    requires i < 7
    ensures GoodName(LINK_FLAGS[i].name)
  {}

  lemma MiddleLinkName(i: nat)
    requires 7 <= i < 13
    ensures GoodName(LINK_FLAGS[i].name)
  {}

  lemma HighLinkName(i: nat)
    requires 13 <= i < |LINK_FLAGS|
    ensures GoodName(LINK_FLAGS[i].name)
  {}

  lemma LinkName(i: nat)
    requires i < |LINK_FLAGS|
    ensures GoodName(LINK_FLAGS[i].name)
  {
    hide LINK_FLAGS, GoodName;
    if i < 7 {
      LowLinkName(i);
    } else if i < 13 {
      MiddleLinkName(i);
    } else {
      HighLinkName(i);
    }
  }

  /** First character, length and last character, which are enough to tell the link names apart. */
  function Outline(name: string): (char, nat, char)
    requires name != ""
  {
    (name[0], |name|, name[|name| - 1])
  }

  const LINK_OUTLINES: seq<(char, nat, char)> := [
    ('u', 2, 'p'), ('b', 9, 't'), ('d', 5, 'g'), ('l', 8, 'k'), ('p', 14, 't'), ('n', 11, 's'),
    ('r', 7, 'g'), ('n', 5, 'p'), ('p', 11, 's'), ('a', 13, 't'), ('m', 6, 'r'), ('s', 5, 'e'),
    ('m', 9, 't'), ('p', 14, 'n'), ('a', 9, 'a'), ('d', 7, 'c'), ('l', 8, 'p'), ('d', 7, 't'),
    ('e', 4, 'o')]

  lemma LinkOutline(i: nat)
    requires i < |LINK_FLAGS|
    ensures |LINK_FLAGS| == |LINK_OUTLINES|
    ensures LINK_FLAGS[i].name != "" && Outline(LINK_FLAGS[i].name) == LINK_OUTLINES[i]
  {}

  lemma OutlinesDiffer(i: nat, j: nat)
    requires i < j < |LINK_OUTLINES|
    ensures LINK_OUTLINES[i] != LINK_OUTLINES[j]
  {}

  lemma LinkNamesDiffer(i: nat, j: nat)
    requires i < j < |LINK_FLAGS|
    ensures LINK_FLAGS[i].name != LINK_FLAGS[j].name
  {
    hide LINK_FLAGS, LINK_OUTLINES;
    LinkOutline(i);
    LinkOutline(j);
    OutlinesDiffer(i, j);
  }

  predicate Below(a: bv32, b: bv32) { a < b }

  lemma BelowIsTransitive(a: bv32, b: bv32, c: bv32)
    requires Below(a, b) && Below(b, c)
    ensures Below(a, c)
  {}

  lemma BelowDiffers(a: bv32, b: bv32)
    requires Below(a, b)
    ensures a != b
  {}

  lemma LowLinkBit(i: nat)
    requires i < 6
    ensures Below(LINK_FLAGS[i].bit, LINK_FLAGS[i + 1].bit)
  {}

  lemma MiddleLinkBit(i: nat)
    requires 6 <= i < 12
    ensures Below(LINK_FLAGS[i].bit, LINK_FLAGS[i + 1].bit)
  {}

  lemma HighLinkBit(i: nat)
    requires 12 <= i < |LINK_FLAGS| - 1
    ensures Below(LINK_FLAGS[i].bit, LINK_FLAGS[i + 1].bit)
  {}

  lemma NextLinkBit(i: nat)
    requires i + 1 < |LINK_FLAGS|
    ensures Below(LINK_FLAGS[i].bit, LINK_FLAGS[i + 1].bit)
  {
    hide LINK_FLAGS, Below;
    if i < 6 {
      LowLinkBit(i);
    } else if i < 12 {
      MiddleLinkBit(i);
    } else {
      HighLinkBit(i);
    }
  }

  lemma {:induction false} BitsAscend(known: seq<Flag>, i: nat, j: nat)
    requires i < j < |known|
    requires forall k :: 0 <= k < |known| - 1 ==> Below(known[k].bit, known[k + 1].bit)
    ensures Below(known[i].bit, known[j].bit)
  {
    hide Below;
    if i < j - 1 {
      BitsAscend(known, i, j - 1);
      BelowIsTransitive(known[i].bit, known[j - 1].bit, known[j].bit);
    }
  }

  lemma LinkBitsDiffer(known: seq<Flag>)
    requires known == LINK_FLAGS
    ensures forall i, j :: 0 <= i < j < |known| ==> known[i].bit != known[j].bit
  {
    hide LINK_FLAGS, Below;
    forall k | 0 <= k < |known| - 1 ensures Below(known[k].bit, known[k + 1].bit) {
      NextLinkBit(k);
    }
    forall i, j | 0 <= i < j < |known| ensures known[i].bit != known[j].bit {
      BitsAscend(known, i, j);
      BelowDiffers(known[i].bit, known[j].bit);
    }
  }

  lemma LinkTable()
    ensures WellFormed(LINK_FLAGS)
    ensures forall i, j :: 0 <= i < j < |LINK_FLAGS| ==> LINK_FLAGS[i].bit != LINK_FLAGS[j].bit
  {
    hide SingleBit, GoodName;
    var known := LINK_FLAGS;
    forall i | 0 <= i < |known| ensures SingleBit(known[i].bit) && GoodName(known[i].name) {
      LinkBit(i);
      LinkName(i);
    }
    forall i, j | 0 <= i < j < |known| ensures known[i].name != known[j].name {
      LinkNamesDiffer(i, j);
    }
    WellFormedIf(known);
    LinkBitsDiffer(known);
  }

  lemma NeighborBit(i: nat)
    requires i < |NEIGHBOR_FLAGS|
    ensures SingleBit(NEIGHBOR_FLAGS[i].bit)
  {}

  lemma NeighborName(i: nat)
    requires i < |NEIGHBOR_FLAGS|
    ensures GoodName(NEIGHBOR_FLAGS[i].name)
  {}

  lemma NeighborNamesDiffer(i: nat, j: nat)
    requires i < j < |NEIGHBOR_FLAGS|
    ensures NEIGHBOR_FLAGS[i].name != NEIGHBOR_FLAGS[j].name
  {}

  lemma NeighborTable()
    ensures WellFormed(NEIGHBOR_FLAGS)
  {
    hide SingleBit, GoodName;
    var known := NEIGHBOR_FLAGS;
    forall i | 0 <= i < |known| ensures SingleBit(known[i].bit) && GoodName(known[i].name) {
      NeighborBit(i);
      NeighborName(i);
    }
    forall i, j | 0 <= i < j < |known| ensures known[i].name != known[j].name {
      NeighborNamesDiffer(i, j);
    }
    WellFormedIf(known);
  }

  lemma ExtendedBit(i: nat)
    requires i < |EXTENDED_FLAGS|
    ensures SingleBit(EXTENDED_FLAGS[i].bit)
  {}

  lemma ExtendedName(i: nat)
    requires i < |EXTENDED_FLAGS|
    ensures GoodName(EXTENDED_FLAGS[i].name)
  {}

  lemma ExtendedNamesDiffer(i: nat, j: nat)
    requires i < j < |EXTENDED_FLAGS|
    ensures EXTENDED_FLAGS[i].name != EXTENDED_FLAGS[j].name
  {}

  lemma ExtendedTable()
    ensures WellFormed(EXTENDED_FLAGS)
  {
    hide SingleBit, GoodName;
    var known := EXTENDED_FLAGS;
    forall i | 0 <= i < |known| ensures SingleBit(known[i].bit) && GoodName(known[i].name) {
      ExtendedBit(i);
      ExtendedName(i);
    }
    forall i, j | 0 <= i < j < |known| ensures known[i].name != known[j].name {
      ExtendedNamesDiffer(i, j);
    }
    WellFormedIf(known);
  }

  lemma NeighborBits()
    ensures KnownBits(NEIGHBOR_FLAGS) == 0xff
  {
    var k := NEIGHBOR_FLAGS;
    assert KnownBits(k[8..]) == 0;
    assert KnownBits(k[6..]) == 0xc0;
    assert KnownBits(k[4..]) == 0xf0;
    assert KnownBits(k[2..]) == 0xfc;
  }

  // ---- Uses of the text as data ----

  /** The `up` field of a link event is bit 0 of the flag word, and ethtool skips exactly the links with bit 3. */
  lemma LinkTextTests(flags: bv32)
    ensures HasFlag(FormatFlags(flags, LINK_FLAGS), "up") <==> flags & 0x1 != 0
    ensures HasFlag(FormatFlags(flags, LINK_FLAGS), "loopback") <==> flags & 0x8 != 0
  {
    hide FormatFlags, HasFlag, Has, WellFormed;
    LinkTable();
    HasIsMask(flags, 0x1);
    HasIsMask(flags, 0x8);
    HasFlagIffBit(flags, LINK_FLAGS, 0);
    HasFlagIffBit(flags, LINK_FLAGS, 3);
  }

  lemma HasIsMask(flags: bv32, bit: bv32)
    ensures Has(flags, bit) <==> flags & bit != 0
  {}

  /** `neighbor_flags`: two tables, one text; the first word is a u8. */
  function NeighborFlags(flags: bv32, extended: bv32): string {
    var base, more := FormatFlags(flags, NEIGHBOR_FLAGS), FormatFlags(extended, EXTENDED_FLAGS);
    if base == "none" && more == "none" then "none"
    else if base == "none" then more
    else if more == "none" then base
    else base + "|" + more
  }

  lemma NoneIffNoTokens(flags: bv32, known: seq<Flag>)
    requires WellFormed(known)
    ensures FormatFlags(flags, known) == "none" <==> Tokens(flags, known) == []
  {
    hide Split, Tokens;
    TokensDecode(flags, known);
    PrintedPieces(flags, known);
    SplitPiece("none", '|', "");
    if Tokens(flags, known) != [] {
      assert Tokens(flags, known)[0] in Tokens(flags, known);
    }
  }

  lemma {:induction false} JoinConcat(a: seq<string>, b: seq<string>)
    requires a != [] && b != []
    ensures Join(a + b, '|') == Join(a, '|') + "|" + Join(b, '|')
  {
    if |a| == 1 {
      assert (a + b)[1..] == b;
      assert a[0] + (['|'] + Join(b, '|')) == a[0] + "|" + Join(b, '|');
    } else {
      assert (a + b)[1..] == a[1..] + b;
      JoinConcat(a[1..], b);
      assert a[0] + (['|'] + (Join(a[1..], '|') + "|" + Join(b, '|')))
          == a[0] + (['|'] + Join(a[1..], '|')) + "|" + Join(b, '|');
    }
  }

  /** The pieces of the combined text are the tokens of both words, in order. */
  lemma NeighborPieces(flags: bv32, extended: bv32)
    ensures var tokens := Tokens(flags, NEIGHBOR_FLAGS) + Tokens(extended, EXTENDED_FLAGS);
            Split(NeighborFlags(flags, extended), '|') == if tokens == [] then ["none"] else tokens
  {
    hide Split, Tokens, WellFormed, FormatFlags;
    NeighborTable();
    ExtendedTable();
    var a, b := Tokens(flags, NEIGHBOR_FLAGS), Tokens(extended, EXTENDED_FLAGS);
    NoneIffNoTokens(flags, NEIGHBOR_FLAGS);
    NoneIffNoTokens(extended, EXTENDED_FLAGS);
    PrintedPieces(flags, NEIGHBOR_FLAGS);
    PrintedPieces(extended, EXTENDED_FLAGS);
    assert a + [] == a && [] + b == b;
    if a == [] && b == [] {
      SplitPiece("none", '|', "");
    } else if a != [] && b != [] {
      BothJoined(flags, extended);
    }
  }

  lemma BothJoined(flags: bv32, extended: bv32)
    requires WellFormed(NEIGHBOR_FLAGS) && WellFormed(EXTENDED_FLAGS)
    requires Tokens(flags, NEIGHBOR_FLAGS) != [] && Tokens(extended, EXTENDED_FLAGS) != []
    ensures Split(FormatFlags(flags, NEIGHBOR_FLAGS) + "|" + FormatFlags(extended, EXTENDED_FLAGS), '|')
         == Tokens(flags, NEIGHBOR_FLAGS) + Tokens(extended, EXTENDED_FLAGS)
  {
    hide Split, Tokens, WellFormed, Join;
    var a, b := Tokens(flags, NEIGHBOR_FLAGS), Tokens(extended, EXTENDED_FLAGS);
    TokensDecode(flags, NEIGHBOR_FLAGS);
    TokensDecode(extended, EXTENDED_FLAGS);
    JoinConcat(a, b);
    SplitOfJoin(a + b, '|');
  }

  predicate DisjointFrom(tokens: seq<string>, known: seq<Flag>) {
    forall token <- tokens :: NewName(token, known)
  }

  lemma {:induction false} DisjointDecodeToNothing(tokens: seq<string>, known: seq<Flag>)
    requires DisjointFrom(tokens, known)
    ensures NamedBits(known, tokens) == 0
  {
    if tokens == [] {
    } else {
      UnknownName(known, tokens[0]);
      DisjointDecodeToNothing(tokens[1..], known);
    }
  }

  lemma {:induction false} NamesComeFromTable(flags: bv32, known: seq<Flag>, name: string)
    requires name in Names(flags, known)
    ensures exists i :: 0 <= i < |known| && known[i].name == name
  {
    if !(Has(flags, known[0].bit) && name == known[0].name) {
      NamesComeFromTable(flags, known[1..], name);
      var i :| 0 <= i < |known[1..]| && known[1..][i].name == name;
      assert known[i + 1].name == name;
    }
  }

  lemma NamesOfTablesDiffer(i: nat, j: nat)
    requires i < |NEIGHBOR_FLAGS| && j < |EXTENDED_FLAGS|
    ensures NEIGHBOR_FLAGS[i].name != EXTENDED_FLAGS[j].name
  {}

  lemma TokensAreDisjoint(flags: bv32, known: seq<Flag>, other: seq<Flag>)
    requires WellFormed(known) && WellFormed(other)
    requires forall i, j :: 0 <= i < |known| && 0 <= j < |other| ==> known[i].name != other[j].name
    ensures DisjointFrom(Tokens(flags, known), other)
  {
    hide Names, KnownBits, Has, Without, WellFormed, LowerHex;
    forall token | token in Tokens(flags, known) ensures NewName(token, other) {
      var unknown := Without(flags, KnownBits(known));
      if token in Names(flags, known) {
        NamesComeFromTable(flags, known, token);
        NewNameIf(token, other);
      } else {
        HexToken(unknown);
        OnlyGoodNames(other, token);
      }
    }
  }

  /** Both words can be read back from the combined text; only the extended word has unnamed bits. */
  lemma NeighborDecodes(flags: bv32, extended: bv32)
    requires flags <= 0xff
    ensures var tokens := Split(NeighborFlags(flags, extended), '|');
            && NamedBits(NEIGHBOR_FLAGS, tokens) == flags
            && Union(NamedBits(EXTENDED_FLAGS, tokens), UnnamedBits(tokens)) == extended
  {
    hide Tokens, NeighborFlags, WellFormed, NamedBits, UnnamedBits, KnownBits, Union, Common, Without, DisjointFrom;
    NeighborTable();
    ExtendedTable();
    NeighborBits();
    var a, b := Tokens(flags, NEIGHBOR_FLAGS), Tokens(extended, EXTENDED_FLAGS);
    NeighborPieces(flags, extended);
    TokensDecode(flags, NEIGHBOR_FLAGS);
    TokensDecode(extended, EXTENDED_FLAGS);
    forall i, j | 0 <= i < |NEIGHBOR_FLAGS| && 0 <= j < |EXTENDED_FLAGS|
      ensures NEIGHBOR_FLAGS[i].name != EXTENDED_FLAGS[j].name
    {
      NamesOfTablesDiffer(i, j);
    }
    TokensAreDisjoint(flags, NEIGHBOR_FLAGS, EXTENDED_FLAGS);
    TokensAreDisjoint(extended, EXTENDED_FLAGS, NEIGHBOR_FLAGS);
    DisjointDecodeToNothing(a, EXTENDED_FLAGS);
    DisjointDecodeToNothing(b, NEIGHBOR_FLAGS);
    NamedBitsConcat(NEIGHBOR_FLAGS, a, b);
    NamedBitsConcat(EXTENDED_FLAGS, a, b);
    UnnamedBitsConcat(a, b);
    UnionLaws(flags, 0, 0);
    UnionLaws(NamedBits(EXTENDED_FLAGS, b), 0, 0);
    UnionLaws(UnnamedBits(b), 0, 0);
    Halves(extended, KnownBits(EXTENDED_FLAGS));
    ByteIsKnown(flags);
    if a + b == [] {
      assert a == [] && b == [];
      NoneDecodes(NEIGHBOR_FLAGS);
      NoneDecodes(EXTENDED_FLAGS);
    }
  }

  lemma ByteIsKnown(flags: bv32)
    requires flags <= 0xff
    ensures Common(flags, 0xff) == flags && Without(flags, 0xff) == 0
  {}

  /** No two pairs of neighbor flag words print the same text. */
  lemma NeighborFlagsAreInjective(flags: bv32, extended: bv32, flags': bv32, extended': bv32)
    requires flags <= 0xff && flags' <= 0xff
    requires NeighborFlags(flags, extended) == NeighborFlags(flags', extended')
    ensures flags == flags' && extended == extended'
  {
    hide NeighborFlags, Union;
    NeighborDecodes(flags, extended);
    NeighborDecodes(flags', extended');
  }

  // ---- Which bit each neighbor flag is ----

  lemma NotAToken(flags: bv32, known: seq<Flag>, name: string)
    requires WellFormed(known) && GoodName(name) && NewName(name, known)
    ensures name !in Tokens(flags, known)
  {
    hide Has, Without, KnownBits, WellFormed, LowerHex, HexBits;
    NewNameNotIn(flags, known, name);
    HexToken(Without(flags, KnownBits(known)));
  }

  lemma TokenIffBit(flags: bv32, known: seq<Flag>, i: nat)
    requires WellFormed(known) && i < |known|
    ensures known[i].name in Tokens(flags, known) <==> Has(flags, known[i].bit)
    ensures GoodName(known[i].name)
  {
    hide Has, Without, KnownBits, LowerHex, HexBits, SingleBit;
    NameInNames(flags, known, i);
    NameBitsAt(known, i);
    HexToken(Without(flags, KnownBits(known)));
  }

  /** A name of the first table is a piece of the combined text exactly if its bit of the first word is set. */
  lemma NeighborNameIffBit(flags: bv32, extended: bv32, i: nat)
    requires i < |NEIGHBOR_FLAGS|
    ensures HasFlag(NeighborFlags(flags, extended), NEIGHBOR_FLAGS[i].name) <==> Has(flags, NEIGHBOR_FLAGS[i].bit)
  {
    hide Tokens, NeighborFlags, WellFormed, Has, Split, NEIGHBOR_FLAGS, EXTENDED_FLAGS;
    NeighborTable();
    ExtendedTable();
    NeighborPieces(flags, extended);
    TokenIffBit(flags, NEIGHBOR_FLAGS, i);
    forall j | 0 <= j < |EXTENDED_FLAGS| ensures EXTENDED_FLAGS[j].name != NEIGHBOR_FLAGS[i].name {
      NamesOfTablesDiffer(i, j);
    }
    NewNameIf(NEIGHBOR_FLAGS[i].name, EXTENDED_FLAGS);
    NotAToken(extended, EXTENDED_FLAGS, NEIGHBOR_FLAGS[i].name);
  }

  lemma ExtendedNameIffBit(flags: bv32, extended: bv32, j: nat)
    requires j < |EXTENDED_FLAGS|
    ensures HasFlag(NeighborFlags(flags, extended), EXTENDED_FLAGS[j].name) <==> Has(extended, EXTENDED_FLAGS[j].bit)
  {
    hide Tokens, NeighborFlags, WellFormed, Has, Split, NEIGHBOR_FLAGS, EXTENDED_FLAGS;
    NeighborTable();
    ExtendedTable();
    NeighborPieces(flags, extended);
    TokenIffBit(extended, EXTENDED_FLAGS, j);
    forall i | 0 <= i < |NEIGHBOR_FLAGS| ensures NEIGHBOR_FLAGS[i].name != EXTENDED_FLAGS[j].name {
      NamesOfTablesDiffer(i, j);
    }
    NewNameIf(EXTENDED_FLAGS[j].name, NEIGHBOR_FLAGS);
    NotAToken(flags, NEIGHBOR_FLAGS, EXTENDED_FLAGS[j].name);
  }

  lemma NeighborTextTest(flags: bv32, extended: bv32, i: nat, name: string, bit: bv32)
    requires i < |NEIGHBOR_FLAGS| && NEIGHBOR_FLAGS[i] == Flag(bit, name)
    ensures HasFlag(NeighborFlags(flags, extended), name) <==> flags & bit != 0
  {
    hide NeighborFlags, HasFlag, Has, NEIGHBOR_FLAGS;
    NeighborNameIffBit(flags, extended, i);
    HasIsMask(flags, bit);
  }

  lemma ExtendedTextTest(flags: bv32, extended: bv32, j: nat, name: string, bit: bv32)
    requires j < |EXTENDED_FLAGS| && EXTENDED_FLAGS[j] == Flag(bit, name)
    ensures HasFlag(NeighborFlags(flags, extended), name) <==> extended & bit != 0
  {
    hide NeighborFlags, HasFlag, Has, EXTENDED_FLAGS;
    ExtendedNameIffBit(flags, extended, j);
    HasIsMask(extended, bit);
  }

  /** Each name of the combined text stands for its bit of one of the two words. */
  lemma NeighborTextTests(flags: bv32, extended: bv32)
    ensures var text := NeighborFlags(flags, extended);
            && (HasFlag(text, "use") <==> flags & 0x01 != 0)
            && (HasFlag(text, "self") <==> flags & 0x02 != 0)
            && (HasFlag(text, "master") <==> flags & 0x04 != 0)
            && (HasFlag(text, "proxy") <==> flags & 0x08 != 0)
            && (HasFlag(text, "externally-learned") <==> flags & 0x10 != 0)
            && (HasFlag(text, "offloaded") <==> flags & 0x20 != 0)
            && (HasFlag(text, "sticky") <==> flags & 0x40 != 0)
            && (HasFlag(text, "router") <==> flags & 0x80 != 0)
            && (HasFlag(text, "managed") <==> extended & 0x01 != 0)
            && (HasFlag(text, "locked") <==> extended & 0x02 != 0)
            && (HasFlag(text, "externally-validated") <==> extended & 0x04 != 0)
  {
    hide NeighborFlags, HasFlag;
    NeighborTextTest(flags, extended, 0, "use", 0x01);
    NeighborTextTest(flags, extended, 1, "self", 0x02);
    NeighborTextTest(flags, extended, 2, "master", 0x04);
    NeighborTextTest(flags, extended, 3, "proxy", 0x08);
    NeighborTextTest(flags, extended, 4, "externally-learned", 0x10);
    NeighborTextTest(flags, extended, 5, "offloaded", 0x20);
    NeighborTextTest(flags, extended, 6, "sticky", 0x40);
    NeighborTextTest(flags, extended, 7, "router", 0x80);
    ExtendedTextTest(flags, extended, 0, "managed", 0x01);
    ExtendedTextTest(flags, extended, 1, "locked", 0x02);
    ExtendedTextTest(flags, extended, 2, "externally-validated", 0x04);
  }

  // ---- Which bit each link flag is ----

  lemma LinkTextTest(flags: bv32, i: nat, name: string, bit: bv32)
    requires i < |LINK_FLAGS| && LINK_FLAGS[i] == Flag(bit, name)
    ensures HasFlag(FormatFlags(flags, LINK_FLAGS), name) <==> flags & bit != 0
  {
    hide FormatFlags, HasFlag, Has, WellFormed, LINK_FLAGS;
    LinkTable();
    HasFlagIffBit(flags, LINK_FLAGS, i);
    HasIsMask(flags, bit);
  }

  /** Each name of the printed text stands for its bit of the word. */
  lemma FirstLinkTextTests(flags: bv32)
    ensures var text := FormatFlags(flags, LINK_FLAGS);
            && (HasFlag(text, "up") <==> flags & 0x0000_0001 != 0)
            && (HasFlag(text, "broadcast") <==> flags & 0x0000_0002 != 0)
            && (HasFlag(text, "debug") <==> flags & 0x0000_0004 != 0)
            && (HasFlag(text, "loopback") <==> flags & 0x0000_0008 != 0)
  {
    hide FormatFlags, HasFlag;
    LinkTextTest(flags, 0, "up", 0x0000_0001);
    LinkTextTest(flags, 1, "broadcast", 0x0000_0002);
    LinkTextTest(flags, 2, "debug", 0x0000_0004);
    LinkTextTest(flags, 3, "loopback", 0x0000_0008);
  }

  /** The same for the next four names. */
  lemma SecondLinkTextTests(flags: bv32)
    ensures var text := FormatFlags(flags, LINK_FLAGS);
            && (HasFlag(text, "point-to-point") <==> flags & 0x0000_0010 != 0)
            && (HasFlag(text, "no-trailers") <==> flags & 0x0000_0020 != 0)
            && (HasFlag(text, "running") <==> flags & 0x0000_0040 != 0)
            && (HasFlag(text, "noarp") <==> flags & 0x0000_0080 != 0)
  {
    hide FormatFlags, HasFlag;
    LinkTextTest(flags, 4, "point-to-point", 0x0000_0010);
    LinkTextTest(flags, 5, "no-trailers", 0x0000_0020);
    LinkTextTest(flags, 6, "running", 0x0000_0040);
    LinkTextTest(flags, 7, "noarp", 0x0000_0080);
  }

  /** The same for the next four names. */
  lemma ThirdLinkTextTests(flags: bv32)
    ensures var text := FormatFlags(flags, LINK_FLAGS);
            && (HasFlag(text, "promiscuous") <==> flags & 0x0000_0100 != 0)
            && (HasFlag(text, "all-multicast") <==> flags & 0x0000_0200 != 0)
            && (HasFlag(text, "master") <==> flags & 0x0000_0400 != 0)
            && (HasFlag(text, "slave") <==> flags & 0x0000_0800 != 0)
  {
    hide FormatFlags, HasFlag;
    LinkTextTest(flags, 8, "promiscuous", 0x0000_0100);
    LinkTextTest(flags, 9, "all-multicast", 0x0000_0200);
    LinkTextTest(flags, 10, "master", 0x0000_0400);
    LinkTextTest(flags, 11, "slave", 0x0000_0800);
  }

  /** The same for the next four names. */
  lemma FourthLinkTextTests(flags: bv32)
    ensures var text := FormatFlags(flags, LINK_FLAGS);
            && (HasFlag(text, "multicast") <==> flags & 0x0000_1000 != 0)
            && (HasFlag(text, "port-selection") <==> flags & 0x0000_2000 != 0)
            && (HasFlag(text, "automedia") <==> flags & 0x0000_4000 != 0)
            && (HasFlag(text, "dynamic") <==> flags & 0x0000_8000 != 0)
  {
    hide FormatFlags, HasFlag;
    LinkTextTest(flags, 12, "multicast", 0x0000_1000);
    LinkTextTest(flags, 13, "port-selection", 0x0000_2000);
    LinkTextTest(flags, 14, "automedia", 0x0000_4000);
    LinkTextTest(flags, 15, "dynamic", 0x0000_8000);
  }

  /** The same for the last three names. */
  lemma LastLinkTextTests(flags: bv32)
    ensures var text := FormatFlags(flags, LINK_FLAGS);
            && (HasFlag(text, "lower-up") <==> flags & 0x0001_0000 != 0)
            && (HasFlag(text, "dormant") <==> flags & 0x0002_0000 != 0)
            && (HasFlag(text, "echo") <==> flags & 0x0004_0000 != 0)
  {
    hide FormatFlags, HasFlag;
    LinkTextTest(flags, 16, "lower-up", 0x0001_0000);
    LinkTextTest(flags, 17, "dormant", 0x0002_0000);
    LinkTextTest(flags, 18, "echo", 0x0004_0000);
  }
}
