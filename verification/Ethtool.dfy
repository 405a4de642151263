/**
 src/ethtool.rs: decoding a bitset attribute into the names of its selected bits. The kernel has
 several encodings of the same set; names missing from a reply come from a reference dictionary.
 Strings are byte sequences, and which of them are valid UTF-8 is a parameter.
 */
module Ethtool {
  import opened Words
  import opened Attributes
  import opened Lists
  import opened Sorting
  import opened Bits

  const BITSET_NOMASK: u16 := 1
  const BITSET_SIZE: u16 := 2
  const BITSET_BITS: u16 := 3
  const BITSET_VALUE: u16 := 4
  const BITSET_BITS_BIT: u16 := 1
  const BITSET_BIT_INDEX: u16 := 1
  const BITSET_BIT_NAME: u16 := 2
  const BITSET_BIT_VALUE: u16 := 3

  type Name = seq<byte>

  datatype Entry = Entry(index: u32, name: Name, selected: bool)

  // ---- Reading attributes ----

  /** `bytes_attribute` and `nested_bytes`: the value of the first attribute of a kind. */
  function Find(attributes: seq<Attribute>, kind: u16): Option<seq<byte>> {
    if attributes == [] then None
    else if attributes[0].kind == kind then Some(attributes[0].value)
    else Find(attributes[1..], kind)
  }

  predicate Has(attributes: seq<Attribute>, kind: u16) {
    exists a <- attributes :: a.kind == kind
  }

  function FindNested(attributes: seq<Attribute>, kind: u16): Option<seq<Attribute>> {
    match Find(attributes, kind)
    case None => None
    case Some(value) => NestedAttributes(value)
  }

  function NativeU32(value: seq<byte>): Option<u32> {
    if |value| < 4 then None else Some(Word32(value))
  }

  function UpToNul(value: seq<byte>): seq<byte> {
    if value == [] || value[0] == 0 then [] else [value[0]] + UpToNul(value[1..])
  }

  function TextOf(utf8: Name -> bool, value: seq<byte>): Option<Name> {
    if utf8(UpToNul(value)) then Some(UpToNul(value)) else None
  }

  function IndexOf(bit: seq<Attribute>): Option<u32> {
    match Find(bit, BITSET_BIT_INDEX) case None => None case Some(value) => NativeU32(value)
  }

  function NameOf(utf8: Name -> bool, bit: seq<Attribute>): Option<Name> {
    match Find(bit, BITSET_BIT_NAME) case None => None case Some(value) => TextOf(utf8, value)
  }

  // ---- bitset_entries, selected_entry_names ----

  function ReadEntry(utf8: Name -> bool, list: bool, a: Attribute): Option<Entry> {
    if a.kind != BITSET_BITS_BIT then None
    else match NestedAttributes(a.value)
      case None => None
      case Some(bit) =>
        match (IndexOf(bit), NameOf(utf8, bit))
        case (Some(index), Some(name)) => Some(Entry(index, name, list || Has(bit, BITSET_BIT_VALUE)))
        case _ => None
  }

  function EntryReader(utf8: Name -> bool, list: bool): Attribute -> Option<Entry> {
    (a: Attribute) => ReadEntry(utf8, list, a)
  }

  const BY_INDEX: (Entry, Entry) -> bool := (a: Entry, b: Entry) => a.index <= b.index

  function BitsetEntries(utf8: Name -> bool, attributes: seq<Attribute>, kind: u16): seq<Entry> {
    match FindNested(attributes, kind)
    case None => []
    case Some(bitset) =>
      match FindNested(bitset, BITSET_BITS)
      case None => []
      case Some(bits) =>
        Sort(BY_INDEX, FilterMap(EntryReader(utf8, Has(bitset, BITSET_NOMASK)), bits))
  }

  /** Byte-wise lexicographic order, as on Rust strings. */
  predicate LexLeq(a: Name, b: Name) {
    a == [] || (b != [] && (a[0] < b[0] || (a[0] == b[0] && LexLeq(a[1..], b[1..]))))
  }

  const BY_NAME: (Name, Name) -> bool := (a: Name, b: Name) => LexLeq(a, b)

  const SELECTED_NAME: Entry -> Option<Name> := (e: Entry) => if e.selected then Some(e.name) else None

  function SelectedEntryNames(entries: seq<Entry>): seq<Name> {
    Sort(BY_NAME, FilterMap(SELECTED_NAME, entries))
  }

  // ---- bitset_names_with_reference ----

  function SelectedIndex(a: Attribute): Option<u32> {
    if a.kind != BITSET_BITS_BIT then None
    else match NestedAttributes(a.value)
      case None => None
      case Some(bit) => if Has(bit, BITSET_BIT_VALUE) then IndexOf(bit) else None
  }

  const INDEX_READER: Attribute -> Option<u32> := (a: Attribute) => SelectedIndex(a)

  function MemberOf(indices: seq<u32>): u32 -> bool {
    (i: u32) => i in indices
  }

  function InBitmap(value: seq<byte>): u32 -> bool {
    (i: u32) => BitSet(value, i)
  }

  function NameIf(chosen: u32 -> bool): Entry -> Option<Name> {
    (e: Entry) => if chosen(e.index) then Some(e.name) else None
  }

  /** The names of the reference entries whose index is chosen, sorted. */
  function NamesWhere(chosen: u32 -> bool, reference: seq<Entry>): seq<Name> {
    Sort(BY_NAME, FilterMap(NameIf(chosen), reference))
  }

  /** `value.get(index / 8).is_some_and(|byte| byte & (1 << (index % 8)) != 0)` */
  predicate BitSet(value: seq<byte>, index: u32) {
    index / 8 < |value| && And(8, value[index / 8], Pow2(index % 8)) != 0
  }

  function BitsetNamesWithReference(utf8: Name -> bool, attributes: seq<Attribute>, kind: u16,
                                    reference: seq<Entry>): seq<Name>
  {
    var selected := SelectedEntryNames(BitsetEntries(utf8, attributes, kind));
    if selected != [] then selected
    else match FindNested(attributes, kind)
      case None => []
      case Some(bitset) =>
        var indices := match FindNested(bitset, BITSET_BITS)
          case None => []
          case Some(bits) => FilterMap(INDEX_READER, bits);
        if indices != [] then NamesWhere(MemberOf(indices), reference)
        else match Find(bitset, BITSET_VALUE)
          case None => []
          case Some(value) => NamesWhere(InBitmap(value), reference)
  }

  // ---- The encodings ----

  /** The attributes of one bit entry: its index, its NUL-terminated name, and a VALUE flag. */
  function BitAttributes(e: Entry, named: bool, value: bool): seq<Attribute> {
    [Attribute(BITSET_BIT_INDEX, Bytes32(e.index))]
    + (if named then [Attribute(BITSET_BIT_NAME, e.name + [0])] else [])
    + (if value then [Attribute(BITSET_BIT_VALUE, [])] else [])
  }

  function BitEntry(e: Entry, named: bool, value: bool): Attribute {
    NestedOf(BITSET_BITS_BIT, BitAttributes(e, named, value))
  }

  /** Which entries an encoding lists, and which of them carry a VALUE flag. */
  function Listed(chosen: u32 -> bool, named: bool, all: bool, values: bool): Entry -> Option<Attribute> {
    (e: Entry) => if all || chosen(e.index) then Some(BitEntry(e, named, values && chosen(e.index))) else None
  }

  function Verbose(list: bool, size: u32, bits: seq<Attribute>): seq<Attribute> {
    (if list then [Attribute(BITSET_NOMASK, [])] else [])
    + [Attribute(BITSET_SIZE, Bytes32(size)), NestedOf(BITSET_BITS, bits)]
  }

  /** A NOMASK list of the chosen entries by name. */
  function NamedList(chosen: u32 -> bool, reference: seq<Entry>, size: u32): seq<Attribute> {
    Verbose(true, size, FilterMap(Listed(chosen, true, false, false), reference))
  }

  /** All entries by name, the chosen ones flagged. */
  function NamedValues(chosen: u32 -> bool, reference: seq<Entry>, size: u32): seq<Attribute> {
    Verbose(false, size, FilterMap(Listed(chosen, true, true, true), reference))
  }

  /** All entries by index only, the chosen ones flagged. */
  function IndexValues(chosen: u32 -> bool, reference: seq<Entry>, size: u32): seq<Attribute> {
    Verbose(false, size, FilterMap(Listed(chosen, false, true, true), reference))
  }

  /** A NOMASK list of the chosen entries by index only. */
  function IndexList(chosen: u32 -> bool, reference: seq<Entry>, size: u32): seq<Attribute> {
    Verbose(true, size, FilterMap(Listed(chosen, false, false, false), reference))
  }

  /** A bitmap. */
  function Compact(size: u32, bitmap: seq<byte>): seq<Attribute> {
    [Attribute(BITSET_SIZE, Bytes32(size)), Attribute(BITSET_VALUE, bitmap)]
  }

  /** The attribute numbers of the encodings, with the nested flag where the kernel sets it. */
  lemma EncodingNumbers(e: Entry, size: u32, bits: seq<Attribute>, bitmap: seq<byte>)
    ensures Verbose(true, size, bits)
         == [Attribute(1, []), Attribute(2, Bytes32(size)), Attribute(0x8003, EncodeAttributes(bits))]
    ensures Verbose(false, size, bits) == Verbose(true, size, bits)[1..]
    ensures BitEntry(e, true, true)
         == Attribute(0x8001, EncodeAttributes([Attribute(1, Bytes32(e.index)), Attribute(2, e.name + [0]),
                                                Attribute(3, [])]))
    ensures BitEntry(e, false, false) == Attribute(0x8001, EncodeAttributes([Attribute(1, Bytes32(e.index))]))
    ensures Compact(size, bitmap) == [Attribute(2, Bytes32(size)), Attribute(4, bitmap)]
  {
    hide EncodeAttributes, Bytes32;
    assert BitAttributes(e, true, true)
        == [Attribute(1, Bytes32(e.index)), Attribute(2, e.name + [0]), Attribute(3, [])];
    assert BitAttributes(e, false, false) == [Attribute(1, Bytes32(e.index))];
  }

  // ---- The order on names ----

  lemma {:induction false} LexTotal(a: Name, b: Name)
    ensures LexLeq(a, b) || LexLeq(b, a)
  {
    if a != [] && b != [] { LexTotal(a[1..], b[1..]); }
  }

  lemma {:induction false} LexTransitive(a: Name, b: Name, c: Name)
    requires LexLeq(a, b) && LexLeq(b, c)
    ensures LexLeq(a, c)
  {
    if a != [] && a[0] == b[0] == c[0] { LexTransitive(a[1..], b[1..], c[1..]); }
  }

  lemma {:induction false} LexAntisymmetric(a: Name, b: Name)
    requires LexLeq(a, b) && LexLeq(b, a)
    ensures a == b
    decreases a
  {
    if a == [] {
    } else {
      LexAntisymmetric(a[1..], b[1..]);
      assert a == [a[0]] + a[1..] && b == [b[0]] + b[1..];
    }
  }

  lemma NamesAreOrdered()
    ensures Total(BY_NAME) && Transitive(BY_NAME) && Antisymmetric(BY_NAME)
  {
    forall a, b ensures BY_NAME(a, b) || BY_NAME(b, a) { LexTotal(a, b); }
    forall a, b, c | BY_NAME(a, b) && BY_NAME(b, c) ensures BY_NAME(a, c) { LexTransitive(a, b, c); }
    forall a, b | BY_NAME(a, b) && BY_NAME(b, a) ensures a == b { LexAntisymmetric(a, b); }
  }

  /** Sorting names forgets the order they came in. */
  lemma SortedNames(a: seq<Name>, b: seq<Name>)
    requires multiset(a) == multiset(b)
    ensures Sort(BY_NAME, a) == Sort(BY_NAME, b)
  {
    NamesAreOrdered();
    SortSorts(BY_NAME, a);
    SortSorts(BY_NAME, b);
    SortedPermutationIsUnique(BY_NAME, Sort(BY_NAME, a), Sort(BY_NAME, b));
  }

  /** A name comes before its extensions, and otherwise the first byte that differs decides, upwards. */
  lemma {:induction false} LexOrder(common: Name, a: Name, b: Name)
    ensures LexLeq(common, common + a)
    ensures a != [] ==> !LexLeq(common + a, common)
    ensures a != [] && b != [] && a[0] < b[0] ==>
              LexLeq(common + a, common + b) && !LexLeq(common + b, common + a)
    decreases common
  {
    if common == [] {
      assert common + a == a && common + b == b;
    } else {
      assert (common + a)[1..] == common[1..] + a && (common + b)[1..] == common[1..] + b;
      LexOrder(common[1..], a, b);
    }
  }

  // ---- Reading back what was encoded ----

  lemma {:induction false} FitsInside(attributes: seq<Attribute>, a: Attribute)
    requires a in attributes
    ensures |a.value| + HEADER_SIZE <= |EncodeAttributes(attributes)|
  {
    if a != attributes[0] { FitsInside(attributes[1..], a); }
  }

  lemma ReadBack(attributes: seq<Attribute>)
    requires |EncodeAttributes(attributes)| <= LARGEST_VALUE
    ensures NestedAttributes(EncodeAttributes(attributes)) == Some(Masked(attributes))
  {
    forall a | a in attributes ensures Fits(a) { FitsInside(attributes, a); }
    RoundTripIffFits([], attributes);
    assert [] + EncodeAttributes(attributes) == EncodeAttributes(attributes);
  }

  /** Names that survive as C strings and are valid text. */
  predicate Clean(utf8: Name -> bool, reference: seq<Entry>) {
    forall e <- reference :: 0 !in e.name && utf8(e.name)
  }

  lemma {:induction false} UpToNulOf(name: Name)
    requires 0 !in name
    ensures UpToNul(name + [0]) == name
  {
    if name == [] {
    } else {
      assert (name + [0])[1..] == name[1..] + [0];
      UpToNulOf(name[1..]);
      assert name == [name[0]] + name[1..];
    }
  }

  lemma BitRead(utf8: Name -> bool, e: Entry, named: bool, value: bool)
    requires Fits(BitEntry(e, named, value))
    requires named ==> 0 !in e.name && utf8(e.name)
    ensures var bit := BitAttributes(e, named, value);
            && NestedAttributes(BitEntry(e, named, value).value) == Some(bit)
            && IndexOf(bit) == Some(e.index)
            && NameOf(utf8, bit) == (if named then Some(e.name) else None)
            && Has(bit, BITSET_BIT_VALUE) == value
  {
    hide EncodeAttributes, NestedAttributes, Word32, Bytes32;
    var bit := BitAttributes(e, named, value);
    ReadBack(bit);
    assert Masked(bit) == bit;
    Word32OfBytes(e.index);
    if named {
      UpToNulOf(e.name);
    }
    var flag := if value then [Attribute(BITSET_BIT_VALUE, [])] else [];
    assert Find(bit, BITSET_BIT_NAME) == Find(bit[1..], BITSET_BIT_NAME);
    if named {
      assert bit[1..][0] == Attribute(BITSET_BIT_NAME, e.name + [0]);
    } else {
      assert bit[1..] == flag;
      assert value ==> flag[1..] == [] && Find(flag[1..], BITSET_BIT_NAME) == None;
    }
    if value { assert bit[|bit| - 1].kind == BITSET_BIT_VALUE && bit[|bit| - 1] in bit; }
  }

  function MaskedAttribute(a: Attribute): Attribute {
    Attribute(MaskedKind(a.kind), a.value)
  }

  lemma EntryRead(utf8: Name -> bool, list: bool, e: Entry, named: bool, value: bool)
    requires Fits(BitEntry(e, named, value))
    requires named ==> 0 !in e.name && utf8(e.name)
    ensures var a := MaskedAttribute(BitEntry(e, named, value));
            && ReadEntry(utf8, list, a) == (if named then Some(Entry(e.index, e.name, list || value)) else None)
            && SelectedIndex(a) == if value then Some(e.index) else None
  {
    hide BitAttributes, NestedAttributes;
    BitRead(utf8, e, named, value);
    assert MaskedKind(NestedKind(BITSET_BITS_BIT)) == BITSET_BITS_BIT;
  }

  /** What the top-level bitset attributes of a verbose encoding read back as. */
  lemma VerboseRead(attributes: seq<Attribute>, kind: u16, list: bool, size: u32, bits: seq<Attribute>)
    requires Find(attributes, kind) == Some(EncodeAttributes(Verbose(list, size, bits)))
    requires |EncodeAttributes(Verbose(list, size, bits))| <= LARGEST_VALUE
    ensures |EncodeAttributes(bits)| <= LARGEST_VALUE
    ensures var bitset := FindNested(attributes, kind);
            && bitset.Some?
            && FindNested(bitset.value, BITSET_BITS) == Some(Masked(bits))
            && Has(bitset.value, BITSET_NOMASK) == list
            && Find(bitset.value, BITSET_VALUE) == None
  {
    hide EncodeAttributes, NestedAttributes, Bytes32;
    var top := Verbose(list, size, bits);
    ReadBack(top);
    assert top[|top| - 1] == NestedOf(BITSET_BITS, bits);
    FitsInside(top, top[|top| - 1]);
    ReadBack(bits);
    var read := Masked(top);
    var tail := [Attribute(BITSET_SIZE, Bytes32(size)), Attribute(BITSET_BITS, EncodeAttributes(bits))];
    assert MaskedKind(NestedKind(BITSET_BITS)) == BITSET_BITS;
    assert read == (if list then [Attribute(BITSET_NOMASK, [])] else []) + tail;
    TailRead(size, EncodeAttributes(bits));
    if list {
      assert read[0].kind == BITSET_NOMASK && read[0] in read && read[1..] == tail;
    } else {
      assert read == tail;
    }
  }

  lemma TailRead(size: u32, value: seq<byte>)
    ensures var tail := [Attribute(BITSET_SIZE, Bytes32(size)), Attribute(BITSET_BITS, value)];
            && Find(tail, BITSET_BITS) == Some(value)
            && Find(tail, BITSET_VALUE) == None
            && !Has(tail, BITSET_NOMASK)
  {
    hide Bytes32;
    var tail := [Attribute(BITSET_SIZE, Bytes32(size)), Attribute(BITSET_BITS, value)];
    assert tail[1..] == [Attribute(BITSET_BITS, value)];
    assert tail[1..][1..] == [] && Find(tail[1..][1..], BITSET_VALUE) == None;
  }

  lemma CompactRead(attributes: seq<Attribute>, kind: u16, size: u32, bitmap: seq<byte>)
    requires Find(attributes, kind) == Some(EncodeAttributes(Compact(size, bitmap)))
    requires |EncodeAttributes(Compact(size, bitmap))| <= LARGEST_VALUE
    ensures var bitset := FindNested(attributes, kind);
            && bitset.Some?
            && FindNested(bitset.value, BITSET_BITS) == None
            && Find(bitset.value, BITSET_VALUE) == Some(bitmap)
  {
    hide EncodeAttributes, NestedAttributes, Bytes32;
    var top := Compact(size, bitmap);
    ReadBack(top);
    assert Masked(top) == top;
    assert top[1..] == [Attribute(BITSET_VALUE, bitmap)];
    assert top[1..][1..] == [] && Find(top[1..][1..], BITSET_BITS) == None;
    assert Find(top[1..], BITSET_BITS) == None;
    assert Find(top, BITSET_BITS) == None;
  }

  /** The entry an encoded bit is read back as, seen from the dictionary. */
  function Reread(chosen: u32 -> bool, named: bool, all: bool, values: bool, list: bool): Entry -> Option<Entry> {
    (e: Entry) => if named && (all || chosen(e.index))
                  then Some(Entry(e.index, e.name, list || (values && chosen(e.index)))) else None
  }

  function RereadIndex(chosen: u32 -> bool, values: bool): Entry -> Option<u32> {
    (e: Entry) => if values && chosen(e.index) then Some(e.index) else None
  }

  lemma {:induction false} BitsReread(utf8: Name -> bool, reference: seq<Entry>,
                                      chosen: u32 -> bool, named: bool, all: bool, values: bool, list: bool)
    requires named ==> Clean(utf8, reference)
    requires |EncodeAttributes(FilterMap(Listed(chosen, named, all, values), reference))| <= LARGEST_VALUE
    ensures var bits := Masked(FilterMap(Listed(chosen, named, all, values), reference));
            && FilterMap(EntryReader(utf8, list), bits)
               == FilterMap(Reread(chosen, named, all, values, list), reference)
            && FilterMap(INDEX_READER, bits) == FilterMap(RereadIndex(chosen, values), reference)
    decreases reference
  {
    hide EncodeAttributes, BitEntry, ReadEntry, SelectedIndex, MaskedKind, Masked;
    if reference == [] {
    } else {
      var e, rest := reference[0], reference[1..];
      var f := Listed(chosen, named, all, values);
      assert e in reference;
      assert forall x <- rest :: x in reference;
      if all || chosen(e.index) {
        var a := BitEntry(e, named, values && chosen(e.index));
        var later := FilterMap(f, rest);
        assert FilterMap(f, reference) == [a] + later;
        FitsInside([a] + later, a);
        assert ([a] + later)[1..] == later;
        EncodedShorter(a, later);
        EntryRead(utf8, list, e, named, values && chosen(e.index));
        FirstMasked(EntryReader(utf8, list), a, later);
        FirstMasked(INDEX_READER, a, later);
      } else {
        assert FilterMap(f, reference) == FilterMap(f, rest);
      }
      BitsReread(utf8, rest, chosen, named, all, values, list);
    }
  }

  lemma FirstMasked<T>(f: Attribute -> Option<T>, a: Attribute, later: seq<Attribute>)
    ensures FilterMap(f, Masked([a] + later)) == AsList(f(MaskedAttribute(a))) + FilterMap(f, Masked(later))
  {
    var m := Masked([a] + later);
    assert m[0] == MaskedAttribute(a) && m[1..] == Masked(later);
  }

  lemma EncodedShorter(a: Attribute, later: seq<Attribute>)
    ensures |EncodeAttributes(later)| <= |EncodeAttributes([a] + later)|
  {
    assert ([a] + later)[1..] == later;
  }

  /** Names of the chosen entries, whatever order sorting by index gave the entries. */
  lemma SelectedAreChosen(entries: seq<Entry>, reference: seq<Entry>, chosen: u32 -> bool, h: Entry -> Option<Entry>)
    requires entries == FilterMap(h, reference)
    requires forall e <- reference ::
               NameIf(chosen)(e) == if h(e).None? then None else SELECTED_NAME(h(e).value)
    ensures SelectedEntryNames(Sort(BY_INDEX, entries)) == NamesWhere(chosen, reference)
  {
    FilterMapPermutes(SELECTED_NAME, Sort(BY_INDEX, entries), entries);
    SortedNames(FilterMap(SELECTED_NAME, Sort(BY_INDEX, entries)), FilterMap(SELECTED_NAME, entries));
    FilterMapTwice(h, SELECTED_NAME, NameIf(chosen), reference);
  }

  lemma {:induction false} NoneChosen(chosen: u32 -> bool, values: bool, reference: seq<Entry>)
    requires NamesWhere(chosen, reference) == []
    ensures FilterMap(RereadIndex(chosen, values), reference) == []
  {
    assert multiset(NamesWhere(chosen, reference)) == multiset(FilterMap(NameIf(chosen), reference));
    NothingMapped(chosen, values, reference);
  }

  lemma {:induction false} NothingMapped(chosen: u32 -> bool, values: bool, reference: seq<Entry>)
    requires multiset(FilterMap(NameIf(chosen), reference)) == multiset{}
    ensures FilterMap(RereadIndex(chosen, values), reference) == []
  {
    if reference == [] {
    } else {
      assert FilterMap(NameIf(chosen), reference) == [] by {
        assert |multiset(FilterMap(NameIf(chosen), reference))| == 0;
      }
      NothingMapped(chosen, values, reference[1..]);
    }
  }

  // ---- All encodings agree ----

  /** The common answer: in order, and each chosen entry's name as often as the dictionary has it. */
  lemma NamesWhereIsSorted(chosen: u32 -> bool, reference: seq<Entry>)
    ensures Sorted(BY_NAME, NamesWhere(chosen, reference))
    ensures multiset(NamesWhere(chosen, reference)) == multiset(FilterMap(NameIf(chosen), reference))
  {
    NamesAreOrdered();
    SortSorts(BY_NAME, FilterMap(NameIf(chosen), reference));
  }

  /** Both encodings that carry names: a NOMASK list, and entries with VALUE flags. */
  lemma NamedEncodingsDecode(utf8: Name -> bool, attributes: seq<Attribute>, kind: u16, reference: seq<Entry>,
                             chosen: u32 -> bool, size: u32, list: bool)
    requires var top := if list then NamedList(chosen, reference, size) else NamedValues(chosen, reference, size);
             Find(attributes, kind) == Some(EncodeAttributes(top)) && |EncodeAttributes(top)| <= LARGEST_VALUE
    requires Clean(utf8, reference)
    ensures BitsetNamesWithReference(utf8, attributes, kind, reference) == NamesWhere(chosen, reference)
  {
    hide EncodeAttributes, NestedAttributes, BitEntry, Has, Find, Masked, FilterMap, Sort;
    var bits := FilterMap(Listed(chosen, true, !list, !list), reference);
    VerboseRead(attributes, kind, list, size, bits);
    BitsReread(utf8, reference, chosen, true, !list, !list, list);
    var h := Reread(chosen, true, !list, !list, list);
    SelectedAreChosen(FilterMap(h, reference), reference, chosen, h);
    if NamesWhere(chosen, reference) == [] {
      NoneChosen(chosen, !list, reference);
    }
  }

  /** A name is in the answer exactly if the dictionary has it for a chosen index. */
  lemma NamesWhereIff(chosen: u32 -> bool, reference: seq<Entry>, name: Name)
    ensures name in NamesWhere(chosen, reference) <==> exists e <- reference :: chosen(e.index) && e.name == name
  {
    hide Sort;
    var names := FilterMap(NameIf(chosen), reference);
    assert name in NamesWhere(chosen, reference) <==> name in multiset(NamesWhere(chosen, reference));
    assert name in names <==> name in multiset(names);
    MappedIff(chosen, reference, name);
  }

  lemma {:induction false} MappedIff(chosen: u32 -> bool, reference: seq<Entry>, name: Name)
    ensures name in FilterMap(NameIf(chosen), reference)
       <==> exists e <- reference :: chosen(e.index) && e.name == name
  {
    if reference == [] {
    } else {
      MappedIff(chosen, reference[1..], name);
      assert reference == [reference[0]] + reference[1..];
    }
  }

  lemma SameChoice(a: u32 -> bool, b: u32 -> bool, reference: seq<Entry>)
    requires forall e <- reference :: a(e.index) == b(e.index)
    ensures NamesWhere(a, reference) == NamesWhere(b, reference)
  {
    forall i | 0 <= i < |reference| ensures NameIf(a)(reference[i]) == NameIf(b)(reference[i]) {
      assert reference[i] in reference;
    }
    FilterMapSame(NameIf(a), reference, NameIf(b), reference);
  }

  lemma {:induction false} ChosenIndices(chosen: u32 -> bool, reference: seq<Entry>)
    ensures forall i :: i in FilterMap(RereadIndex(chosen, true), reference)
                   <==> chosen(i) && exists e <- reference :: e.index == i
  {
    if reference == [] {
    } else {
      ChosenIndices(chosen, reference[1..]);
      assert reference == [reference[0]] + reference[1..];
    }
  }

  lemma {:induction false} NothingReread(chosen: u32 -> bool, all: bool, values: bool, list: bool,
                                         reference: seq<Entry>)
    ensures FilterMap(Reread(chosen, false, all, values, list), reference) == []
    ensures !values ==> FilterMap(RereadIndex(chosen, values), reference) == []
  {
    if reference == [] {
    } else {
      NothingReread(chosen, all, values, list, reference[1..]);
    }
  }

  lemma NoEntries()
    ensures SelectedEntryNames(Sort(BY_INDEX, [])) == []
  {}

  /** Entries with an index and a VALUE flag, but no names: the dictionary supplies them. */
  lemma IndexValuesDecode(utf8: Name -> bool, attributes: seq<Attribute>, kind: u16, reference: seq<Entry>,
                          chosen: u32 -> bool, size: u32)
    requires var top := IndexValues(chosen, reference, size);
             Find(attributes, kind) == Some(EncodeAttributes(top)) && |EncodeAttributes(top)| <= LARGEST_VALUE
    ensures BitsetNamesWithReference(utf8, attributes, kind, reference) == NamesWhere(chosen, reference)
  {
    hide EncodeAttributes, NestedAttributes, BitEntry, Has, Find, Masked, FilterMap, Sort, SelectedEntryNames;
    var bits := FilterMap(Listed(chosen, false, true, true), reference);
    VerboseRead(attributes, kind, false, size, bits);
    BitsReread(utf8, reference, chosen, false, true, true, false);
    NothingReread(chosen, true, true, false, reference);
    NoEntries();
    ChosenIndices(chosen, reference);
    var indices := FilterMap(RereadIndex(chosen, true), reference);
    SameChoice(MemberOf(indices), chosen, reference);
    if indices == [] {
      NothingChosen(chosen, reference);
    }
  }

  lemma {:induction false} NothingChosen(chosen: u32 -> bool, reference: seq<Entry>)
    requires FilterMap(RereadIndex(chosen, true), reference) == []
    ensures FilterMap(NameIf(chosen), reference) == [] && NamesWhere(chosen, reference) == []
  {
    if reference == [] {
    } else {
      NothingChosen(chosen, reference[1..]);
    }
  }

  /** A bitmap whose bits agree with the choice on the dictionary's indices. */
  lemma CompactDecodes(utf8: Name -> bool, attributes: seq<Attribute>, kind: u16, reference: seq<Entry>,
                       chosen: u32 -> bool, size: u32, bitmap: seq<byte>)
    requires Find(attributes, kind) == Some(EncodeAttributes(Compact(size, bitmap)))
    requires |EncodeAttributes(Compact(size, bitmap))| <= LARGEST_VALUE
    requires forall e <- reference :: BitSet(bitmap, e.index) == chosen(e.index)
    ensures BitsetNamesWithReference(utf8, attributes, kind, reference) == NamesWhere(chosen, reference)
  {
    hide EncodeAttributes, NestedAttributes, Find, FilterMap, Sort, SelectedEntryNames, BitSet;
    CompactRead(attributes, kind, size, bitmap);
    NoEntries();
    SameChoice(InBitmap(bitmap), chosen, reference);
  }

  /** The bitmap the kernel would send for a choice: bit i of the map is bit i % 8 of byte i / 8. */
  function Packed(chosen: u32 -> bool, base: u32, n: nat): (r: nat)
    requires base + n <= 0x1_0000_0000
    ensures r < Pow2(n)
    decreases n
  {
    if n == 0 then 0
    else (if chosen(base) then 1 else 0) + if n == 1 then 0 else 2 * Packed(chosen, base + 1, n - 1)
  }

  function BitmapByte(chosen: u32 -> bool, base: u32): byte
    requires base + 8 <= 0x1_0000_0000
  {
    assert Pow2(4) == 16 && Pow2(8) == 256;
    Packed(chosen, base, 8)
  }

  function Bitmap(chosen: u32 -> bool, bytes: nat): (r: seq<byte>)
    requires 8 * bytes <= 0x1_0000_0000
    ensures |r| == bytes
  {
    seq(bytes, i requires 0 <= i < bytes => BitmapByte(chosen, 8 * i))
  }

  lemma {:induction false} BitOfPacked(chosen: u32 -> bool, base: u32, n: nat, k: nat)
    requires base + n <= 0x1_0000_0000 && k < n
    ensures And(n, Packed(chosen, base, n), Pow2(k)) != 0 <==> chosen(base + k)
    decreases n
  {
    if k == 0 {
      AndZero(n - 1, Packed(chosen, base, n) / 2);
    } else {
      BitOfPacked(chosen, base + 1, n - 1, k - 1);
    }
  }

  lemma BitmapIsFaithful(chosen: u32 -> bool, bytes: nat, index: u32)
    requires 8 * bytes <= 0x1_0000_0000 && index < 8 * bytes
    ensures BitSet(Bitmap(chosen, bytes), index) == chosen(index)
  {
    BitOfPacked(chosen, index / 8 * 8, 8, index % 8);
  }

  /** The compact encoding of a choice, with a bitmap long enough for every index of the dictionary. */
  lemma BitmapDecodes(utf8: Name -> bool, attributes: seq<Attribute>, kind: u16, reference: seq<Entry>,
                      chosen: u32 -> bool, size: u32, bytes: nat)
    requires 8 * bytes <= 0x1_0000_0000 && forall e <- reference :: e.index < 8 * bytes
    requires var top := Compact(size, Bitmap(chosen, bytes));
             Find(attributes, kind) == Some(EncodeAttributes(top)) && |EncodeAttributes(top)| <= LARGEST_VALUE
    ensures BitsetNamesWithReference(utf8, attributes, kind, reference) == NamesWhere(chosen, reference)
  {
    hide EncodeAttributes, BitSet, Bitmap;
    forall e | e in reference ensures BitSet(Bitmap(chosen, bytes), e.index) == chosen(e.index) {
      BitmapIsFaithful(chosen, bytes, e.index);
    }
    CompactDecodes(utf8, attributes, kind, reference, chosen, size, Bitmap(chosen, bytes));
  }

  /**
   An index-only NOMASK list is not among the encodings the decoder understands: it yields no
   names, which is right exactly if no entry is chosen.
   */
  lemma IndexListDecodesIffEmpty(utf8: Name -> bool, attributes: seq<Attribute>, kind: u16, reference: seq<Entry>,
                                 chosen: u32 -> bool, size: u32)
    requires var top := IndexList(chosen, reference, size);
             Find(attributes, kind) == Some(EncodeAttributes(top)) && |EncodeAttributes(top)| <= LARGEST_VALUE
    ensures BitsetNamesWithReference(utf8, attributes, kind, reference) == []
    ensures BitsetNamesWithReference(utf8, attributes, kind, reference) == NamesWhere(chosen, reference)
       <==> forall e <- reference :: !chosen(e.index)
  {
    hide EncodeAttributes, NestedAttributes, BitEntry, Has, Find, Masked, Sort, SelectedEntryNames, FilterMap;
    var bits := FilterMap(Listed(chosen, false, false, false), reference);
    VerboseRead(attributes, kind, true, size, bits);
    BitsReread(utf8, reference, chosen, false, false, false, true);
    NothingReread(chosen, false, false, true, reference);
    NoEntries();
    NoNamesIffNoneChosen(chosen, reference);
  }

  lemma SortKeepsEmpty(names: seq<Name>)
    ensures Sort(BY_NAME, names) == [] <==> names == []
  {
    assert |multiset(Sort(BY_NAME, names))| == |multiset(names)|;
  }

  lemma {:induction false} NoNamesIffNoneChosen(chosen: u32 -> bool, reference: seq<Entry>)
    ensures FilterMap(NameIf(chosen), reference) == [] <==> forall e <- reference :: !chosen(e.index)
    ensures NamesWhere(chosen, reference) == [] <==> FilterMap(NameIf(chosen), reference) == []
  {
    hide Sort;
    SortKeepsEmpty(FilterMap(NameIf(chosen), reference));
    if reference == [] {
    } else {
      NoNamesIffNoneChosen(chosen, reference[1..]);
      assert reference == [reference[0]] + reference[1..];
    }
  }

  /** An input on which it is wrong: a single entry, chosen and listed by its index. */
  lemma IndexListIsLost(utf8: Name -> bool, kind: u16, e: Entry, size: u32)
    ensures var all := (i: u32) => true;
            var attributes := [Attribute(kind, EncodeAttributes(IndexList(all, [e], size)))];
            && BitsetNamesWithReference(utf8, attributes, kind, [e]) == []
            && NamesWhere(all, [e]) == [e.name]
  {
    hide EncodeAttributes, BitEntry, BitsetNamesWithReference;
    var all := (i: u32) => true;
    var top := IndexList(all, [e], size);
    IndexListIsShort(all, e, size);
    assert [e][1..] == [];
    IndexListDecodesIffEmpty(utf8, [Attribute(kind, EncodeAttributes(top))], kind, [e], all, size);
    assert FilterMap(NameIf(all), [e]) == [e.name];
    assert [e.name][1..] == [];
  }

  lemma IndexListIsShort(chosen: u32 -> bool, e: Entry, size: u32)
    requires chosen(e.index)
    ensures |EncodeAttributes(IndexList(chosen, [e], size))| == 28
  {
    hide EncodeAttribute, EncodeAttributes;
    var bit, bits := BitAttributes(e, false, false), [BitEntry(e, false, false)];
    assert [e][1..] == [] && FilterMap(Listed(chosen, false, false, false), [e]) == bits;
    assert bit + [] == bit && bits + [] == bits;
    EncodedLength(bit, []);
    EncodedLength(bits, []);
    var last := [NestedOf(BITSET_BITS, bits)];
    var middle := [Attribute(BITSET_SIZE, Bytes32(size))];
    assert last + [] == last;
    EncodedLength(last, []);
    EncodedLength(middle, last);
    EncodedLength([Attribute(BITSET_NOMASK, [])], middle + last);
    assert IndexList(chosen, [e], size) == [Attribute(BITSET_NOMASK, [])] + (middle + last);
  }

  lemma EncodedLength(first: seq<Attribute>, later: seq<Attribute>)
    requires |first| == 1
    ensures |EncodeAttributes(first + later)|
         == AlignTo4(HEADER_SIZE + |first[0].value|) + |EncodeAttributes(later)|
    ensures EncodeAttributes([]) == []
  {
    assert (first + later)[0] == first[0] && (first + later)[1..] == later;
  }
}
