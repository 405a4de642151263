/**
 Netlink attributes: the length-prefixed, four-byte-aligned records that
 src/generic_netlink.rs appends to a byte vector and walks with an offset.
 Native-endian fields are little-endian here.
 */
module Attributes {
  import opened Words
  import Bits

  const HEADER_SIZE: nat := 4
  const LARGEST_VALUE: nat := 0xffff - HEADER_SIZE
  const NLA_TYPE_MASK: nat := 0x3fff
  const NLA_F_NESTED: nat := 0x8000

  datatype Attribute = Attribute(kind: u16, value: seq<byte>)

  /** `kind & NLA_TYPE_MASK`; see MaskedKindIsAnd. */
  function MaskedKind(kind: u16): (r: u16)
    ensures r <= NLA_TYPE_MASK
  {
    kind % 0x4000
  }

  /** `kind | NLA_F_NESTED`; see NestedKindIsOr. */
  function NestedKind(kind: u16): u16 {
    if kind < NLA_F_NESTED then kind + NLA_F_NESTED else kind
  }

  // ---- Appending ----

  function EncodeAttribute(a: Attribute): (b: seq<byte>)
    ensures |b| == AlignTo4(HEADER_SIZE + |a.value|)
  {
    AlignTo4Shifts(HEADER_SIZE, |a.value|);
    Bytes16((HEADER_SIZE + |a.value|) % 0x1_0000) + Bytes16(a.kind) + a.value
    + Zeros(AlignTo4(|a.value|) - |a.value|)
  }

  function EncodeAttributes(attributes: seq<Attribute>): (b: seq<byte>)
    ensures |b| % 4 == 0
  {
    if attributes == [] then []
    else
      var first, rest := EncodeAttribute(attributes[0]), EncodeAttributes(attributes[1..]);
      AlignedSum(|first|, |rest|);
      first + rest
  }

  lemma {:induction false} EncodeOneMore(attributes: seq<Attribute>, a: Attribute)
    ensures EncodeAttributes(attributes + [a]) == EncodeAttributes(attributes) + EncodeAttribute(a)
  {
    if attributes == [] {
      assert EncodeAttributes([a]) == EncodeAttribute(a) + EncodeAttributes([]);
    } else {
      assert (attributes + [a])[1..] == attributes[1..] + [a];
      EncodeOneMore(attributes[1..], a);
    }
  }

  lemma EncodeNext(target: seq<byte>, attributes: seq<Attribute>, i: nat)
    requires i < |attributes|
    ensures target + EncodeAttributes(attributes[..i + 1])
         == target + EncodeAttributes(attributes[..i]) + EncodeAttribute(attributes[i])
  {
    assert attributes[..i + 1] == attributes[..i] + [attributes[i]];
    EncodeOneMore(attributes[..i], attributes[i]);
    assert target + (EncodeAttributes(attributes[..i]) + EncodeAttribute(attributes[i]))
        == target + EncodeAttributes(attributes[..i]) + EncodeAttribute(attributes[i]);
  }

  method PushZeros(unpadded: seq<byte>) returns (r: seq<byte>)
    ensures r == unpadded + Zeros(AlignTo4(|unpadded|) - |unpadded|)
  {
    r := unpadded;
    while |r| % 4 != 0
      invariant |unpadded| <= |r| <= AlignTo4(|unpadded|)
      invariant r == unpadded + Zeros(|r| - |unpadded|)
      decreases AlignTo4(|unpadded|) - |r|
    {
      r := r + [0];
    }
  }

  /** The loop body that `nested` and `build_message` share: header, value, then zeros up to alignment. */
  method AppendAttribute(target: seq<byte>, a: Attribute) returns (r: seq<byte>)
    requires |target| % 4 == 0
    ensures r == target + EncodeAttribute(a)
    ensures |r| % 4 == 0
  {
    r := target + Bytes16((HEADER_SIZE + |a.value|) % 0x1_0000) + Bytes16(a.kind);
    r := r + a.value;
    AlignTo4Shifts(|target| + HEADER_SIZE, |a.value|);
    r := PushZeros(r);
  }

  method AppendAttributes(target: seq<byte>, attributes: seq<Attribute>) returns (r: seq<byte>)
    requires |target| % 4 == 0
    ensures r == target + EncodeAttributes(attributes)
  {
    r := target;
    for i := 0 to |attributes|
      invariant |r| % 4 == 0
      invariant r == target + EncodeAttributes(attributes[..i])
    {
      EncodeNext(target, attributes, i);
      r := AppendAttribute(r, attributes[i]);
    }
    assert attributes[..|attributes|] == attributes;
  }

  function NestedOf(kind: u16, attributes: seq<Attribute>): Attribute {
    Attribute(NestedKind(kind), EncodeAttributes(attributes))
  }

  method Nested(kind: u16, attributes: seq<Attribute>) returns (a: Attribute)
    ensures a == NestedOf(kind, attributes)
  {
    var value := AppendAttributes([], attributes);
    a := Attribute(NestedKind(kind), value);
  }

  // ---- Walking ----

  function DeclaredLength(message: seq<byte>, offset: nat): nat
    requires offset + HEADER_SIZE <= |message|
  {
    Word16(message[offset..])
  }

  function AttributeAt(message: seq<byte>, offset: nat): Attribute
    requires offset + HEADER_SIZE <= |message|
    requires HEADER_SIZE <= DeclaredLength(message, offset) <= |message| - offset
  {
    Attribute(MaskedKind(Word16(message[offset + 2..])),
              message[offset + HEADER_SIZE..offset + DeclaredLength(message, offset)])
  }

  /** The attributes of `message` from `offset` on, or None when a declared length does not fit. */
  function AttributesAt(message: seq<byte>, offset: nat): Option<seq<Attribute>>
    decreases |message| - offset
  {
    if |message| < offset + HEADER_SIZE then Some([])
    else
      var length := DeclaredLength(message, offset);
      if length < HEADER_SIZE || length > |message| - offset then None
      else After([AttributeAt(message, offset)], AttributesAt(message, offset + AlignTo4(length)))
  }

  method ParseAttributes(message: seq<byte>, start: nat) returns (r: Option<seq<Attribute>>)
    ensures r == AttributesAt(message, start)
  {
    hide Word16, AlignTo4;
    var attributes: seq<Attribute>, offset := [], start;
    AfterAfter([], [], AttributesAt(message, start));
    while SaturatingSub(|message|, offset) >= HEADER_SIZE
      invariant AttributesAt(message, start) == After(attributes, AttributesAt(message, offset))
      decreases |message| - offset
    {
      var length := Word16(message[offset..]);
      if length < HEADER_SIZE || length > |message| - offset {
        return None;
      }
      var attribute := Attribute(MaskedKind(Word16(message[offset + 2..])),
                                 message[offset + HEADER_SIZE..offset + length]);
      AfterAfter(attributes, [attribute], AttributesAt(message, offset + AlignTo4(length)));
      attributes := attributes + [attribute];
      offset := offset + AlignTo4(length);
    }
    assert attributes + [] == attributes;
    return Some(attributes);
  }

  function NestedAttributes(value: seq<byte>): Option<seq<Attribute>> {
    AttributesAt(value, 0)
  }

  // ---- Round trip ----

  function Masked(attributes: seq<Attribute>): (r: seq<Attribute>)
    ensures |r| == |attributes|
  {
    seq(|attributes|, i requires 0 <= i < |attributes| =>
      Attribute(MaskedKind(attributes[i].kind), attributes[i].value))
  }

  predicate Fits(a: Attribute) {
    |a.value| <= LARGEST_VALUE
  }

  lemma EncodedFields(prefix: seq<byte>, a: Attribute, suffix: seq<byte>)
    ensures var m, n := prefix + EncodeAttribute(a) + suffix, |prefix|;
            && n + HEADER_SIZE <= |m|
            && Word16(m[n..]) == (HEADER_SIZE + |a.value|) % 0x1_0000
            && Word16(m[n + 2..]) == a.kind
            && HEADER_SIZE + |a.value| <= |m| - n
            && m[n + HEADER_SIZE..n + HEADER_SIZE + |a.value|] == a.value
  {
    var m, n := prefix + EncodeAttribute(a) + suffix, |prefix|;
    Word16OfBytes((HEADER_SIZE + |a.value|) % 0x1_0000);
    Word16OfBytes(a.kind);
    assert m[n..][..2] == Bytes16((HEADER_SIZE + |a.value|) % 0x1_0000);
    assert m[n + 2..][..2] == Bytes16(a.kind);
  }

  lemma FittingAttributeIsRead(prefix: seq<byte>, a: Attribute, suffix: seq<byte>)
    requires Fits(a)
    ensures var m, n := prefix + EncodeAttribute(a) + suffix, |prefix|;
            AttributesAt(m, n) == After([Attribute(MaskedKind(a.kind), a.value)],
                                        AttributesAt(m, n + |EncodeAttribute(a)|))
  {
    hide EncodeAttribute, Word16, MaskedKind, AlignTo4;
    EncodedFields(prefix, a, suffix);
    var m, n := prefix + EncodeAttribute(a) + suffix, |prefix|;
    assert DeclaredLength(m, n) == HEADER_SIZE + |a.value|;
    assert AttributeAt(m, n) == Attribute(MaskedKind(a.kind), a.value);
  }

  lemma OversizedAttributeIsLost(prefix: seq<byte>, a: Attribute, suffix: seq<byte>)
    requires !Fits(a)
    ensures match AttributesAt(prefix + EncodeAttribute(a) + suffix, |prefix|)
            case None => true
            case Some(read) => |read| > 0 && |read[0].value| < |a.value|
  {
    EncodedFields(prefix, a, suffix);
  }

  /**
   Parsing what was appended gives the same attributes, up to the flag bits of their kinds,
   exactly when every value fits the 16-bit length field. A longer value has its length
   truncated by the cast to u16.
   */
  lemma {:induction false} RoundTripIffFits(prefix: seq<byte>, attributes: seq<Attribute>)
    ensures AttributesAt(prefix + EncodeAttributes(attributes), |prefix|) == Some(Masked(attributes))
       <==> forall a <- attributes :: Fits(a)
    decreases attributes
  {
    hide Word16, AlignTo4;
    if attributes == [] {
    } else {
      var a, rest := attributes[0], attributes[1..];
      assert prefix + EncodeAttributes(attributes) == prefix + EncodeAttribute(a) + EncodeAttributes(rest);
      assert Masked(attributes) == [Attribute(MaskedKind(a.kind), a.value)] + Masked(rest);
      if Fits(a) {
        FittingAttributeIsRead(prefix, a, EncodeAttributes(rest));
        RoundTripIffFits(prefix + EncodeAttribute(a), rest);
        assert Masked(attributes)[1..] == Masked(rest);
        assert attributes == [a] + rest;
      } else {
        OversizedAttributeIsLost(prefix, a, EncodeAttributes(rest));
        assert Masked(attributes)[0].value == a.value;
      }
    }
  }

  /** Where the parts of an encoded attribute lie: length and kind, low byte first, the value, and zeros. */
  lemma AttributeLayout(a: Attribute)
    requires Fits(a)
    ensures var b: seq<int>, end := EncodeAttribute(a), 4 + |a.value|;
            && end <= |b| < end + 4 && |b| % 4 == 0
            && b[0] + 0x100 * b[1] == end
            && b[2] + 0x100 * b[3] == a.kind
            && b[4..end] == a.value
            && forall i :: end <= i < |b| ==> b[i] == 0
  {
    hide Bytes16, AlignTo4, Zeros;
    var length: u16 := 4 + |a.value|;
    assert length % 0x1_0000 == length;
    LayoutOf(Bytes16(length), Bytes16(a.kind), a.value, Zeros(AlignTo4(|a.value|) - |a.value|));
    BytesOf(length);
    BytesOf(a.kind);
    AllZero(AlignTo4(|a.value|) - |a.value|);
  }

  lemma LayoutOf(length: seq<byte>, kind: seq<byte>, value: seq<byte>, padding: seq<byte>)
    requires |length| == 2 && |kind| == 2
    ensures var b, end := length + kind + value + padding, 4 + |value|;
            && b[0] == length[0] && b[1] == length[1] && b[2] == kind[0] && b[3] == kind[1]
            && b[4..end] == value
            && forall i :: end <= i < |b| ==> b[i] == padding[i - end]
  {}

  lemma BytesOf(n: u16)
    ensures var b: seq<int> := Bytes16(n); b[0] + 0x100 * b[1] == n
  {}

  lemma AllZero(n: nat)
    ensures forall i :: 0 <= i < n ==> Zeros(n)[i] == 0
  {}

  /** What a walk may find after the last attribute: fewer than four bytes are ignored. */
  lemma {:induction false} ShortTailIsIgnored(prefix: seq<byte>, attributes: seq<Attribute>, tail: seq<byte>)
    requires |tail| < 4 && forall a <- attributes :: Fits(a)
    ensures AttributesAt(prefix + EncodeAttributes(attributes) + tail, |prefix|) == Some(Masked(attributes))
    decreases attributes
  {
    hide Word16, AlignTo4, EncodeAttribute, MaskedKind;
    var m := prefix + EncodeAttributes(attributes) + tail;
    if attributes == [] {
    } else {
      var a, rest := attributes[0], attributes[1..];
      assert m == prefix + EncodeAttribute(a) + (EncodeAttributes(rest) + tail);
      assert m == prefix + EncodeAttribute(a) + EncodeAttributes(rest) + tail;
      assert Masked(attributes) == [Attribute(MaskedKind(a.kind), a.value)] + Masked(rest);
      assert Fits(attributes[0]);
      FittingAttributeIsRead(prefix, a, EncodeAttributes(rest) + tail);
      ShortTailIsIgnored(prefix + EncodeAttribute(a), rest, tail);
    }
  }

  /** An input that is lost: one byte more than fits, and the truncated length is zero. */
  lemma OversizedValueIsLost(kind: u16)
    ensures var a := Attribute(kind, Zeros(LARGEST_VALUE + 1));
            NestedAttributes(EncodeAttributes([a])) == None
  {
    hide Word16, AlignTo4;
    var a := Attribute(kind, Zeros(LARGEST_VALUE + 1));
    assert [a][1..] == [];
    EncodedFields([], a, []);
    assert [] + EncodeAttribute(a) + [] == EncodeAttributes([a]);
  }

  /** Attribute trees: what a sequence of calls to `nested` builds. */
  datatype Tree = Leaf(kind: u16, value: seq<byte>) | Branch(kind: u16, children: seq<Tree>)

  function Build(tree: Tree): Attribute {
    match tree
    case Leaf(kind, value) => Attribute(kind, value)
    case Branch(kind, children) => NestedOf(kind, BuildAll(children))
  }

  function BuildAll(trees: seq<Tree>): (r: seq<Attribute>)
    ensures |r| == |trees|
    ensures forall i :: 0 <= i < |trees| ==> r[i] == Build(trees[i])
  {
    if trees == [] then [] else [Build(trees[0])] + BuildAll(trees[1..])
  }

  /** Kinds leave the flag bits free and every encoded value fits, at all depths. */
  ghost predicate Encodable(tree: Tree) {
    && tree.kind <= NLA_TYPE_MASK
    && Fits(Build(tree))
    && (tree.Branch? ==> forall child <- tree.children :: Encodable(child))
  }

  /** Re-applying `nested_attributes` to the attribute recovers every child list of the tree. */
  ghost predicate Recovers(tree: Tree, a: Attribute) {
    && a.kind == tree.kind
    && match tree
       case Leaf(_, value) => a.value == value
       case Branch(_, children) =>
         match NestedAttributes(a.value)
         case None => false
         case Some(nested) =>
           && |nested| == |children|
           && forall i :: 0 <= i < |children| ==> Recovers(children[i], nested[i])
  }

  lemma {:induction false} TreeRoundTrip(tree: Tree)
    requires Encodable(tree)
    ensures Recovers(tree, Attribute(MaskedKind(Build(tree).kind), Build(tree).value))
  {
    match tree {
      case Leaf(_, _) =>
      case Branch(kind, children) =>
        var attributes := BuildAll(children);
        assert NestedAttributes(Build(tree).value) == Some(Masked(attributes)) by {
          forall a | a in attributes ensures Fits(a) {
            var i :| 0 <= i < |children| && a == Build(children[i]);
            assert Encodable(children[i]);
          }
          RoundTripIffFits([], attributes);
          assert [] + EncodeAttributes(attributes) == Build(tree).value;
        }
        forall i | 0 <= i < |children|
          ensures Recovers(children[i], Masked(attributes)[i])
        {
          TreeRoundTrip(children[i]);
        }
        assert MaskedKind(NestedKind(kind)) == kind;
    }
  }

  // ---- The source's masks ----

  lemma LowBitsOfKind(x: u16)
    ensures Bits.Pow2(14) == 0x4000 && Bits.Low(x, 14) == x % 0x4000
  {
    assert Bits.Pow2(7) == 0x80;
    assert Bits.Pow2(14) == 0x4000;
    Bits.LowIsRemainder(x, 14);
  }

  lemma MaskedKindIsAnd(kind: u16)
    ensures MaskedKind(kind) == Bits.And(16, kind, NLA_TYPE_MASK)
  {
    LowBitsOfKind(kind);
    Bits.AndKeepsLowBits(16, kind, 14);
  }

  lemma {:induction false} OrWithTopBit(n: nat, x: nat)
    requires x < Bits.Pow2(n + 1)
    ensures Bits.Or(n + 1, x, Bits.Pow2(n)) == if x < Bits.Pow2(n) then x + Bits.Pow2(n) else x
  {
    if n == 0 {
    } else {
      OrWithTopBit(n - 1, x / 2);
    }
  }

  lemma NestedKindIsOr(kind: u16)
    ensures NestedKind(kind) == Bits.Or(16, kind, NLA_F_NESTED)
  {
    LowBitsOfKind(0);
    assert Bits.Pow2(15) == 0x8000;
    OrWithTopBit(15, kind);
  }

  /** `(length + 3) & !3` on words of any width that holds length + 3. */
  lemma AlignTo4IsMask(width: nat, length: nat)
    requires width >= 2 && length + 3 < Bits.Pow2(width)
    ensures Bits.Not(width, 3) == Bits.Pow2(width) - 4
    ensures AlignTo4(length) == Bits.And(width, length + 3, Bits.Not(width, 3))
  {
    hide AlignTo4;
    Bits.NotIsComplement(width, 3);
    assert Bits.Pow2(2) == 4;
    Bits.AndClearsLowBits(width, length + 3, 2);
    Bits.LowIsRemainder(length + 3, 2);
    AlignTo4RoundsUp(length);
  }
}
