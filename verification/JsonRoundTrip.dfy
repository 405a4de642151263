/** The reference parser undoes the printer, for all values; records of a stream stay on their lines. */
module JsonRoundTrip {
  import opened Words
  import opened Text
  import opened Json
  import opened JsonParser

  // ---- Numbers ----

  predicate IsNumberToken(text: string) {
    NumberEnd(text) == Some(|text|)
  }

  /** Text that cannot make a preceding number token longer. */
  predicate EndsNumber(suffix: string) {
    suffix == "" || !(IsDigit(suffix[0]) || suffix[0] == '.' || suffix[0] == 'e' || suffix[0] == 'E')
  }

  lemma {:induction false} DigitsWithSuffix(s: string, suffix: string)
    requires Digits(s) < |s| || EndsNumber(suffix)
    ensures Digits(s + suffix) == Digits(s)
  {
    if s == "" {
      assert s + suffix == suffix;
    } else if IsDigit(s[0]) {
      assert (s + suffix)[1..] == s[1..] + suffix;
      DigitsWithSuffix(s[1..], suffix);
    }
  }

  lemma Tail(s: string, suffix: string, i: nat)
    requires i <= |s|
    ensures (s + suffix)[i..] == s[i..] + suffix
  {}

  lemma IntEndWithSuffix(s: string, suffix: string)
    requires IntEnd(s).Some? && EndsNumber(suffix)
    ensures IntEnd(s + suffix) == IntEnd(s)
  {
    var sign := if StartsWith(s, '-') then 1 else 0;
    Tail(s, suffix, sign);
    DigitsWithSuffix(s[sign..], suffix);
  }

  lemma FractionEndWithSuffix(s: string, suffix: string, start: nat)
    requires start <= |s| && FractionEnd(s, start).Some? && EndsNumber(suffix)
    ensures FractionEnd(s + suffix, start) == FractionEnd(s, start)
  {
    Tail(s, suffix, start);
    if StartsWith(s[start..], '.') {
      Tail(s, suffix, start + 1);
      DigitsWithSuffix(s[start + 1..], suffix);
    }
  }

  lemma ExponentEndWithSuffix(s: string, suffix: string, start: nat)
    requires start <= |s| && ExponentEnd(s, start).Some? && EndsNumber(suffix)
    ensures ExponentEnd(s + suffix, start) == ExponentEnd(s, start)
  {
    Tail(s, suffix, start);
    if StartsWith(s[start..], 'e') || StartsWith(s[start..], 'E') {
      Tail(s, suffix, start + 1);
      var sign := if StartsWith(s[start + 1..], '+') || StartsWith(s[start + 1..], '-') then 1 else 0;
      Tail(s, suffix, start + 1 + sign);
      DigitsWithSuffix(s[start + 1 + sign..], suffix);
    }
  }

  lemma NumberEndWithSuffix(s: string, suffix: string)
    requires IsNumberToken(s) && EndsNumber(suffix)
    ensures NumberEnd(s + suffix) == Some(|s|)
  {
    IntEndWithSuffix(s, suffix);
    var integer := IntEnd(s).value;
    FractionEndWithSuffix(s, suffix, integer);
    ExponentEndWithSuffix(s, suffix, FractionEnd(s, integer).value);
  }

  lemma NumberStart(s: string)
    requires IntEnd(s).Some?
    ensures s != "" && (s[0] == '-' || IsDigit(s[0]))
  {}

  // ---- Strings ----

  lemma HexDigitValue(n: nat)
    requires n < 16
    ensures HexValue(LowerDigit(n)) == Some(n)
  {}

  lemma HexDecomposition(n: nat)
    requires n < 0x1_0000
    ensures n == ((n / 0x1000 * 16 + n / 0x100 % 0x10) * 16 + n / 0x10 % 0x10) * 16 + n % 0x10
  {
    assert n / 0x100 == n / 0x1000 * 16 + n / 0x100 % 0x10;
    assert n / 0x10 == n / 0x100 * 16 + n / 0x10 % 0x10;
  }

  lemma HexFourOfDigits(n: nat, rest: string)
    requires n < 0x1_0000
    ensures HexFour(FourHexDigits(n) + rest) == Some(n)
    ensures (FourHexDigits(n) + rest)[4..] == rest
  {
    hide LowerDigit, HexValue;
    var a, b, c, d := n / 0x1000, n / 0x100 % 0x10, n / 0x10 % 0x10, n % 0x10;
    HexDigitValue(a);
    HexDigitValue(b);
    HexDigitValue(c);
    HexDigitValue(d);
    HexDecomposition(n);
    var s := FourHexDigits(n) + rest;
    assert s[0] == LowerDigit(a) && s[1] == LowerDigit(b) && s[2] == LowerDigit(c) && s[3] == LowerDigit(d);
  }

  /** Reading one character, escaped or not, and what follows it. */
  function OneCharacter(s: string): Parse<char>
    requires s != ""
  {
    if s[0] == '\\' then EscapeSequence(s[1..]) else Parsed(s[0], s[1..])
  }

  lemma ShortEscape(c: char, letter: char, rest: string)
    requires Escape(c) == ['\\', letter] && letter != 'u'
    ensures OneCharacter(Escape(c) + rest) == Parsed(c, rest)
  {
    var s := Escape(c) + rest;
    assert s[1..] == [letter] + rest && s[1..][1..] == rest;
  }

  lemma ControlEscape(c: char, rest: string)
    requires c <= '\U{1f}' && Escape(c) == "\\u" + FourHexDigits(c as int)
    ensures OneCharacter(Escape(c) + rest) == Parsed(c, rest)
  {
    hide Escape, FourHexDigits;
    var s, digits := Escape(c) + rest, FourHexDigits(c as int) + rest;
    assert s[1..] == ['u'] + digits && s[1..][1..] == digits;
    HexFourOfDigits(c as int, rest);
  }

  lemma EscapedCharacter(c: char, rest: string)
    ensures var s := Escape(c) + rest;
            && s != "" && s[0] >= ' ' && s[0] != '\"'
            && OneCharacter(s) == Parsed(c, rest)
  {
    hide OneCharacter, FourHexDigits;
    if |Escape(c)| == 1 {
      Unescaped(c, rest);
    } else if |Escape(c)| == 2 {
      assert Escape(c)[1] in {'\"', '\\', 'b', 'f', 'n', 'r', 't'};
      ShortEscape(c, Escape(c)[1], rest);
    } else {
      ControlEscape(c, rest);
    }
  }

  lemma Unescaped(c: char, rest: string)
    requires Escape(c) == [c]
    ensures OneCharacter(Escape(c) + rest) == Parsed(c, rest)
  {
    assert (Escape(c) + rest)[1..] == rest;
  }

  lemma {:induction false} CharactersOfEscaped(text: string, rest: string)
    ensures Characters(EscapeAll(text) + "\"" + rest) == Parsed(text, rest)
    decreases |text|
  {
    hide Escape, EscapeSequence;
    var s := EscapeAll(text) + "\"" + rest;
    if text == "" {
      assert s[0] == '\"' && s[1..] == rest;
    } else {
      var more := EscapeAll(text[1..]) + "\"" + rest;
      assert s == Escape(text[0]) + more;
      EscapedCharacter(text[0], more);
      CharactersOfEscaped(text[1..], rest);
      assert text == [text[0]] + text[1..];
    }
  }

  lemma QuotedText(text: string, rest: string)
    ensures Quote(text) + rest == "\"" + (EscapeAll(text) + "\"" + rest)
    ensures (Quote(text) + rest)[1..] == EscapeAll(text) + "\"" + rest
    ensures Characters((Quote(text) + rest)[1..]) == Parsed(text, rest)
  {
    assert Quote(text) + rest == "\"" + (EscapeAll(text) + "\"" + rest);
    CharactersOfEscaped(text, rest);
  }

  // ---- Values ----

  /** Every Number in the tree holds a valid number token, as the module asks of its callers. */
  predicate NumbersValid(v: Value) {
    match v
    case Number(text) => IsNumberToken(text)
    case Array(items) => ItemsValid(items)
    case Object(fields) => FieldsValid(fields)
    case _ => true
  }

  predicate ItemsValid(items: seq<Value>) {
    items != [] ==> NumbersValid(items[0]) && ItemsValid(items[1..])
  }

  predicate FieldsValid(fields: seq<Field>) {
    fields != [] ==> NumbersValid(fields[0].value) && FieldsValid(fields[1..])
  }

  /** How a rendered value starts: with no blank and no closing bracket. */
  lemma FirstCharacter(v: Value)
    requires NumbersValid(v)
    ensures var s := Render(v);
            && s != "" && !IsBlank(s[0]) && s[0] != ']'
            && (v.Number? ==> s[0] == '-' || IsDigit(s[0]))
  {
    if v.Number? { NumberStart(v.text); }
  }

  lemma NoBlanks(s: string)
    requires s != "" && !IsBlank(s[0])
    ensures SkipBlanks(s) == s
  {}

  lemma LiteralRoundTrip(name: string, v: Value, suffix: string)
    requires || (name == "null" && v == Null)
             || (name == "true" && v == Bool(true))
             || (name == "false" && v == Bool(false))
    ensures ParseValue(name + suffix) == Parsed(v, suffix)
  {
    hide Characters, NumberEnd, ParseElements, ParseMembers;
    var s := name + suffix;
    assert s[0] == name[0];
    NoBlanks(s);
    assert name <= s && s[|name|..] == suffix;
  }

  lemma NumberRoundTrip(text: string, suffix: string)
    requires IsNumberToken(text) && EndsNumber(suffix)
    ensures ParseValue(text + suffix) == Parsed(Number(text), suffix)
  {
    hide Characters, ParseElements, ParseMembers;
    var s := text + suffix;
    NumberStart(text);
    assert s[0] == text[0];
    NoBlanks(s);
    NumberEndWithSuffix(text, suffix);
    assert s[..|text|] == text && s[|text|..] == suffix;
  }

  lemma StringRoundTrip(text: string, suffix: string)
    ensures ParseValue(Quote(text) + suffix) == Parsed(String(text), suffix)
  {
    hide Characters, NumberEnd, ParseElements, ParseMembers;
    QuotedText(text, suffix);
    NoBlanks(Quote(text) + suffix);
  }

  lemma EmptyRoundTrip(suffix: string)
    ensures ParseValue("[]" + suffix) == Parsed(Array([]), suffix)
    ensures ParseValue("{}" + suffix) == Parsed(Object([]), suffix)
  {
    hide Characters, NumberEnd, ParseElements, ParseMembers;
    var a, o := "[]" + suffix, "{}" + suffix;
    NoBlanks(a);
    NoBlanks(o);
    assert a[1..] == "]" + suffix && o[1..] == "}" + suffix;
    NoBlanks(a[1..]);
    NoBlanks(o[1..]);
    assert a[1..][1..] == suffix && o[1..][1..] == suffix;
  }

  /** The text of a non-empty list after its first value. */
  function AfterItem(items: seq<Value>, suffix: string): string
    requires items != []
  {
    RenderItems(items[1..], false) + "]" + suffix
  }

  function AfterField(fields: seq<Field>, suffix: string): string
    requires fields != []
  {
    RenderFields(fields[1..], false) + "}" + suffix
  }

  lemma CommaThenItems(items: seq<Value>)
    requires items != []
    ensures RenderItems(items, false) == "," + RenderItems(items, true)
  {
    hide Render;
    var r, t := Render(items[0]), RenderItems(items[1..], false);
    assert "" + r + t == r + t;
    assert "," + (r + t) == "," + r + t;
  }

  lemma FirstItem(items: seq<Value>)
    requires items != []
    ensures RenderItems(items, true) == Render(items[0]) + RenderItems(items[1..], false)
  {
    hide Render;
    assert "" + Render(items[0]) == Render(items[0]);
  }

  lemma Reassociate(a: string, b: string, c: string, d: string)
    ensures a + b + c + d == a + (b + c + d)
  {}

  lemma ItemsText(items: seq<Value>, suffix: string)
    requires items != []
    ensures RenderItems(items, true) + "]" + suffix == Render(items[0]) + AfterItem(items, suffix)
    ensures AfterItem(items, suffix) == if |items| == 1 then "]" + suffix
            else "," + (RenderItems(items[1..], true) + "]" + suffix)
  {
    hide Render, RenderItems;
    FirstItem(items);
    Reassociate(Render(items[0]), RenderItems(items[1..], false), "]", suffix);
    if |items| > 1 {
      CommaThenItems(items[1..]);
      Reassociate(",", RenderItems(items[1..], true), "]", suffix);
    } else {
      NoItems(items[1..]);
      assert "" + "]" == "]";
    }
  }

  lemma NoItems(items: seq<Value>)
    requires items == []
    ensures RenderItems(items, false) == ""
  {}

  lemma NoFields(fields: seq<Field>)
    requires fields == []
    ensures RenderFields(fields, false) == ""
  {}

  lemma CommaThenFields(fields: seq<Field>)
    requires fields != []
    ensures RenderFields(fields, false) == "," + RenderFields(fields, true)
  {
    hide Render, Quote;
    var q, r, t := Quote(fields[0].name), Render(fields[0].value), RenderFields(fields[1..], false);
    var body := q + ":" + r + t;
    assert RenderFields(fields, true) == body by { assert "" + q == q; }
    assert "," + q + ":" + r + t == "," + body;
  }

  lemma FirstField(fields: seq<Field>)
    requires fields != []
    ensures RenderFields(fields, true)
         == Quote(fields[0].name) + ":" + Render(fields[0].value) + RenderFields(fields[1..], false)
  {
    hide Render, Quote;
    assert "" + Quote(fields[0].name) == Quote(fields[0].name);
  }

  lemma FieldsText(fields: seq<Field>, suffix: string)
    requires fields != []
    ensures RenderFields(fields, true) + "}" + suffix
         == Quote(fields[0].name) + (":" + (Render(fields[0].value) + AfterField(fields, suffix)))
    ensures AfterField(fields, suffix) == if |fields| == 1 then "}" + suffix
            else "," + (RenderFields(fields[1..], true) + "}" + suffix)
  {
    hide Render, Quote, RenderFields;
    var q, r, t := Quote(fields[0].name), Render(fields[0].value), RenderFields(fields[1..], false);
    FirstField(fields);
    Reassociate(q + ":" + r, t, "}", suffix);
    Reassociate(q, ":", r, AfterField(fields, suffix));
    Regroup(":", r, AfterField(fields, suffix));
    if |fields| > 1 {
      CommaThenFields(fields[1..]);
      Reassociate(",", RenderFields(fields[1..], true), "}", suffix);
    } else {
      NoFields(fields[1..]);
      assert "" + "}" == "}";
    }
  }

  lemma ItemSuffixEnds(items: seq<Value>, suffix: string)
    requires items != []
    ensures var s := AfterItem(items, suffix);
            && s != "" && EndsNumber(s) && !IsBlank(s[0])
            && (if |items| == 1 then s[0] == ']' && s[1..] == suffix
                else s[0] == ',' && s[1..] == RenderItems(items[1..], true) + "]" + suffix)
  {
    ItemsText(items, suffix);
  }

  lemma FieldSuffixEnds(fields: seq<Field>, suffix: string)
    requires fields != []
    ensures var s := AfterField(fields, suffix);
            && s != "" && EndsNumber(s) && !IsBlank(s[0])
            && (if |fields| == 1 then s[0] == '}' && s[1..] == suffix
                else s[0] == ',' && s[1..] == RenderFields(fields[1..], true) + "}" + suffix)
  {
    FieldsText(fields, suffix);
  }

  /**
   Parsing a rendered value followed by any text gives back the value and that text; the text must
   not continue a number if the value is one.
   */
  lemma {:induction false} RoundTrip(v: Value, suffix: string)
    requires NumbersValid(v)
    requires v.Number? ==> EndsNumber(suffix)
    ensures ParseValue(Render(v) + suffix) == Parsed(v, suffix)
    decreases v, 0
  {
    hide ParseValue, ParseElements, ParseMembers, Quote;
    match v {
      case Null => LiteralRoundTrip("null", v, suffix);
      case Bool(flag) => LiteralRoundTrip(if flag then "true" else "false", v, suffix);
      case Number(text) => NumberRoundTrip(text, suffix);
      case String(text) => StringRoundTrip(text, suffix);
      case Array(items) =>
        if items == [] {
          EmptyRoundTrip(suffix);
          assert Render(v) == "[]";
        } else {
          ItemsRoundTrip(items, suffix);
          ArrayOfElements(items, suffix);
        }
      case Object(fields) =>
        if fields == [] {
          EmptyRoundTrip(suffix);
          assert Render(v) == "{}";
        } else {
          FieldsRoundTrip(fields, suffix);
          ObjectOfMembers(fields, suffix);
        }
    }
  }

  lemma ArrayOfElements(items: seq<Value>, suffix: string)
    requires items != [] && ItemsValid(items)
    requires ParseElements(RenderItems(items, true) + "]" + suffix) == Parsed(items, suffix)
    ensures ParseValue(Render(Array(items)) + suffix) == Parsed(Array(items), suffix)
  {
    hide Characters, NumberEnd, ParseElements, ParseMembers, RenderItems;
    var inner := RenderItems(items, true) + "]" + suffix;
    var s := Render(Array(items)) + suffix;
    assert s == "[" + inner && s[1..] == inner;
    NoBlanks(s);
    ItemsText(items, suffix);
    FirstCharacter(items[0]);
    assert inner[0] == Render(items[0])[0];
    NoBlanks(inner);
  }

  lemma ObjectOfMembers(fields: seq<Field>, suffix: string)
    requires fields != []
    requires ParseMembers(RenderFields(fields, true) + "}" + suffix) == Parsed(fields, suffix)
    ensures ParseValue(Render(Object(fields)) + suffix) == Parsed(Object(fields), suffix)
  {
    hide Characters, NumberEnd, ParseElements, ParseMembers, RenderFields;
    var inner := RenderFields(fields, true) + "}" + suffix;
    var s := Render(Object(fields)) + suffix;
    assert s == "{" + inner && s[1..] == inner;
    NoBlanks(s);
    FieldsText(fields, suffix);
    assert inner[0] == Quote(fields[0].name)[0] == '\"';
    NoBlanks(inner);
  }

  /** One turn of the list parsers, when no blank follows the first element. */
  lemma ElementsStep(s: string, v: Value, after: string)
    requires ParseValue(s) == Parsed(v, after) && SkipBlanks(after) == after && after != ""
    ensures after[0] == ']' ==> ParseElements(s) == Parsed([v], after[1..])
    ensures after[0] == ',' && ParseElements(after[1..]).Parsed? ==>
              ParseElements(s) == Parsed([v] + ParseElements(after[1..]).value, ParseElements(after[1..]).rest)
  {
    hide ParseValue;
  }

  lemma MembersStep(s: string, field: Field, after: string)
    requires ParseMember(s) == Parsed(field, after) && SkipBlanks(after) == after && after != ""
    ensures after[0] == '}' ==> ParseMembers(s) == Parsed([field], after[1..])
    ensures after[0] == ',' && ParseMembers(after[1..]).Parsed? ==>
              ParseMembers(s) == Parsed([field] + ParseMembers(after[1..]).value, ParseMembers(after[1..]).rest)
  {
    hide ParseMember;
  }

  lemma {:induction false} ItemsRoundTrip(items: seq<Value>, suffix: string)
    requires items != [] && ItemsValid(items)
    ensures ParseElements(RenderItems(items, true) + "]" + suffix) == Parsed(items, suffix)
    decreases items, 1
  {
    hide ParseValue, ParseElements, RenderItems, Render;
    var after := AfterItem(items, suffix);
    ItemsText(items, suffix);
    ItemSuffixEnds(items, suffix);
    RoundTrip(items[0], after);
    NoBlanks(after);
    assert items == [items[0]] + items[1..];
    if |items| > 1 {
      ItemsRoundTrip(items[1..], suffix);
    } else {
      assert items == [items[0]];
    }
    ElementsStep(RenderItems(items, true) + "]" + suffix, items[0], after);
  }

  lemma MemberRoundTrip(field: Field, after: string)
    requires ParseValue(Render(field.value) + after) == Parsed(field.value, after)
    ensures ParseMember(Quote(field.name) + (":" + (Render(field.value) + after))) == Parsed(field, after)
  {
    hide ParseValue, Render, Characters;
    var rest := ":" + (Render(field.value) + after);
    QuotedText(field.name, rest);
    NoBlanks(Quote(field.name) + rest);
    NoBlanks(rest);
    assert rest[1..] == Render(field.value) + after;
  }

  lemma {:induction false} FieldsRoundTrip(fields: seq<Field>, suffix: string)
    requires fields != [] && FieldsValid(fields)
    ensures ParseMembers(RenderFields(fields, true) + "}" + suffix) == Parsed(fields, suffix)
    decreases fields, 1
  {
    hide ParseValue, ParseMember, ParseMembers, RenderFields, Render, Quote;
    var after := AfterField(fields, suffix);
    FieldsText(fields, suffix);
    FieldSuffixEnds(fields, suffix);
    RoundTrip(fields[0].value, after);
    MemberRoundTrip(fields[0], after);
    NoBlanks(after);
    assert fields == [fields[0]] + fields[1..];
    if |fields| > 1 {
      FieldsRoundTrip(fields[1..], suffix);
    } else {
      assert fields == [fields[0]];
    }
    MembersStep(RenderFields(fields, true) + "}" + suffix, fields[0], after);
  }

  lemma TextRoundTrip(v: Value)
    requires NumbersValid(v)
    ensures ParseText(Render(v)) == Some(v)
  {
    RoundTrip(v, "");
    assert Render(v) + "" == Render(v);
  }

  // ---- Only valid trees can be read ----

  lemma {:induction false} DigitsOfPrefix(s: string, end: nat)
    requires Digits(s) <= end <= |s|
    ensures Digits(s[..end]) == Digits(s)
  {
    if s != "" && IsDigit(s[0]) {
      assert s[..end][1..] == s[1..][..end - 1];
      DigitsOfPrefix(s[1..], end - 1);
    }
  }

  lemma PrefixTail(s: string, end: nat, i: nat)
    requires i <= end <= |s|
    ensures s[..end][i..] == s[i..][..end - i]
  {}

  lemma IntEndOfPrefix(s: string, end: nat)
    requires end <= |s| && IntEnd(s).Some? && IntEnd(s).value <= end
    ensures IntEnd(s[..end]) == IntEnd(s)
  {
    var sign := if StartsWith(s, '-') then 1 else 0;
    PrefixTail(s, end, sign);
    if !StartsWith(s[sign..], '0') {
      DigitsOfPrefix(s[sign..], end - sign);
    }
  }

  lemma FractionEndOfPrefix(s: string, start: nat, end: nat)
    requires start <= end <= |s| && FractionEnd(s, start).Some? && FractionEnd(s, start).value <= end
    ensures FractionEnd(s[..end], start) == FractionEnd(s, start)
  {
    PrefixTail(s, end, start);
    if StartsWith(s[start..], '.') {
      PrefixTail(s, end, start + 1);
      DigitsOfPrefix(s[start + 1..], end - (start + 1));
    }
  }

  lemma ExponentEndOfPrefix(s: string, start: nat, end: nat)
    requires start <= end <= |s| && ExponentEnd(s, start) == Some(end)
    ensures ExponentEnd(s[..end], start) == Some(end)
  {
    PrefixTail(s, end, start);
    if StartsWith(s[start..], 'e') || StartsWith(s[start..], 'E') {
      PrefixTail(s, end, start + 1);
      var sign := if StartsWith(s[start + 1..], '+') || StartsWith(s[start + 1..], '-') then 1 else 0;
      PrefixTail(s, end, start + 1 + sign);
      DigitsOfPrefix(s[start + 1 + sign..], end - (start + 1 + sign));
    }
  }

  /** What the parser cuts off as a number is a number token by itself. */
  lemma TokenStandsAlone(s: string)
    requires NumberEnd(s).Some?
    ensures IsNumberToken(s[..NumberEnd(s).value])
  {
    hide IntEnd, FractionEnd, ExponentEnd;
    var integer := IntEnd(s).value;
    var fraction := FractionEnd(s, integer).value;
    var end := NumberEnd(s).value;
    IntEndOfPrefix(s, end);
    FractionEndOfPrefix(s, integer, end);
    ExponentEndOfPrefix(s, fraction, end);
  }

  lemma {:induction false} ParsedIsValid(text: string)
    requires ParseValue(text).Parsed?
    ensures NumbersValid(ParseValue(text).value)
    decreases |text|, 2
  {
    hide Characters, NumberEnd, ParseElements, ParseMembers;
    var s := SkipBlanks(text);
    match s[0] {
      case 'n' =>
      case 't' =>
      case 'f' =>
      case '\"' =>
      case '[' =>
        if !StartsWith(SkipBlanks(s[1..]), ']') { ParsedElementsAreValid(s[1..]); }
      case '{' =>
        if !StartsWith(SkipBlanks(s[1..]), '}') { ParsedMembersAreValid(s[1..]); }
      case _ => TokenStandsAlone(s);
    }
  }

  lemma {:induction false} ParsedElementsAreValid(s: string)
    requires ParseElements(s).Parsed?
    ensures ItemsValid(ParseElements(s).value)
    decreases |s|, 3
  {
    hide ParseValue;
    var first := ParseValue(s);
    ParsedIsValid(s);
    var next := SkipBlanks(first.rest);
    if !StartsWith(next, ']') {
      ParsedElementsAreValid(next[1..]);
      assert ParseElements(s).value[1..] == ParseElements(next[1..]).value;
    }
  }

  lemma {:induction false} ParsedMembersAreValid(s: string)
    requires ParseMembers(s).Parsed?
    ensures FieldsValid(ParseMembers(s).value)
    decreases |s|, 4
  {
    hide ParseValue, Characters;
    var first := ParseMember(s);
    ParsedIsValid(SkipBlanks(Characters(SkipBlanks(s)[1..]).rest)[1..]);
    var next := SkipBlanks(first.rest);
    if !StartsWith(next, '}') {
      ParsedMembersAreValid(next[1..]);
      assert ParseMembers(s).value[1..] == ParseMembers(next[1..]).value;
    }
  }

  /** A tree survives printing and parsing exactly if its numbers are number tokens. */
  lemma TextRoundTripIff(v: Value)
    ensures ParseText(Render(v)) == Some(v) <==> NumbersValid(v)
  {
    hide ParseValue, Render;
    if NumbersValid(v) {
      TextRoundTrip(v);
    } else if ParseText(Render(v)) == Some(v) {
      ParsedIsValid(Render(v));
    }
  }

  /** Different values have different texts. */
  lemma RenderIsInjective(v: Value, w: Value)
    requires NumbersValid(v) && NumbersValid(w)
    requires Render(v) == Render(w)
    ensures v == w
  {
    TextRoundTrip(v);
    TextRoundTrip(w);
  }

  // ---- Compactness ----

  /**
   Characters stand for themselves where they may, are escaped by one letter where there is one, and
   otherwise by four hexadecimal digits in lower case.
   */
  lemma ShortestEscape(c: char)
    ensures |Escape(c)| == if c in {'\"', '\\', '\U{8}', '\U{c}', '\n', '\r', '\t'} then 2
                           else if c < ' ' then 6 else 1
    ensures |Escape(c)| == 6 ==> forall x <- Escape(c) :: x == '\\' || x == 'u' || '0' <= x <= '9' || 'a' <= x <= 'f'
  {
    if c < ' ' {
      LowerCase(c as nat);
    }
  }

  lemma LowerCase(n: nat)
    requires n < 0x1_0000
    ensures forall x <- FourHexDigits(n) :: '0' <= x <= '9' || 'a' <= x <= 'f'
  {}

  /** Nothing is printed between the parts of an array or object but its punctuation: no blank, no extra comma. */
  lemma CompactItems(v: Value, items: seq<Value>, first: bool)
    ensures |Render(Array([]))| == 2 && |Render(Array(items))| == 2 + |RenderItems(items, true)|
    ensures |RenderItems([v] + items, first)|
         == (if first then 0 else 1) + |Render(v)| + |RenderItems(items, false)|
    ensures |RenderItems([], first)| == 0
  {
    hide Quote;
    assert ([v] + items)[1..] == items;
  }

  lemma CompactFields(name: string, v: Value, fields: seq<Field>, first: bool)
    ensures |Render(Object([]))| == 2 && |Render(Object(fields))| == 2 + |RenderFields(fields, true)|
    ensures |RenderFields([Field(name, v)] + fields, first)|
         == (if first then 0 else 1) + |Quote(name)| + 1 + |Render(v)| + |RenderFields(fields, false)|
    ensures |RenderFields([], first)| == 0 && |Quote(name)| == |EscapeAll(name)| + 2
  {
    assert ([Field(name, v)] + fields)[1..] == fields;
  }

  lemma CompactText(text: string, c: char)
    ensures |EscapeAll([c] + text)| == |Escape(c)| + |EscapeAll(text)| && EscapeAll("") == ""
  {
    hide Escape;
    assert ([c] + text)[1..] == text;
  }

  // ---- Streams of records ----

  predicate NoControls(s: string) {
    forall i :: 0 <= i < |s| ==> s[i] >= ' '
  }

  lemma {:induction false} DigitsAreDigits(s: string, i: nat)
    requires i < Digits(s)
    ensures i < |s| && IsDigit(s[i])
  {
    if i == 0 {
    } else {
      DigitsAreDigits(s[1..], i - 1);
    }
  }

  lemma DigitRun(s: string, start: nat, i: nat)
    requires start <= |s| && start <= i < start + Digits(s[start..])
    ensures i < |s| && IsDigit(s[i])
  {
    DigitsAreDigits(s[start..], i - start);
    assert s[start..][i - start] == s[i];
  }

  lemma IntHasNoControls(s: string, i: nat)
    requires IntEnd(s).Some? && i < IntEnd(s).value
    ensures s[i] >= ' '
  {
    hide Digits;
    var sign := if StartsWith(s, '-') then 1 else 0;
    if sign <= i < sign + Digits(s[sign..]) { DigitRun(s, sign, i); }
  }

  lemma FractionHasNoControls(s: string, start: nat, i: nat)
    requires start <= |s| && FractionEnd(s, start).Some? && start <= i < FractionEnd(s, start).value
    ensures s[i] >= ' '
  {
    hide Digits;
    if start < i { DigitRun(s, start + 1, i); }
  }

  lemma ExponentHasNoControls(s: string, start: nat, i: nat)
    requires start <= |s| && ExponentEnd(s, start).Some? && start <= i < ExponentEnd(s, start).value
    ensures s[i] >= ' '
  {
    hide Digits;
    var sign := if StartsWith(s[start + 1..], '+') || StartsWith(s[start + 1..], '-') then 1 else 0;
    if start + 1 + sign <= i { DigitRun(s, start + 1 + sign, i); }
  }

  lemma NumberHasNoControls(s: string)
    requires IsNumberToken(s)
    ensures NoControls(s)
  {
    hide IntEnd, FractionEnd, ExponentEnd;
    var integer := IntEnd(s).value;
    var fraction := FractionEnd(s, integer).value;
    forall i | 0 <= i < |s| ensures s[i] >= ' ' {
      if i < integer {
        IntHasNoControls(s, i);
      } else if i < fraction {
        FractionHasNoControls(s, integer, i);
      } else {
        ExponentHasNoControls(s, fraction, i);
      }
    }
  }

  lemma ConcatHasNoControls(a: string, b: string)
    requires NoControls(a) && NoControls(b)
    ensures NoControls(a + b)
  {}

  lemma {:induction false} EscapedHasNoControls(text: string)
    ensures NoControls(EscapeAll(text))
  {
    if text == "" {
    } else {
      EscapedHasNoControls(text[1..]);
    }
  }

  /** The printer emits no character below U+0020. */
  lemma {:induction false} RenderHasNoControls(v: Value)
    requires NumbersValid(v)
    ensures NoControls(Render(v))
    decreases v, 0
  {
    hide EscapeAll, RenderItems, RenderFields, IsNumberToken;
    match v {
      case Number(text) => NumberHasNoControls(text);
      case String(text) => EscapedHasNoControls(text);
      case Array(items) => ItemsHaveNoControls(items, true);
      case Object(fields) => FieldsHaveNoControls(fields, true);
      case _ =>
    }
  }

  lemma {:induction false} ItemsHaveNoControls(items: seq<Value>, first: bool)
    requires ItemsValid(items)
    ensures NoControls(RenderItems(items, first))
    decreases items, 1
  {
    hide Render;
    if items == [] {
    } else {
      RenderHasNoControls(items[0]);
      ItemsHaveNoControls(items[1..], false);
    }
  }

  lemma Punctuation()
    ensures NoControls("") && NoControls("\"") && NoControls(":") && NoControls(",")
  {}

  lemma {:induction false} FieldsHaveNoControls(fields: seq<Field>, first: bool)
    requires FieldsValid(fields)
    ensures NoControls(RenderFields(fields, first))
    decreases fields, 1
  {
    hide Render, EscapeAll, NoControls;
    if fields != [] {
      var name, v := fields[0].name, fields[0].value;
      EscapedHasNoControls(name);
      RenderHasNoControls(v);
      FieldsHaveNoControls(fields[1..], false);
      Punctuation();
      ConcatHasNoControls("\"", EscapeAll(name));
      ConcatHasNoControls("\"" + EscapeAll(name), "\"");
      ConcatHasNoControls(Separator(first), Quote(name));
      ConcatHasNoControls(Separator(first) + Quote(name), ":");
      ConcatHasNoControls(Separator(first) + Quote(name) + ":", Render(v));
      ConcatHasNoControls(Separator(first) + Quote(name) + ":" + Render(v), RenderFields(fields[1..], false));
    } else {
      Punctuation();
    }
  }

  /** What the streaming commands print: one rendered record per line. */
  function RecordLines(records: seq<Value>): string {
    if records == [] then "" else Render(records[0]) + ("\n" + RecordLines(records[1..]))
  }

  function LineEnd(s: string): (n: nat)
    ensures n <= |s|
  {
    if s == "" || s[0] == '\n' then 0 else 1 + LineEnd(s[1..])
  }

  /** A consumer that cuts the stream at newlines and parses each line on its own. */
  function ReadRecords(s: string): Option<seq<Value>>
    decreases |s|
  {
    if s == "" then Some([])
    else
      var end := LineEnd(s);
      if end == |s| then None
      else match (ParseText(s[..end]), ReadRecords(s[end + 1..]))
        case (Some(v), Some(rest)) => Some([v] + rest)
        case _ => None
  }

  lemma {:induction false} LineEndOfText(text: string, rest: string)
    requires NoControls(text)
    ensures LineEnd(text + ("\n" + rest)) == |text|
  {
    var s := text + ("\n" + rest);
    if text == "" {
    } else {
      assert s[0] == text[0] && s[1..] == text[1..] + ("\n" + rest);
      LineEndOfText(text[1..], rest);
    }
  }

  /** Reading a printed stream line by line gives back exactly its records. */
  lemma {:induction false} RecordsRoundTrip(records: seq<Value>)
    requires ItemsValid(records)
    ensures ReadRecords(RecordLines(records)) == Some(records)
  {
    hide Render, ParseText;
    if records == [] {
    } else {
      var text, rest := Render(records[0]), RecordLines(records[1..]);
      var s := RecordLines(records);
      RenderHasNoControls(records[0]);
      LineEndOfText(text, rest);
      assert s[..|text|] == text && s[|text| + 1..] == rest;
      TextRoundTrip(records[0]);
      RecordsRoundTrip(records[1..]);
      assert records == [records[0]] + records[1..];
    }
  }
}
