/** src/json.rs: a value tree and the compact printer that appends it to a string. */
module Json {
  import opened Text

  datatype Value =
    | Null
    | Bool(flag: bool)
    | Number(text: string)
    | String(text: string)
    | Array(items: seq<Value>)
    | Object(fields: seq<Field>)

  datatype Field = Field(name: string, value: Value)

  /** `{:04x}` */
  function FourHexDigits(n: nat): (r: string)
    requires n < 0x1_0000
    ensures |r| == 4
  {
    [LowerDigit(n / 0x1000), LowerDigit(n / 0x100 % 0x10), LowerDigit(n / 0x10 % 0x10), LowerDigit(n % 0x10)]
  }

  function Escape(c: char): string {
    match c
    case '\"' => "\\\""
    case '\\' => "\\\\"
    case '\U{8}' => "\\b"
    case '\U{c}' => "\\f"
    case '\n' => "\\n"
    case '\r' => "\\r"
    case '\t' => "\\t"
    case _ => if c <= '\U{1f}' then "\\u" + FourHexDigits(c as int) else [c]
  }

  function EscapeAll(text: string): string {
    if text == "" then "" else Escape(text[0]) + EscapeAll(text[1..])
  }

  function Quote(text: string): string {
    "\"" + EscapeAll(text) + "\""
  }

  function Separator(first: bool): string {
    if first then "" else ","
  }

  function Render(v: Value): string {
    match v
    case Null => "null"
    case Bool(flag) => if flag then "true" else "false"
    case Number(text) => text
    case String(text) => Quote(text)
    case Array(items) => "[" + RenderItems(items, true) + "]"
    case Object(fields) => "{" + RenderFields(fields, true) + "}"
  }

  function RenderItems(items: seq<Value>, first: bool): string {
    if items == [] then "" else Separator(first) + Render(items[0]) + RenderItems(items[1..], false)
  }

  function RenderFields(fields: seq<Field>, first: bool): string {
    if fields == [] then ""
    else Separator(first) + Quote(fields[0].name) + ":" + Render(fields[0].value) + RenderFields(fields[1..], false)
  }

  // ---- The printer ----

  lemma Regroup(a: string, b: string, c: string)
    ensures a + (b + c) == a + b + c
  {}

  method PushEscaped(output: string, c: char) returns (r: string)
    ensures r == output + Escape(c)
  {
    match c {
      case '\"' => r := output + "\\\"";
      case '\\' => r := output + "\\\\";
      case '\U{8}' => r := output + "\\b";
      case '\U{c}' => r := output + "\\f";
      case '\n' => r := output + "\\n";
      case '\r' => r := output + "\\r";
      case '\t' => r := output + "\\t";
      case _ => r := output + if c <= '\U{1f}' then "\\u" + FourHexDigits(c as int) else [c];
    }
  }

  method WriteString(output: string, value: string) returns (r: string)
    ensures r == output + Quote(value)
  {
    hide Escape;
    r := output + "\"";
    for i := 0 to |value|
      invariant r + EscapeAll(value[i..]) == output + "\"" + EscapeAll(value)
    {
      assert EscapeAll(value[i..]) == Escape(value[i]) + EscapeAll(value[i + 1..]);
      Regroup(r, Escape(value[i]), EscapeAll(value[i + 1..]));
      r := PushEscaped(r, value[i]);
    }
    r := r + "\"";
    assert output + Quote(value) == output + "\"" + EscapeAll(value) + "\"";
  }

  lemma NextItem(r: string, items: seq<Value>, i: nat)
    requires i < |items|
    ensures r + RenderItems(items[i..], i == 0)
         == r + Separator(i == 0) + Render(items[i]) + RenderItems(items[i + 1..], false)
  {
    assert items[i..][1..] == items[i + 1..];
    Regroup(r, Separator(i == 0) + Render(items[i]), RenderItems(items[i + 1..], false));
  }

  lemma NextField(r: string, fields: seq<Field>, i: nat)
    requires i < |fields|
    ensures r + RenderFields(fields[i..], i == 0)
         == r + Separator(i == 0) + Quote(fields[i].name) + ":" + Render(fields[i].value)
            + RenderFields(fields[i + 1..], false)
  {
    assert fields[i..][1..] == fields[i + 1..];
    Regroup(r, Separator(i == 0) + Quote(fields[i].name) + ":" + Render(fields[i].value),
            RenderFields(fields[i + 1..], false));
  }

  method Write(v: Value, output: string) returns (r: string)
    ensures r == output + Render(v)
    decreases v
  {
    match v {
      case Null => r := output + "null";
      case Bool(flag) => r := output + if flag then "true" else "false";
      case Number(text) => r := output + text;
      case String(text) => r := WriteString(output, text);
      case Array(items) => r := WriteItems(items, output);
      case Object(fields) => r := WriteFields(fields, output);
    }
  }

  method WriteItems(items: seq<Value>, output: string) returns (r: string)
    ensures r == output + Render(Array(items))
    decreases items
  {
    hide Render;
    r := output + "[";
    for i := 0 to |items|
      invariant r + RenderItems(items[i..], i == 0) == output + "[" + RenderItems(items, true)
    {
      NextItem(r, items, i);
      if i != 0 {
        r := r + ",";
      }
      r := Write(items[i], r);
    }
    r := r + "]";
    ArrayText(items, output);
  }

  lemma ArrayText(items: seq<Value>, output: string)
    ensures output + Render(Array(items)) == output + "[" + RenderItems(items, true) + "]"
  {}

  method WriteFields(fields: seq<Field>, output: string) returns (r: string)
    ensures r == output + Render(Object(fields))
    decreases fields
  {
    hide Render, Quote;
    r := output + "{";
    for i := 0 to |fields|
      invariant r + RenderFields(fields[i..], i == 0) == output + "{" + RenderFields(fields, true)
    {
      NextField(r, fields, i);
      if i != 0 {
        r := r + ",";
      }
      r := WriteString(r, fields[i].name);
      r := r + ":";
      r := Write(fields[i].value, r);
    }
    r := r + "}";
    ObjectText(fields, output);
  }

  lemma ObjectText(fields: seq<Field>, output: string)
    ensures output + Render(Object(fields)) == output + "{" + RenderFields(fields, true) + "}"
  {}

  method RenderToString(v: Value) returns (output: string)
    ensures output == Render(v)
  {
    output := Write(v, "");
  }
}
