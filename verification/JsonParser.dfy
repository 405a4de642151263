/** A reference parser for JSON texts, after sections 2 to 7 of RFC 8259. */
module JsonParser {
  import opened Words
  import opened Json

  /** A parsed prefix of the input and the text after it. */
  datatype Parse<+T> = Failed | Parsed(value: T, rest: string)

  /** Insignificant whitespace, section 2. */
  predicate IsBlank(c: char) {
    c == ' ' || c == '\t' || c == '\n' || c == '\r'
  }

  function SkipBlanks(s: string): (r: string)
    ensures |r| <= |s|
  {
    if s != "" && IsBlank(s[0]) then SkipBlanks(s[1..]) else s
  }

  predicate StartsWith(s: string, c: char) {
    s != "" && s[0] == c
  }

  // ---- Numbers, section 6 ----

  predicate IsDigit(c: char) {
    '0' <= c <= '9'
  }

  /** How many digits the text starts with. */
  function Digits(s: string): (n: nat)
    ensures n <= |s|
  {
    if s != "" && IsDigit(s[0]) then 1 + Digits(s[1..]) else 0
  }

  function IntEnd(s: string): (end: Option<nat>)
    ensures end.Some? ==> 0 < end.value <= |s|
  {
    var sign := if StartsWith(s, '-') then 1 else 0;
    if StartsWith(s[sign..], '0') then Some(sign + 1)
    else if Digits(s[sign..]) > 0 then Some(sign + Digits(s[sign..]))
    else None
  }

  function FractionEnd(s: string, start: nat): (end: Option<nat>)
    requires start <= |s|
    ensures end.Some? ==> start <= end.value <= |s|
  {
    if !StartsWith(s[start..], '.') then Some(start)
    else
      var digits := Digits(s[start + 1..]);
      if digits > 0 then Some(start + 1 + digits) else None
  }

  function ExponentEnd(s: string, start: nat): (end: Option<nat>)
    requires start <= |s|
    ensures end.Some? ==> start <= end.value <= |s|
  {
    if !StartsWith(s[start..], 'e') && !StartsWith(s[start..], 'E') then Some(start)
    else
      var sign := if StartsWith(s[start + 1..], '+') || StartsWith(s[start + 1..], '-') then 1 else 0;
      var digits := Digits(s[start + 1 + sign..]);
      if digits > 0 then Some(start + 1 + sign + digits) else None
  }

  /** The end of the number token the text starts with. */
  function NumberEnd(s: string): (end: Option<nat>)
    ensures end.Some? ==> 0 < end.value <= |s|
  {
    match IntEnd(s)
    case None => None
    case Some(integer) =>
      match FractionEnd(s, integer)
      case None => None
      case Some(fraction) => ExponentEnd(s, fraction)
  }

  // ---- Strings, section 7 ----

  function HexValue(c: char): Option<nat> {
    if '0' <= c <= '9' then Some(c as nat - '0' as nat)
    else if 'a' <= c <= 'f' then Some(c as nat - 'a' as nat + 10)
    else if 'A' <= c <= 'F' then Some(c as nat - 'A' as nat + 10)
    else None
  }

  function HexFour(s: string): (n: Option<nat>)
    ensures n.Some? ==> n.value < 0x1_0000 && |s| >= 4
  {
    if |s| < 4 then None
    else match (HexValue(s[0]), HexValue(s[1]), HexValue(s[2]), HexValue(s[3]))
      case (Some(a), Some(b), Some(c), Some(d)) =>
        if a < 16 && b < 16 && c < 16 && d < 16 then Some(((a * 16 + b) * 16 + c) * 16 + d) else None
      case _ => None
  }

  /** What follows `\u`: a code point, or a surrogate pair in two escapes. */
  function UnicodeEscape(s: string): (p: Parse<char>)
    ensures p.Parsed? ==> |p.rest| < |s|
  {
    match HexFour(s)
    case None => Failed
    case Some(unit) =>
      if unit < 0xD800 || 0xE000 <= unit then Parsed(unit as char, s[4..])
      else if unit < 0xDC00 && |s| >= 10 && s[4] == '\\' && s[5] == 'u' then
        match HexFour(s[6..])
        case Some(low) =>
          if 0xDC00 <= low < 0xE000
          then Parsed((0x1_0000 + (unit - 0xD800) * 0x400 + (low - 0xDC00)) as char, s[10..])
          else Failed
        case None => Failed
      else Failed
  }

  /** What follows a backslash. */
  function EscapeSequence(s: string): (p: Parse<char>)
    ensures p.Parsed? ==> |p.rest| < |s|
  {
    if s == "" then Failed
    else match s[0]
      case '\"' => Parsed('\"', s[1..])
      case '\\' => Parsed('\\', s[1..])
      case '/' => Parsed('/', s[1..])
      case 'b' => Parsed('\U{8}', s[1..])
      case 'f' => Parsed('\U{c}', s[1..])
      case 'n' => Parsed('\n', s[1..])
      case 'r' => Parsed('\r', s[1..])
      case 't' => Parsed('\t', s[1..])
      case 'u' => UnicodeEscape(s[1..])
      case _ => Failed
  }

  /** The characters up to the closing quotation mark. */
  function Characters(s: string): (p: Parse<string>)
    ensures p.Parsed? ==> |p.rest| < |s|
    decreases |s|
  {
    if s == "" || s[0] < ' ' then Failed
    else if s[0] == '\"' then Parsed("", s[1..])
    else
      var first := if s[0] == '\\' then EscapeSequence(s[1..]) else Parsed(s[0], s[1..]);
      match first
      case Failed => Failed
      case Parsed(c, rest) =>
        match Characters(rest)
        case Failed => Failed
        case Parsed(text, after) => Parsed([c] + text, after)
  }

  // ---- Values, sections 3 to 5 ----

  function Literal(s: string, name: string, v: Value): Parse<Value> {
    if name <= s then Parsed(v, s[|name|..]) else Failed
  }

  function ParseValue(text: string): (p: Parse<Value>)
    ensures p.Parsed? ==> |p.rest| < |text|
    decreases |text|, 2
  {
    var s := SkipBlanks(text);
    if s == "" then Failed
    else match s[0]
      case 'n' => Literal(s, "null", Null)
      case 't' => Literal(s, "true", Bool(true))
      case 'f' => Literal(s, "false", Bool(false))
      case '\"' =>
        (match Characters(s[1..])
         case Failed => Failed
         case Parsed(chars, rest) => Parsed(String(chars), rest))
      case '[' =>
        var inner := SkipBlanks(s[1..]);
        if StartsWith(inner, ']') then Parsed(Array([]), inner[1..])
        else (match ParseElements(s[1..])
              case Failed => Failed
              case Parsed(items, rest) => Parsed(Array(items), rest))
      case '{' =>
        var inner := SkipBlanks(s[1..]);
        if StartsWith(inner, '}') then Parsed(Object([]), inner[1..])
        else (match ParseMembers(s[1..])
              case Failed => Failed
              case Parsed(fields, rest) => Parsed(Object(fields), rest))
      case _ =>
        (match NumberEnd(s)
         case None => Failed
         case Some(end) => Parsed(Number(s[..end]), s[end..]))
  }

  /** Values separated by commas, up to the closing bracket. */
  function ParseElements(s: string): (p: Parse<seq<Value>>)
    ensures p.Parsed? ==> |p.rest| < |s|
    decreases |s|, 3
  {
    match ParseValue(s)
    case Failed => Failed
    case Parsed(v, rest) =>
      var next := SkipBlanks(rest);
      if StartsWith(next, ']') then Parsed([v], next[1..])
      else if !StartsWith(next, ',') then Failed
      else match ParseElements(next[1..])
        case Failed => Failed
        case Parsed(items, after) => Parsed([v] + items, after)
  }

  function ParseMember(s: string): (p: Parse<Field>)
    ensures p.Parsed? ==> |p.rest| < |s|
    decreases |s|, 3
  {
    var start := SkipBlanks(s);
    if !StartsWith(start, '\"') then Failed
    else match Characters(start[1..])
      case Failed => Failed
      case Parsed(name, rest) =>
        var colon := SkipBlanks(rest);
        if !StartsWith(colon, ':') then Failed
        else match ParseValue(colon[1..])
          case Failed => Failed
          case Parsed(v, after) => Parsed(Field(name, v), after)
  }

  /** Members separated by commas, up to the closing brace. */
  function ParseMembers(s: string): (p: Parse<seq<Field>>)
    ensures p.Parsed? ==> |p.rest| < |s|
    decreases |s|, 4
  {
    match ParseMember(s)
    case Failed => Failed
    case Parsed(field, rest) =>
      var next := SkipBlanks(rest);
      if StartsWith(next, '}') then Parsed([field], next[1..])
      else if !StartsWith(next, ',') then Failed
      else match ParseMembers(next[1..])
        case Failed => Failed
        case Parsed(fields, after) => Parsed([field] + fields, after)
  }

  /** A complete JSON text: one value and nothing else but whitespace. */
  function ParseText(s: string): Option<Value> {
    match ParseValue(s)
    case Parsed(v, rest) => if SkipBlanks(rest) == "" then Some(v) else None
    case Failed => None
  }
}
