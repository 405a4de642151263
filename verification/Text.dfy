/** The string functions of the standard library that the source relies on. */
module Text {
  import opened Words

  // ---- split, split_once, join ----

  /** Pieces between separators; there is always at least one. */
  function Split(s: string, separator: char): (pieces: seq<string>)
    ensures pieces != []
  {
    if s == "" then [""]
    else
      var later := Split(s[1..], separator);
      if s[0] == separator then [""] + later else [[s[0]] + later[0]] + later[1..]
  }

  function Join(pieces: seq<string>, separator: char): string {
    if pieces == [] then ""
    else if |pieces| == 1 then pieces[0]
    else pieces[0] + ([separator] + Join(pieces[1..], separator))
  }

  lemma {:induction false} SplitPiece(piece: string, separator: char, rest: string)
    requires separator !in piece
    ensures Split(piece, separator) == [piece]
    ensures Split(piece + ([separator] + rest), separator) == [piece] + Split(rest, separator)
  {
    var s := piece + ([separator] + rest);
    if piece == "" {
      assert s == [separator] + rest && s[1..] == rest;
    } else {
      SplitPiece(piece[1..], separator, rest);
      assert s[1..] == piece[1..] + ([separator] + rest);
      assert piece == [piece[0]] + piece[1..];
    }
  }

  lemma {:induction false} SplitOfJoin(pieces: seq<string>, separator: char)
    requires pieces != [] && forall piece <- pieces :: separator !in piece
    ensures Split(Join(pieces, separator), separator) == pieces
  {
    hide Split;
    assert pieces[0] in pieces;
    if |pieces| == 1 {
      SplitPiece(pieces[0], separator, "");
      assert pieces == [pieces[0]];
    } else {
      SplitPiece(pieces[0], separator, Join(pieces[1..], separator));
      SplitOfJoin(pieces[1..], separator);
      assert pieces == [pieces[0]] + pieces[1..];
    }
  }

  /** The text before and after the first separator. */
  function SplitOnce(s: string, separator: char): Option<(string, string)> {
    if s == "" then None
    else if s[0] == separator then Some(("", s[1..]))
    else match SplitOnce(s[1..], separator)
      case None => None
      case Some(halves) => Some(([s[0]] + halves.0, halves.1))
  }

  lemma {:induction false} SplitOnceAt(front: string, separator: char, back: string)
    requires separator !in front
    ensures SplitOnce(front + ([separator] + back), separator) == Some((front, back))
  {
    var s := front + ([separator] + back);
    if front == "" {
      assert s == [separator] + back && s[1..] == back;
    } else {
      assert s[1..] == front[1..] + ([separator] + back);
      SplitOnceAt(front[1..], separator, back);
      assert front == [front[0]] + front[1..];
    }
  }

  lemma {:induction false} NoSeparator(s: string, separator: char)
    requires separator !in s
    ensures SplitOnce(s, separator) == None
  {
    if s == "" {
    } else {
      NoSeparator(s[1..], separator);
    }
  }

  // ---- trim ----

  /** The Unicode White_Space property. */
  predicate IsWhitespace(c: char) {
    || '\t' <= c <= '\r' || c == ' ' || c == '\U{85}' || c == '\U{A0}' || c == '\U{1680}'
    || '\U{2000}' <= c <= '\U{200A}' || c == '\U{2028}' || c == '\U{2029}'
    || c == '\U{202F}' || c == '\U{205F}' || c == '\U{3000}'
  }

  function Trim(s: string): string
    decreases |s|
  {
    if s != "" && IsWhitespace(s[0]) then Trim(s[1..])
    else if s != "" && IsWhitespace(s[|s| - 1]) then Trim(s[..|s| - 1])
    else s
  }

  // ---- parse and from_str_radix on unsigned types ----

  function DigitValue(c: char): nat {
    if '0' <= c <= '9' then c as nat - '0' as nat
    else if 'a' <= c <= 'z' then c as nat - 'a' as nat + 10
    else if 'A' <= c <= 'Z' then c as nat - 'A' as nat + 10
    else 36
  }

  /** Digits after a prefix already read; None for a foreign character or a value of `limit` or more. */
  function Accumulate(s: string, value: nat, radix: nat, limit: nat): (r: Option<nat>)
    ensures value < limit && r.Some? ==> r.value < limit
  {
    if s == "" then Some(value)
    else
      var next := value * radix + DigitValue(s[0]);
      if DigitValue(s[0]) >= radix || next >= limit then None
      else Accumulate(s[1..], next, radix, limit)
  }

  /** An optional plus sign, then at least one digit. */
  function ParseUnsigned(s: string, radix: nat, limit: nat): (r: Option<nat>)
    ensures r.Some? ==> r.value < limit
  {
    var digits := if |s| > 1 && s[0] == '+' then s[1..] else s;
    if digits == "" || limit == 0 then None else Accumulate(digits, 0, radix, limit)
  }

  // ---- fixed-width and minimal hexadecimal ----

  function UpperDigit(n: nat): char
    requires n < 16
  {
    if n < 10 then '0' + n as char else 'A' + (n - 10) as char
  }

  function LowerDigit(n: nat): char
    requires n < 16
  {
    if n < 10 then '0' + n as char else 'a' + (n - 10) as char
  }

  /** `%0*X` with the given width. */
  function UpperHex(n: nat, width: nat): (s: string)
    ensures |s| == width
    ensures forall c <- s :: '0' <= c <= '9' || 'A' <= c <= 'F'
  {
    if width == 0 then "" else UpperHex(n / 16, width - 1) + [UpperDigit(n % 16)]
  }

  /** `{:x}` */
  function LowerHex(n: nat): (s: string)
    ensures s != "" && forall c <- s :: '0' <= c <= '9' || 'a' <= c <= 'f'
    ensures n > 0 ==> s[0] != '0'
  {
    Numeral(n, 16)
  }

  /** The shortest text of a number in a radix up to 16. */
  function Numeral(n: nat, radix: nat): (s: string)
    requires 2 <= radix <= 16
    ensures s != "" && forall c <- s :: '0' <= c <= '9' || 'a' <= c <= 'f'
    ensures n > 0 ==> s[0] != '0'
    decreases n
  {
    if n < radix then [LowerDigit(n)]
    else
      Smaller(n, radix);
      Numeral(n / radix, radix) + [LowerDigit(n % radix)]
  }

  lemma Smaller(n: nat, radix: nat)
    requires 2 <= radix <= n
    ensures n / radix < n && n == n / radix * radix + n % radix
  {}

  lemma {:induction false} AccumulateOneMore(s: string, c: char, value: nat, radix: nat, limit: nat)
    ensures Accumulate(s + [c], value, radix, limit)
         == match Accumulate(s, value, radix, limit)
            case None => None
            case Some(v) => if DigitValue(c) >= radix || v * radix + DigitValue(c) >= limit then None
                            else Some(v * radix + DigitValue(c))
  {
    hide DigitValue;
    if s == "" {
      assert s + [c] == [c];
      assert Accumulate([c][1..], value * radix + DigitValue(c), radix, limit)
          == Some(value * radix + DigitValue(c));
    } else {
      assert (s + [c])[1..] == s[1..] + [c];
      var next := value * radix + DigitValue(s[0]);
      AccumulateOneMore(s[1..], c, next, radix, limit);
    }
  }

  function Pow16(k: nat): nat { if k == 0 then 1 else 16 * Pow16(k - 1) }

  lemma HexDigits(n: nat)
    requires n < 16
    ensures DigitValue(UpperDigit(n)) == n && DigitValue(LowerDigit(n)) == n
  {}

  lemma {:induction false} UpperHexAccumulates(n: nat, width: nat, limit: nat)
    requires n < Pow16(width) && n < limit
    ensures Accumulate(UpperHex(n, width), 0, 16, limit) == Some(n)
  {
    if width == 0 {
    } else {
      UpperHexAccumulates(n / 16, width - 1, limit);
      HexDigits(n % 16);
      AccumulateOneMore(UpperHex(n / 16, width - 1), UpperDigit(n % 16), 0, 16, limit);
    }
  }

  /** Reading back a number printed with a fixed number of hexadecimal digits. */
  lemma UpperHexRoundTrip(n: nat, width: nat, limit: nat)
    requires 0 < width && n < Pow16(width) && n < limit
    ensures ParseUnsigned(UpperHex(n, width), 16, limit) == Some(n)
  {
    var s := UpperHex(n, width);
    assert s[0] in s;
    UpperHexAccumulates(n, width, limit);
  }

  lemma {:induction false} NumeralAccumulates(n: nat, radix: nat, limit: nat)
    requires 2 <= radix <= 16 && n < limit
    ensures Accumulate(Numeral(n, radix), 0, radix, limit) == Some(n)
    decreases n
  {
    if n < radix {
      HexDigits(n);
      assert Numeral(n, radix) == [LowerDigit(n)] && [LowerDigit(n)][1..] == "";
    } else {
      Smaller(n, radix);
      HexDigits(n % radix);
      NumeralAccumulates(n / radix, radix, limit);
      AccumulateOneMore(Numeral(n / radix, radix), LowerDigit(n % radix), 0, radix, limit);
    }
  }

  /** Reading back a number from its shortest text in the same radix. */
  lemma NumeralRoundTrip(n: nat, radix: nat, limit: nat)
    requires 2 <= radix <= 16 && n < limit
    ensures ParseUnsigned(Numeral(n, radix), radix, limit) == Some(n)
  {
    assert Numeral(n, radix)[0] in Numeral(n, radix);
    NumeralAccumulates(n, radix, limit);
  }

  lemma LowerHexRoundTrip(n: nat, limit: nat)
    requires n < limit
    ensures ParseUnsigned(LowerHex(n), 16, limit) == Some(n)
  {
    NumeralRoundTrip(n, 16, limit);
  }

  // ---- trimming ----

  predicate AllWhitespace(s: string) {
    forall c <- s :: IsWhitespace(c)
  }

  /** Text that trimming leaves alone. */
  predicate IsTrimmed(s: string) {
    s == "" || (!IsWhitespace(s[0]) && !IsWhitespace(s[|s| - 1]))
  }

  /** Trimming removes the whitespace around a text, and no more. */
  lemma {:induction false} TrimRemovesPadding(left: string, s: string, right: string)
    requires AllWhitespace(left) && AllWhitespace(right) && IsTrimmed(s)
    ensures Trim(left + s + right) == s
    decreases |left| + |right|
  {
    hide IsWhitespace;
    var padded := left + s + right;
    if left != "" {
      assert padded[0] == left[0] && left[0] in left && padded[1..] == left[1..] + s + right;
      TrimRemovesPadding(left[1..], s, right);
    } else if right != "" {
      var last := |right| - 1;
      assert right[last] in right && padded[|padded| - 1] == right[last];
      if s == "" {
        assert padded == right && right[0] in right && padded[1..] == "" + s + right[1..];
        TrimRemovesPadding("", s, right[1..]);
      } else {
        assert padded[0] == s[0] && padded[..|padded| - 1] == "" + s + right[..last];
        TrimRemovesPadding("", s, right[..last]);
      }
    } else {
      assert padded == s;
    }
  }

  // ---- Which texts are numbers ----

  predicate AllDigits(s: string, radix: nat) {
    forall c <- s :: DigitValue(c) < radix
  }

  /** The value of a numeral, digit by digit from the left. */
  function Value(s: string, radix: nat): nat {
    if s == "" then 0 else Value(s[..|s| - 1], radix) * radix + DigitValue(s[|s| - 1])
  }

  lemma DigitsAre(c: char)
    ensures DigitValue(c) < 10 <==> '0' <= c <= '9'
    ensures DigitValue(c) < 16 <==> '0' <= c <= '9' || 'a' <= c <= 'f' || 'A' <= c <= 'F'
    ensures '0' <= c <= '9' ==> DigitValue(c) == c as int - 48
    ensures 'a' <= c <= 'f' ==> DigitValue(c) == c as int - 87
    ensures 'A' <= c <= 'F' ==> DigitValue(c) == c as int - 55
  {}

  lemma AtLeast(n: nat, radix: nat, d: nat)
    requires radix > 0
    ensures n * radix + d >= n
  {}

  lemma {:induction false} AccumulatesValue(s: string, radix: nat, limit: nat)
    requires radix > 0 && limit > 0
    ensures Accumulate(s, 0, radix, limit)
         == if AllDigits(s, radix) && Value(s, radix) < limit then Some(Value(s, radix)) else None
  {
    hide DigitValue;
    if s == "" {
    } else {
      var front, last := s[..|s| - 1], s[|s| - 1];
      assert s == front + [last];
      AccumulatesValue(front, radix, limit);
      AccumulateOneMore(front, last, 0, radix, limit);
      AtLeast(Value(front, radix), radix, DigitValue(last));
      assert AllDigits(s, radix) <==> AllDigits(front, radix) && DigitValue(last) < radix;
    }
  }

  /** A text is a number exactly if it is one digit or more after an optional plus sign, below the limit. */
  lemma ParsesIff(s: string, radix: nat, limit: nat, n: nat)
    requires radix > 0 && limit > 0
    ensures var digits := if |s| > 1 && s[0] == '+' then s[1..] else s;
            (ParseUnsigned(s, radix, limit) == Some(n)
             <==> digits != "" && AllDigits(digits, radix) && n == Value(digits, radix) && n < limit)
  {
    hide AllDigits;
    AccumulatesValue(if |s| > 1 && s[0] == '+' then s[1..] else s, radix, limit);
  }

  lemma AsciiWhitespace(c: char)
    requires c as int < 0x80
    ensures IsWhitespace(c) <==> c in {' ', '\t', '\n', '\r', '\U{B}', '\U{C}'}
  {}

  /** Nothing is left of whitespace. */
  lemma TrimsToNothing(s: string)
    requires AllWhitespace(s)
    ensures Trim(s) == ""
  {
    TrimRemovesPadding(s, "", "");
    assert s + "" + "" == s;
  }
}
