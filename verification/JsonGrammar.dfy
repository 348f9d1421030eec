/** The texts of RFC 8259 (sections 2 to 7), and that `Json::Reader` (src/jsoncpp.cpp)
    gives each of them the value that it denotes. */
module JsonGrammar {
  import opened Wrappers
  import opened Hex
  import opened Utf8
  import opened JsonString
  import opened JsonNumber
  import opened JsonValue
  import opened JsonToken
  import opened JsonText

  // Strings.

  /** One character of a literal: as it is, byte by byte, or escaped. */
  datatype Char = Raw(c: char) | Short(c: char) | Escaped(digits: string)

  predicate IsHex4(digits: string) {
    |digits| == 4 && forall i :: 0 <= i < 4 ==> HexValue(digits[i]).Some?
  }

  function Hex4(digits: string): nat
    requires IsHex4(digits)
  {
    HexValue(digits[0]).value * 4096 + HexValue(digits[1]).value * 256 + HexValue(digits[2]).value * 16
    + HexValue(digits[3]).value
  }

  /** The two-character escapes of section 7 of RFC 8259, with their code points. */
  function ShortCodePoint(e: char): Option<nat> {
    if e == '"' then Some(0x22)
    else if e == '\\' then Some(0x5C)
    else if e == '/' then Some(0x2F)
    else if e == 'b' then Some(0x08)
    else if e == 'f' then Some(0x0C)
    else if e == 'n' then Some(0x0A)
    else if e == 'r' then Some(0x0D)
    else if e == 't' then Some(0x09)
    else None
  }

  /** The reader knows these escapes and no others. */
  lemma ShortIs(e: char)
    ensures ShortUnescape(e)
         == match ShortCodePoint(e) case None => None case Some(cp) => Some(cp as char)
  {
  }

  /** A character as the reader takes it: raw ones may be control characters. */
  predicate IsScanned(c: Char) {
    match c
    case Raw(r) => r != '"' && r != '\\'
    case Short(e) => ShortCodePoint(e).Some?
    case Escaped(digits) => IsHex4(digits)
  }

  /** A character of the grammar. */
  predicate IsChar(c: Char) {
    IsScanned(c) && (c.Raw? ==> 0x20 <= c.c as int < 256)
  }

  function CharText(c: Char): string {
    match c
    case Raw(r) => [r]
    case Short(e) => ['\\', e]
    case Escaped(digits) => "\\u" + digits
  }

  /** The escape of the first half of a surrogate pair. */
  predicate IsHigh(c: Char) {
    c.Escaped? && IsHex4(c.digits) && 0xD800 <= Hex4(c.digits) <= 0xDBFF
  }

  /** The bytes that a character stands for by itself. */
  function CharBytes(c: Char): string
    requires IsScanned(c) && !IsHigh(c)
  {
    match c
    case Raw(r) => [r]
    case Short(e) => [ShortCodePoint(e).value as char]
    case Escaped(digits) => Encode(Hex4(digits))
  }

  /** The code point that the reader makes of two escapes, whatever the second one is. */
  function PairCodePoint(high: string, low: string): (cp: nat)
    requires IsHex4(high) && IsHex4(low)
    ensures 0x10000 <= cp <= 0x10FFFF
  {
    0x10000 + Hex4(high) % 1024 * 1024 + Hex4(low) % 1024
  }

  lemma SurrogateParts(high: nat, low: nat)
    requires 0xD800 <= high <= 0xDBFF && 0xDC00 <= low <= 0xDFFF
    ensures high % 1024 == high - 0xD800 && low % 1024 == low - 0xDC00
  {
  }

  /** Of a proper pair it is the code point of section 7 of RFC 8259. */
  lemma ProperPair(high: string, low: string)
    requires IsHex4(high) && IsHex4(low) && 0xD800 <= Hex4(high) <= 0xDBFF && 0xDC00 <= Hex4(low) <= 0xDFFF
    ensures PairCodePoint(high, low) == 0x10000 + (Hex4(high) - 0xD800) * 1024 + (Hex4(low) - 0xDC00)
  {
    SurrogateParts(Hex4(high), Hex4(low));
  }

  predicate AreScanned(chars: seq<Char>) {
    forall i :: 0 <= i < |chars| ==> IsScanned(chars[i])
  }

  predicate AreChars(chars: seq<Char>) {
    forall i :: 0 <= i < |chars| ==> IsChar(chars[i])
  }

  function CharsText(chars: seq<Char>): string {
    if chars == [] then "" else CharText(chars[0]) + CharsText(chars[1..])
  }

  /** Every escape of a first half is directly followed by another escape, which belongs
      to it. */
  predicate Paired(chars: seq<Char>) {
    chars == []
    || (if IsHigh(chars[0]) then |chars| > 1 && chars[1].Escaped? && Paired(chars[2..]) else Paired(chars[1..]))
  }

  function CharsBytes(chars: seq<Char>): string
    requires AreScanned(chars) && Paired(chars)
  {
    if chars == [] then ""
    else if IsHigh(chars[0]) then
      Encode(PairCodePoint(chars[0].digits, chars[1].digits)) + CharsBytes(chars[2..])
    else CharBytes(chars[0]) + CharsBytes(chars[1..])
  }

  /** The literal, followed by `rest`. */
  function LiteralText(chars: seq<Char>, rest: string): string {
    "\"" + (CharsText(chars) + ("\"" + rest))
  }

  lemma FoldOne(acc: nat, digits: string)
    requires digits != "" && HexValue(digits[0]).Some?
    ensures HexFold(acc, digits) == HexFold(acc * 16 + HexValue(digits[0]).value, digits[1..])
  {
  }

  lemma Hex4Folds(digits: string, t: string)
    requires IsHex4(digits)
    ensures DecodeUnicodeEscapeSequence(digits + t) == Some(Hex4(digits)) && (digits + t)[4..] == t
  {
    var a, b, c, d := HexValue(digits[0]).value, HexValue(digits[1]).value, HexValue(digits[2]).value,
                      HexValue(digits[3]).value;
    FoldOne(0, digits);
    FoldOne(a, digits[1..]);
    FoldOne(a * 16 + b, digits[1..][1..]);
    FoldOne((a * 16 + b) * 16 + c, digits[1..][1..][1..]);
    assert digits[1..][1..][1..][1..] == "";
    assert (digits + t)[..4] == digits;
  }

  /** Four digits of either case are their numeral in base 16. */
  lemma Hex4Is(text: string, digits: seq<nat>)
    requires |text| == 4 && Spells(text, digits)
    ensures IsHex4(text) && Hex4(text) == Numeral(digits)
  {
    SpelledIsHex(text, digits);
    assert digits[..3][..2] == digits[..2] && digits[..2][..1] == digits[..1] && digits[..1][..0] == [];
    assert Numeral(digits[..1]) == digits[0];
    assert Numeral(digits[..2]) == digits[0] * 16 + digits[1];
    assert Numeral(digits[..3]) == (digits[0] * 16 + digits[1]) * 16 + digits[2];
  }

  lemma EscapedDecodes(digits: string, t: string)
    requires IsHex4(digits) && !(0xD800 <= Hex4(digits) <= 0xDBFF)
    ensures Unescape("\\u" + digits + t) == Prepend(Encode(Hex4(digits)), Unescape(t))
  {
    var s := "\\u" + digits + t;
    assert s[2..] == digits + t;
    Hex4Folds(digits, t);
    assert DecodeUnicodeCodePoint(s[2..]) == Some((Hex4(digits), t));
  }

  lemma PairIsDecoded(high: string, low: string, t: string)
    requires IsHigh(Escaped(high)) && IsHex4(low)
    ensures Unescape("\\u" + high + ("\\u" + low + t)) == Prepend(Encode(PairCodePoint(high, low)), Unescape(t))
  {
    var s := "\\u" + high + ("\\u" + low + t);
    assert s[2..] == high + ("\\u" + low + t);
    Hex4Folds(high, "\\u" + low + t);
    Hex4Folds(low, t);
    PairDecodes(high, low, t, Hex4(high), Hex4(low));
  }

  /** Without another escape behind it a first half is refused. */
  lemma HighIsRefused(high: string, t: string)
    requires IsHigh(Escaped(high)) && (|t| < 2 || t[0] != '\\' || t[1] != 'u')
    ensures Unescape("\\u" + high + t) == None
  {
    var s := "\\u" + high + t;
    assert s[2..] == high + t;
    Hex4Folds(high, t);
    if |t| >= 2 { assert (high + t)[4] == t[0] && (high + t)[5] == t[1]; }
    assert DecodeUnicodeCodePoint(s[2..]) == None;
  }

  lemma RawDecodes(c: char, t: string)
    requires IsScanned(Raw(c))
    ensures Unescape([c] + t) == Prepend([c], Unescape(t))
  {
    assert ([c] + t)[1..] == t;
  }

  lemma UnescapeShort(s: string)
    requires |s| >= 2 && s[0] == '\\' && s[1] != 'u' && ShortUnescape(s[1]).Some?
    ensures Unescape(s) == Prepend([ShortUnescape(s[1]).value], Unescape(s[2..]))
  {
  }

  lemma ShortDecodes(c: char, t: string)
    requires ShortCodePoint(c).Some?
    ensures Unescape(['\\', c] + t) == Prepend([ShortCodePoint(c).value as char], Unescape(t))
  {
    var s := ['\\', c] + t;
    ShortIs(c);
    assert c != 'u';
    UnescapeShort(s);
    assert s[2..] == t;
  }

  lemma CharDecodes(c: Char, t: string)
    requires IsScanned(c) && !IsHigh(c)
    ensures Unescape(CharText(c) + t) == Prepend(CharBytes(c), Unescape(t))
  {
    match c
    case Raw(r) => RawDecodes(r, t);
    case Short(e) => ShortDecodes(e, t);
    case Escaped(digits) => EscapedDecodes(digits, t);
  }

  lemma PairText(chars: seq<Char>)
    requires |chars| > 1
    ensures CharsText(chars) == CharText(chars[0]) + (CharText(chars[1]) + CharsText(chars[2..]))
  {
    assert chars[1..][1..] == chars[2..];
  }

  /** No other character starts like such an escape. */
  lemma OtherText(chars: seq<Char>)
    requires AreScanned(chars) && (chars == [] || !chars[0].Escaped?)
    ensures var t := CharsText(chars); |t| < 2 || t[0] != '\\' || t[1] != 'u'
  {
    if chars != [] { assert IsScanned(chars[0]); }
  }

  lemma HighDecodes(chars: seq<Char>)
    requires AreScanned(chars) && chars != [] && IsHigh(chars[0])
    ensures Unescape(CharsText(chars))
         == if |chars| > 1 && chars[1].Escaped? then
              Prepend(Encode(PairCodePoint(chars[0].digits, chars[1].digits)), Unescape(CharsText(chars[2..])))
            else None
  {
    if |chars| > 1 && chars[1].Escaped? {
      PairText(chars);
      PairIsDecoded(chars[0].digits, chars[1].digits, CharsText(chars[2..]));
    } else {
      OtherText(chars[1..]);
      HighIsRefused(chars[0].digits, CharsText(chars[1..]));
    }
  }

  /** A literal decodes if and only if its escapes are paired, and then to the bytes that
      its characters stand for. */
  lemma {:induction false} CharsDecode(chars: seq<Char>)
    requires AreScanned(chars)
    ensures Unescape(CharsText(chars)) == if Paired(chars) then Some(CharsBytes(chars)) else None
  {
    if chars != [] {
      if IsHigh(chars[0]) {
        HighDecodes(chars);
        if |chars| > 1 { CharsDecode(chars[2..]); }
      } else {
        CharsDecode(chars[1..]);
        CharDecodes(chars[0], CharsText(chars[1..]));
      }
    }
  }

  lemma HexIsPassed(digits: string)
    requires IsHex4(digits)
    ensures IsPassed("\\u" + digits)
  {
    EscapePassed('u');
    PlainPassed(digits[0]);
    PlainPassed(digits[1]);
    PlainPassed(digits[2]);
    PlainPassed(digits[3]);
    PassedConcat("\\u", [digits[0]]);
    PassedConcat("\\u" + [digits[0]], [digits[1]]);
    PassedConcat("\\u" + [digits[0]] + [digits[1]], [digits[2]]);
    PassedConcat("\\u" + [digits[0]] + [digits[1]] + [digits[2]], [digits[3]]);
    assert "\\u" + digits == "\\u" + [digits[0]] + [digits[1]] + [digits[2]] + [digits[3]];
  }

  lemma CharIsPassed(c: Char)
    requires IsScanned(c)
    ensures IsPassed(CharText(c))
  {
    match c
    case Raw(r) => PlainPassed(r);
    case Short(e) => EscapePassed(e);
    case Escaped(digits) => HexIsPassed(digits);
  }

  lemma {:induction false} CharsArePassed(chars: seq<Char>)
    requires AreScanned(chars)
    ensures IsPassed(CharsText(chars))
  {
    if chars == [] {
      forall t: string ensures ScanString("" + t) == ScanString(t) {
        assert "" + t == t;
      }
    } else {
      CharIsPassed(chars[0]);
      CharsArePassed(chars[1..]);
      PassedConcat(CharText(chars[0]), CharsText(chars[1..]));
    }
  }

  lemma PassedIsToken(e: string, rest: string)
    requires IsPassed(e)
    ensures var text, s := "\"" + e + "\"", "\"" + (e + ("\"" + rest));
      && ReadToken(s) == ReadPastComments(s) == Token(StringToken, text, rest)
      && |text| >= 2 && text[1..|text| - 1] == e
  {
    var after := e + ("\"" + rest);
    PassedQuote(e, rest);
    assert e + "\"" + rest == after;
    PlainToken('"', after);
    var text := "\"" + e + "\"";
    assert (['"'] + after)[..|text|] == text;
  }

  /** A literal is one token, whose text decodes if and only if its escapes are paired. */
  lemma LiteralIsToken(chars: seq<Char>, rest: string)
    requires AreScanned(chars)
    ensures var text := "\"" + CharsText(chars) + "\"";
      && ReadToken(LiteralText(chars, rest)) == ReadPastComments(LiteralText(chars, rest))
         == Token(StringToken, text, rest)
      && |text| >= 2
      && Unescape(text[1..|text| - 1]) == if Paired(chars) then Some(CharsBytes(chars)) else None
  {
    CharsArePassed(chars);
    CharsDecode(chars);
    PassedIsToken(CharsText(chars), rest);
  }

  // Numbers.

  /** A number: its sign, the digits before the point, the point with the digits behind it,
      and the exponent with its letter and sign. */
  datatype Number = Number(minus: bool, digits: string, fraction: string, exponent: string)

  predicate IsFraction(s: string) {
    |s| > 1 && s[0] == '.' && AllDigits(s[1..])
  }

  predicate IsExponent(s: string) {
    |s| > 1 && (s[0] == 'e' || s[0] == 'E')
    && var signed := s[1] == '+' || s[1] == '-';
       if signed then |s| > 2 && AllDigits(s[2..]) else AllDigits(s[1..])
  }

  predicate IsNumber(n: Number) {
    && n.digits != "" && AllDigits(n.digits) && (n.digits[0] == '0' ==> |n.digits| == 1)
    && (n.fraction == "" || IsFraction(n.fraction)) && (n.exponent == "" || IsExponent(n.exponent))
  }

  function Sign(n: Number): string {
    if n.minus then "-" else ""
  }

  function NumberText(n: Number): string {
    Sign(n) + (n.digits + (n.fraction + n.exponent))
  }

  predicate IsWhole(n: Number) {
    n.fraction == "" && n.exponent == ""
  }

  function WholeValue(n: Number): int
    requires IsNumber(n)
  {
    if n.minus then 0 - DecimalValue(n.digits) else DecimalValue(n.digits)
  }

  /** Whole numbers of 64 bits are exact; all others are what `toDouble` makes of them. */
  function NumberValue(n: Number, toDouble: string -> Option<nat>): Option<Value>
    requires IsNumber(n)
  {
    if IsWhole(n) && -0x8000_0000_0000_0000 <= WholeValue(n) < 0x1_0000_0000_0000_0000 then Some(Tagged(WholeValue(n)))
    else
      match toDouble(NumberText(n))
      case None => None
      case Some(bits) => Some(Real(bits))
  }

  lemma MagnitudeIs(n: Number)
    requires IsNumber(n)
    ensures NumberText(n) != "" && (NumberText(n)[0] == '-' <==> n.minus)
    ensures Magnitude(NumberText(n)) == n.digits + (n.fraction + n.exponent)
  {
    var unsigned := n.digits + (n.fraction + n.exponent);
    assert unsigned[0] == n.digits[0];
    if n.minus { assert ("-" + unsigned)[1..] == unsigned; } else { assert "" + unsigned == unsigned; }
  }

  lemma NotAllDigits(n: Number)
    requires IsNumber(n) && !IsWhole(n)
    ensures !AllDigits(n.digits + (n.fraction + n.exponent))
  {
    var tail := n.fraction + n.exponent;
    assert (n.digits + tail)[|n.digits|] == tail[0];
    assert !IsDigit(tail[0]) by {
      if n.fraction == "" { assert tail == n.exponent; } else { assert tail[0] == n.fraction[0]; }
    }
  }

  lemma WholeDecodes(n: Number)
    requires IsNumber(n) && IsWhole(n) && NumberText(n) != ""
    ensures DecodeInteger(NumberText(n))
         == if -(MAX_LARGEST_INT + 1) <= WholeValue(n) <= MAX_LARGEST_UINT then Some(Tagged(WholeValue(n))) else None
  {
    MagnitudeIs(n);
    assert n.digits + ("" + "") == n.digits;
    DecodeIsExact(NumberText(n));
  }

  lemma NumberDecodes(n: Number, toDouble: string -> Option<nat>)
    requires IsNumber(n)
    ensures NumberText(n) != "" && DecodeNumberToken(NumberText(n), toDouble) == NumberValue(n, toDouble)
  {
    MagnitudeIs(n);
    DecodeIsExact(NumberText(n));
    if IsWhole(n) {
      WholeDecodes(n);
    } else {
      NotAllDigits(n);
    }
  }

  predicate StartsWithoutDigit(s: string) {
    s == "" || !IsDigit(s[0])
  }

  /** What the reader leaves of a number, from after the digits before its point. */
  lemma PastFraction(fraction: string, s: string)
    requires fraction == "" || IsFraction(fraction)
    requires StartsWithoutDigit(s) && (s != "" ==> s[0] != '.')
    ensures var whole := fraction + s;
      StartsWithoutDigit(whole) && FractionRest(whole) == s
  {
    if fraction == "" {
      assert fraction + s == s;
    } else {
      assert (fraction + s)[1..] == fraction[1..] + s;
      DigitsSkipped(fraction[1..], s);
    }
  }

  lemma PastExponent(exponent: string, s: string)
    requires (exponent == "" || IsExponent(exponent)) && EndsNumber(s)
    ensures ExponentRest(exponent + s) == s
    ensures var t := exponent + s; StartsWithoutDigit(t) && (t != "" ==> t[0] != '.')
  {
    if exponent == "" {
      assert exponent + s == s;
    } else {
      var t := exponent + s;
      if exponent[1] == '+' || exponent[1] == '-' {
        assert t[1..][1..] == exponent[2..] + s;
        DigitsSkipped(exponent[2..], s);
      } else {
        assert t[1..] == exponent[1..] + s;
        assert t[1] == exponent[1] && IsDigit(exponent[1..][0]);
        DigitsSkipped(exponent[1..], s);
      }
    }
  }

  lemma NumberIsPassed(digits: string, n: Number, s: string)
    requires IsNumber(n) && AllDigits(digits) && EndsNumber(s)
    ensures NumberRest(digits + (n.fraction + (n.exponent + s))) == s
  {
    PastExponent(n.exponent, s);
    PastFraction(n.fraction, n.exponent + s);
    DigitsSkipped(digits, n.fraction + (n.exponent + s));
  }

  lemma ThreeParts(a: string, b: string, c: string)
    ensures "" + (a + b + c) == a + (b + c)
  {
  }

  lemma NumberBegins(n: Number)
    requires IsNumber(n)
    ensures var c, digits := if n.minus then '-' else n.digits[0], if n.minus then n.digits else n.digits[1..];
      NumberText(n) == [c] + (digits + (n.fraction + n.exponent)) && AllDigits(digits) && (IsDigit(c) || c == '-')
  {
    if !n.minus {
      assert n.digits == [n.digits[0]] + n.digits[1..];
      ThreeParts([n.digits[0]], n.digits[1..], n.fraction + n.exponent);
    }
  }

  lemma FourParts(a: string, b: string, c: string, d: string)
    ensures a + (b + c) + d == a + (b + (c + d))
  {
  }

  lemma TailIsToken(c: char, tail: string, s: string, text: string)
    requires text + s == [c] + (tail + s) && text == [c] + tail
    requires (IsDigit(c) || c == '-') && NumberRest(tail + s) == s
    ensures ReadPastComments(text + s) == Token(NumberToken, text, s)
  {
    NumberTokenIs(c, tail, s);
  }

  lemma OneInFront(c: char, tail: string, s: string)
    ensures [c] + tail + s == [c] + (tail + s)
  {
  }

  lemma PartsAreToken(c: char, a: string, b: string, x: string, s: string)
    requires (IsDigit(c) || c == '-') && NumberRest(a + (b + (x + s))) == s
    ensures var text := [c] + (a + (b + x));
      ReadPastComments(text + s) == Token(NumberToken, text, s)
  {
    FourParts(a, b, x, s);
    OneInFront(c, a + (b + x), s);
    TailIsToken(c, a + (b + x), s, [c] + (a + (b + x)));
  }

  lemma NumberIsToken(n: Number, s: string)
    requires IsNumber(n) && EndsNumber(s)
    ensures ReadPastComments(NumberText(n) + s) == Token(NumberToken, NumberText(n), s)
  {
    var c, digits := if n.minus then '-' else n.digits[0], if n.minus then n.digits else n.digits[1..];
    NumberBegins(n);
    NumberIsPassed(digits, n, s);
    PartsAreToken(c, digits, n.fraction, n.exponent, s);
  }

  // Texts.

  /** A value with the white space around everything in it; `space` is what stands between
      the brackets of an empty array or object. */
  datatype Doc =
    | NullDoc
    | BoolDoc(b: bool)
    | NumberDoc(n: Number)
    | StringDoc(chars: seq<Char>)
    | ArrayDoc(space: string, items: seq<Item>)
    | ObjectDoc(space: string, entries: seq<Entry>)

  datatype Item = Item(before: string, doc: Doc, after: string)

  datatype Entry = Entry(before: string, name: seq<Char>, between: string, item: Item)

  /** Spaces, tabs, line feeds and carriage returns. */
  predicate AreSpaces(s: string) {
    forall i :: 0 <= i < |s| ==> s[i] == ' ' || s[i] == '\t' || s[i] == '\n' || s[i] == '\r'
  }

  /** A text of the grammar. */
  predicate IsDoc(d: Doc)
    decreases d
  {
    match d
    case NumberDoc(n) => IsNumber(n)
    case StringDoc(chars) => AreChars(chars)
    case ArrayDoc(space, items) => AreSpaces(space) && AreItems(items)
    case ObjectDoc(space, entries) => AreSpaces(space) && AreEntries(entries)
    case _ => true
  }

  predicate AreItems(items: seq<Item>)
    decreases items
  {
    items != [] ==>
      && AreSpaces(items[0].before) && IsDoc(items[0].doc) && AreSpaces(items[0].after)
      && AreItems(items[1..])
  }

  predicate AreEntries(entries: seq<Entry>)
    decreases entries
  {
    entries != [] ==>
      var e := entries[0];
      && AreSpaces(e.before) && AreChars(e.name) && AreSpaces(e.between)
      && AreSpaces(e.item.before) && IsDoc(e.item.doc) && AreSpaces(e.item.after)
      && AreEntries(entries[1..])
  }

  /** Every number has a value, and the escapes of every literal and name are paired. */
  predicate IsReadable(d: Doc, toDouble: string -> Option<nat>)
    requires IsDoc(d)
    decreases d
  {
    match d
    case NumberDoc(n) => NumberValue(n, toDouble).Some?
    case StringDoc(chars) => Paired(chars)
    case ArrayDoc(_, items) => AreReadable(items, toDouble)
    case ObjectDoc(_, entries) => EntriesReadable(entries, toDouble)
    case _ => true
  }

  predicate AreReadable(items: seq<Item>, toDouble: string -> Option<nat>)
    requires AreItems(items)
    decreases items
  {
    items != [] ==> IsReadable(items[0].doc, toDouble) && AreReadable(items[1..], toDouble)
  }

  predicate EntriesReadable(entries: seq<Entry>, toDouble: string -> Option<nat>)
    requires AreEntries(entries)
    decreases entries
  {
    entries != [] ==>
      && Paired(entries[0].name) && IsReadable(entries[0].item.doc, toDouble)
      && EntriesReadable(entries[1..], toDouble)
  }

  /** The text, followed by `rest`. */
  function Text(d: Doc, rest: string): string
    decreases d, 0
  {
    match d
    case NullDoc => "null" + rest
    case BoolDoc(b) => (if b then "true" else "false") + rest
    case NumberDoc(n) => NumberText(n) + rest
    case StringDoc(chars) => LiteralText(chars, rest)
    case ArrayDoc(space, items) => "[" + if items == [] then space + ("]" + rest) else ItemsText(items, rest)
    case ObjectDoc(space, entries) => "{" + if entries == [] then space + ("}" + rest) else EntriesText(entries, rest)
  }

  function ItemText(i: Item, rest: string): string
    decreases i
  {
    i.before + Text(i.doc, i.after + rest)
  }

  function EntryText(e: Entry, rest: string): string
    decreases e
  {
    e.before + LiteralText(e.name, e.between + (":" + ItemText(e.item, rest)))
  }

  function ItemsText(items: seq<Item>, rest: string): string
    requires items != []
    decreases items
  {
    ItemText(items[0], if |items| == 1 then "]" + rest else "," + ItemsText(items[1..], rest))
  }

  function EntriesText(entries: seq<Entry>, rest: string): string
    requires entries != []
    decreases entries
  {
    EntryText(entries[0], if |entries| == 1 then "}" + rest else "," + EntriesText(entries[1..], rest))
  }

  /** The value that the text denotes; of entries with one name the last one counts. */
  function ValueOf(d: Doc, toDouble: string -> Option<nat>): Value
    requires IsDoc(d) && IsReadable(d, toDouble)
    decreases d, 0
  {
    match d
    case NullDoc => Null
    case BoolDoc(b) => Bool(b)
    case NumberDoc(n) => NumberValue(n, toDouble).value
    case StringDoc(chars) => Str(CharsBytes(chars))
    case ArrayDoc(_, items) => Array(ItemValues(items, toDouble))
    case ObjectDoc(_, entries) => Object(EntryValues(entries, [], toDouble))
  }

  function ItemValues(items: seq<Item>, toDouble: string -> Option<nat>): seq<Value>
    requires AreItems(items) && AreReadable(items, toDouble)
    decreases items
  {
    if items == [] then [] else [ValueOf(items[0].doc, toDouble)] + ItemValues(items[1..], toDouble)
  }

  function EntryValues(entries: seq<Entry>, done: seq<Member>, toDouble: string -> Option<nat>): seq<Member>
    requires AreEntries(entries) && EntriesReadable(entries, toDouble)
    decreases entries
  {
    if entries == [] then done
    else
      var e := entries[0];
      EntryValues(entries[1..], Put(done, CharsBytes(e.name), ValueOf(e.item.doc, toDouble)), toDouble)
  }

  function DocDepth(d: Doc): (n: nat)
    ensures n > 0
    decreases d, 0
  {
    match d
    case ArrayDoc(_, items) => 1 + ItemsDepth(items)
    case ObjectDoc(_, entries) => 1 + EntriesDepth(entries)
    case _ => 1
  }

  function ItemsDepth(items: seq<Item>): nat
    decreases items
  {
    if items == [] then 0 else Max(DocDepth(items[0].doc), ItemsDepth(items[1..]))
  }

  function EntriesDepth(entries: seq<Entry>): nat
    decreases entries
  {
    if entries == [] then 0 else Max(DocDepth(entries[0].item.doc), EntriesDepth(entries[1..]))
  }

  /** What a text means to the reader. */
  datatype Meaning = Means(value: Value) | Unreadable | TooNested

  function ResultOf(m: Meaning, rest: string): ReadResult {
    match m
    case Means(v) => Parsed(v, rest)
    case Unreadable => Rejected
    case TooNested => TooDeep
  }

  /** The meaning of a text read with `h` values on the stack; what cannot be read is found
      in the order of reading. */
  function MeaningOf(d: Doc, h: nat, toDouble: string -> Option<nat>): Meaning
    requires IsDoc(d)
    decreases d, 0
  {
    if h > STACK_LIMIT then TooNested
    else
      match d
      case NullDoc => Means(Null)
      case BoolDoc(b) => Means(Bool(b))
      case NumberDoc(n) => if NumberValue(n, toDouble).Some? then Means(NumberValue(n, toDouble).value) else Unreadable
      case StringDoc(chars) => if Paired(chars) then Means(Str(CharsBytes(chars))) else Unreadable
      case ArrayDoc(_, items) => ItemsMeaning(items, [], h, toDouble)
      case ObjectDoc(_, entries) => EntriesMeaning(entries, [], h, toDouble)
  }

  function ItemsMeaning(items: seq<Item>, done: seq<Value>, h: nat, toDouble: string -> Option<nat>): Meaning
    requires AreItems(items)
    decreases items
  {
    if items == [] then Means(Array(done))
    else
      var m := MeaningOf(items[0].doc, h + 1, toDouble);
      if m.Means? then ItemsMeaning(items[1..], done + [m.value], h, toDouble) else m
  }

  function EntriesMeaning(entries: seq<Entry>, done: seq<Member>, h: nat, toDouble: string -> Option<nat>): Meaning
    requires AreEntries(entries)
    decreases entries
  {
    if entries == [] then Means(Object(done))
    else if !Paired(entries[0].name) then Unreadable
    else
      var m := MeaningOf(entries[0].item.doc, h + 1, toDouble);
      if m.Means? then EntriesMeaning(entries[1..], Put(done, CharsBytes(entries[0].name), m.value), h, toDouble)
      else m
  }

  function AfterItem(items: seq<Item>, rest: string): string
    requires items != []
  {
    if |items| == 1 then "]" + rest else "," + ItemsText(items[1..], rest)
  }

  function AfterEntry(entries: seq<Entry>, rest: string): string
    requires entries != []
  {
    if |entries| == 1 then "}" + rest else "," + EntriesText(entries[1..], rest)
  }

  lemma ItemsTextIs(items: seq<Item>, rest: string)
    requires items != []
    ensures ItemsText(items, rest) == ItemText(items[0], AfterItem(items, rest))
  {
  }

  lemma EntriesTextIs(entries: seq<Entry>, rest: string)
    requires entries != []
    ensures EntriesText(entries, rest) == EntryText(entries[0], AfterEntry(entries, rest))
  {
  }

  lemma LiteralAppends(chars: seq<Char>, a: string, b: string)
    ensures LiteralText(chars, a + b) == LiteralText(chars, a) + b
  {
    FourParts("\"", CharsText(chars), "\"" + a, b);
  }

  /** What follows a text is no part of it. */
  lemma {:induction false} TextAppends(d: Doc, a: string, b: string)
    ensures Text(d, a + b) == Text(d, a) + b
    decreases d, 0
  {
    match d
    case ArrayDoc(_, items) => if items != [] { ItemsAppend(items, a, b); }
    case ObjectDoc(_, entries) => if entries != [] { EntriesAppend(entries, a, b); }
    case StringDoc(chars) => LiteralAppends(chars, a, b);
    case _ =>
  }

  lemma ItemAppends(i: Item, a: string, b: string)
    requires Text(i.doc, i.after + a + b) == Text(i.doc, i.after + a) + b
    ensures ItemText(i, a + b) == ItemText(i, a) + b
  {
    assert i.after + (a + b) == i.after + a + b;
    assert i.before + (Text(i.doc, i.after + a) + b) == i.before + Text(i.doc, i.after + a) + b;
  }

  lemma EntryAppends(before: string, name: seq<Char>, between: string, s: string, b: string)
    ensures before + LiteralText(name, between + (":" + (s + b))) == before + LiteralText(name, between + (":" + s)) + b
  {
    assert between + (":" + (s + b)) == between + (":" + s) + b;
    LiteralAppends(name, between + (":" + s), b);
    assert before + (LiteralText(name, between + (":" + s)) + b) == before + LiteralText(name, between + (":" + s)) + b;
  }

  lemma AfterItemAppends(items: seq<Item>, a: string, b: string)
    requires items != [] && (|items| > 1 ==> ItemsText(items[1..], a + b) == ItemsText(items[1..], a) + b)
    ensures AfterItem(items, a + b) == AfterItem(items, a) + b
  {
  }

  lemma AfterEntryAppends(entries: seq<Entry>, a: string, b: string)
    requires entries != [] && (|entries| > 1 ==> EntriesText(entries[1..], a + b) == EntriesText(entries[1..], a) + b)
    ensures AfterEntry(entries, a + b) == AfterEntry(entries, a) + b
  {
  }

  lemma {:induction false} ItemsAppend(items: seq<Item>, a: string, b: string)
    requires items != []
    ensures ItemsText(items, a + b) == ItemsText(items, a) + b
    decreases items
  {
    if |items| > 1 { ItemsAppend(items[1..], a, b); }
    AfterItemAppends(items, a, b);
    TextAppends(items[0].doc, items[0].after + AfterItem(items, a), b);
    ItemAppends(items[0], AfterItem(items, a), b);
    ItemsTextIs(items, a);
    ItemsTextIs(items, a + b);
  }

  lemma FirstEntryAppends(e: Entry, a: string, b: string)
    requires Text(e.item.doc, e.item.after + a + b) == Text(e.item.doc, e.item.after + a) + b
    ensures EntryText(e, a + b) == EntryText(e, a) + b
  {
    ItemAppends(e.item, a, b);
    EntryAppends(e.before, e.name, e.between, ItemText(e.item, a), b);
  }

  lemma {:induction false} EntriesAppend(entries: seq<Entry>, a: string, b: string)
    requires entries != []
    ensures EntriesText(entries, a + b) == EntriesText(entries, a) + b
    decreases entries
  {
    var e := entries[0];
    if |entries| > 1 { EntriesAppend(entries[1..], a, b); }
    AfterEntryAppends(entries, a, b);
    TextAppends(e.item.doc, e.item.after + AfterEntry(entries, a), b);
    FirstEntryAppends(e, AfterEntry(entries, a), b);
    EntriesTextIs(entries, a);
    EntriesTextIs(entries, a + b);
  }

  /** The value of the last entry of that name, or `found` without one. */
  function LastNamed(entries: seq<Entry>, name: string, found: Value, toDouble: string -> Option<nat>): Value
    requires AreEntries(entries) && EntriesReadable(entries, toDouble)
    decreases entries
  {
    if entries == [] then found
    else
      var e := entries[0];
      var value := ValueOf(e.item.doc, toDouble);
      LastNamed(entries[1..], name, if CharsBytes(e.name) == name then value else found, toDouble)
  }

  /** Under each name the object holds the value of the last entry of that name. */
  lemma {:induction false} LastEntryCounts(entries: seq<Entry>, done: seq<Member>, name: string,
      toDouble: string -> Option<nat>)
    requires AreEntries(entries) && EntriesReadable(entries, toDouble) && Sorted(done)
    ensures Sorted(EntryValues(entries, done, toDouble))
    ensures Lookup(EntryValues(entries, done, toDouble), name)
         == LastNamed(entries, name, Lookup(done, name), toDouble)
    decreases entries
  {
    if entries != [] {
      var key, value := CharsBytes(entries[0].name), ValueOf(entries[0].item.doc, toDouble);
      PutSorted(done, key, value);
      PutLookup(done, key, value, name);
      LastEntryCounts(entries[1..], Put(done, key, value), name, toDouble);
    }
  }

  // White space.

  lemma {:induction false} SpacesArePassed(space: string, s: string)
    requires AreSpaces(space)
    ensures ReadToken(space + s) == ReadToken(s) && SkipSpaces(space + s) == SkipSpaces(s)
    ensures ReadPastComments(space + s) == ReadPastComments(s)
    decreases |space|
  {
    if space == "" {
      assert space + s == s;
    } else {
      assert (space + s)[1..] == space[1..] + s;
      SpacesArePassed(space[1..], s);
      assert ReadToken(space + s) == TokenAt(space + s);
    }
  }

  lemma SpacesBeforeValue(space: string, s: string, h: nat, toDouble: string -> Option<nat>)
    requires AreSpaces(space)
    ensures ReadValue(space + s, h, toDouble) == ReadValue(s, h, toDouble)
  {
    SpacesArePassed(space, s);
  }

  lemma EndsAfterSpaces(space: string, c: char, s: string)
    requires AreSpaces(space) && IsPunctuation(c)
    ensures EndsNumber(space + ([c] + s))
  {
    if space != "" { assert IsSpace(space[0]); }
  }

  // One step of the reader.

  lemma ItemThenEnd(s: string, items: seq<Value>, h: nat, toDouble: string -> Option<nat>, m: Meaning,
      space: string, rest: string)
    requires AreSpaces(space) && ReadValue(s, h + 1, toDouble) == ResultOf(m, space + ("]" + rest))
    ensures ReadItems(s, items, h, toDouble)
         == if m.Means? then Parsed(Array(items + [m.value]), rest) else ResultOf(m, rest)
  {
    SpacesArePassed(space, "]" + rest);
    PunctuationToken(']', rest);
  }

  lemma ItemThenNext(s: string, items: seq<Value>, h: nat, toDouble: string -> Option<nat>, m: Meaning,
      space: string, next: string, rest: string)
    requires AreSpaces(space) && ReadValue(s, h + 1, toDouble) == ResultOf(m, space + ("," + next))
    ensures ReadItems(s, items, h, toDouble)
         == if m.Means? then ReadItems(next, items + [m.value], h, toDouble) else ResultOf(m, rest)
  {
    SpacesArePassed(space, "," + next);
    PunctuationToken(',', next);
  }

  /** Up to the value of an entry. */
  lemma EntryBegins(before: string, name: seq<Char>, between: string, s: string, members: seq<Member>, last: string,
      h: nat, toDouble: string -> Option<nat>)
    requires AreSpaces(before) && AreChars(name) && AreSpaces(between)
    ensures ReadMembers(before + LiteralText(name, between + (":" + s)), members, last, h, toDouble)
         == if Paired(name) then ReadMember(s, members, CharsBytes(name), h, toDouble) else Rejected
  {
    var colon := between + (":" + s);
    SpacesArePassed(before, LiteralText(name, colon));
    LiteralIsToken(name, colon);
    SpacesArePassed(between, ":" + s);
    PunctuationToken(':', s);
  }

  lemma EntryEnds(space: string, s: string, members: seq<Member>, name: string, h: nat,
      toDouble: string -> Option<nat>)
    requires AreSpaces(space)
    ensures AfterMember(space + s, members, name, h, toDouble) == AfterMember(s, members, name, h, toDouble)
  {
    SpacesArePassed(space, s);
  }

  lemma ArrayBegins(s: string, h: nat, toDouble: string -> Option<nat>)
    requires h <= STACK_LIMIT
    ensures ReadValue("[" + s, h, toDouble) == ReadArray(s, h, toDouble)
  {
    PunctuationToken('[', s);
    ScalarIsRead("[" + s, Token(ArrayBegin, "[", s), h, toDouble);
  }

  lemma EmptyArray(space: string, rest: string, h: nat, toDouble: string -> Option<nat>)
    requires AreSpaces(space)
    ensures ReadArray(space + ("]" + rest), h, toDouble) == Parsed(Array([]), rest)
  {
    SpacesArePassed(space, "]" + rest);
    assert SkipSpaces("]" + rest) == "]" + rest;
    assert ("]" + rest)[1..] == rest;
  }

  lemma EmptyObject(space: string, rest: string, h: nat, toDouble: string -> Option<nat>)
    requires AreSpaces(space)
    ensures ReadMembers(space + ("}" + rest), [], "", h, toDouble) == Parsed(Object([]), rest)
  {
    SpacesArePassed(space, "}" + rest);
    PunctuationToken('}', rest);
  }

  /** The items of an array start behind its white space. */
  lemma FirstItem(space: string, s: string, h: nat, toDouble: string -> Option<nat>)
    requires AreSpaces(space) && BeginsValue(s)
    ensures ReadArray(space + s, h, toDouble) == ReadItems(s, [], h, toDouble)
  {
    SpacesArePassed(space, s);
    assert SkipSpaces(s) == s;
  }

  lemma TextBegins(d: Doc, rest: string)
    requires IsDoc(d)
    ensures BeginsValue(Text(d, rest))
  {
    match d
    case NumberDoc(n) => NumberBegins(n);
    case _ =>
  }

  // Reading texts.

  lemma ReadNumberDoc(n: Number, rest: string, h: nat, toDouble: string -> Option<nat>)
    requires IsNumber(n) && EndsNumber(rest) && h <= STACK_LIMIT
    ensures ReadValue(NumberText(n) + rest, h, toDouble) == Reading(NumberValue(n, toDouble), rest)
  {
    NumberIsToken(n, rest);
    NumberDecodes(n, toDouble);
    ScalarIsRead(NumberText(n) + rest, Token(NumberToken, NumberText(n), rest), h, toDouble);
  }

  lemma ReadStringDoc(chars: seq<Char>, rest: string, h: nat, toDouble: string -> Option<nat>)
    requires AreChars(chars) && h <= STACK_LIMIT
    ensures ReadValue(LiteralText(chars, rest), h, toDouble)
         == if Paired(chars) then Parsed(Str(CharsBytes(chars)), rest) else Rejected
  {
    LiteralIsToken(chars, rest);
    var text := "\"" + CharsText(chars) + "\"";
    ScalarIsRead(LiteralText(chars, rest), Token(StringToken, text, rest), h, toDouble);
  }

  lemma ReadScalarDoc(d: Doc, rest: string, h: nat, toDouble: string -> Option<nat>)
    requires IsDoc(d) && EndsNumber(rest) && !d.ArrayDoc? && !d.ObjectDoc? && h <= STACK_LIMIT
    ensures ReadValue(Text(d, rest), h, toDouble) == ResultOf(MeaningOf(d, h, toDouble), rest)
  {
    match d
    case NullDoc => ReadWrittenScalar(Null, rest, h, toDouble, _ => "");
    case BoolDoc(b) => ReadWrittenScalar(Bool(b), rest, h, toDouble, _ => "");
    case NumberDoc(n) => ReadNumberDoc(n, rest, h, toDouble);
    case StringDoc(chars) => ReadStringDoc(chars, rest, h, toDouble);
  }

  lemma ItemsBegin(items: seq<Item>, rest: string, h: nat, toDouble: string -> Option<nat>)
    requires items != [] && AreItems(items)
    ensures ReadArray(ItemsText(items, rest), h, toDouble) == ReadItems(ItemsText(items, rest), [], h, toDouble)
  {
    var i := items[0];
    var text := Text(i.doc, i.after + AfterItem(items, rest));
    ItemsTextIs(items, rest);
    TextBegins(i.doc, i.after + AfterItem(items, rest));
    FirstItem(i.before, text, h, toDouble);
    SpacesBeforeValue(i.before, text, h + 1, toDouble);
  }

  /** The white space around an item changes nothing. */
  lemma ItemIsRead(i: Item, after: string, h: nat, toDouble: string -> Option<nat>, r: ReadResult)
    requires AreSpaces(i.before) && ReadValue(Text(i.doc, i.after + after), h, toDouble) == r
    ensures ReadValue(ItemText(i, after), h, toDouble) == r
  {
    SpacesBeforeValue(i.before, Text(i.doc, i.after + after), h, toDouble);
  }

  lemma AfterItemEnds(items: seq<Item>, rest: string)
    requires items != [] && AreSpaces(items[0].after)
    ensures EndsNumber(items[0].after + AfterItem(items, rest))
  {
    if |items| == 1 {
      EndsAfterSpaces(items[0].after, ']', rest);
    } else {
      EndsAfterSpaces(items[0].after, ',', ItemsText(items[1..], rest));
    }
  }

  lemma AfterEntryEnds(entries: seq<Entry>, rest: string)
    requires entries != [] && AreSpaces(entries[0].item.after)
    ensures EndsNumber(entries[0].item.after + AfterEntry(entries, rest))
  {
    if |entries| == 1 {
      EndsAfterSpaces(entries[0].item.after, '}', rest);
    } else {
      EndsAfterSpaces(entries[0].item.after, ',', EntriesText(entries[1..], rest));
    }
  }

  /** The first item is read, and then the others. */
  lemma FirstItemIsRead(items: seq<Item>, done: seq<Value>, m: Meaning, rest: string, h: nat,
      toDouble: string -> Option<nat>)
    requires items != [] && AreItems(items)
    requires var after := items[0].after + AfterItem(items, rest);
      ReadValue(Text(items[0].doc, after), h + 1, toDouble) == ResultOf(m, after)
    ensures ReadItems(ItemsText(items, rest), done, h, toDouble)
         == if !m.Means? then ResultOf(m, rest)
            else if |items| == 1 then Parsed(Array(done + [m.value]), rest)
            else ReadItems(ItemsText(items[1..], rest), done + [m.value], h, toDouble)
  {
    var i, text := items[0], ItemsText(items, rest);
    ItemsTextIs(items, rest);
    ItemIsRead(i, AfterItem(items, rest), h + 1, toDouble, ResultOf(m, i.after + AfterItem(items, rest)));
    if |items| == 1 {
      ItemThenEnd(text, done, h, toDouble, m, i.after, rest);
    } else {
      ItemThenNext(text, done, h, toDouble, m, i.after, ItemsText(items[1..], rest), rest);
    }
  }

  /** After the value of an entry the object ends, or the other entries follow. */
  lemma EntriesGoOn(entries: seq<Entry>, members: seq<Member>, key: string, rest: string, h: nat,
      toDouble: string -> Option<nat>)
    requires entries != [] && AreEntries(entries)
    ensures AfterMember(entries[0].item.after + AfterEntry(entries, rest), members, key, h, toDouble)
         == if |entries| == 1 then Parsed(Object(members), rest)
            else ReadMembers(EntriesText(entries[1..], rest), members, key, h, toDouble)
  {
    EntryEnds(entries[0].item.after, AfterEntry(entries, rest), members, key, h, toDouble);
    if |entries| == 1 {
      LastMember(members, key, h, toDouble, rest);
    } else {
      NextMember(members, key, h, toDouble, EntriesText(entries[1..], rest));
    }
  }

  lemma MemberMeans(s: string, members: seq<Member>, name: string, h: nat, toDouble: string -> Option<nat>,
      m: Meaning, after: string, rest: string)
    requires ReadValue(s, h + 1, toDouble) == ResultOf(m, after)
    ensures ReadMember(s, members, name, h, toDouble)
         == if m.Means? then AfterMember(after, Put(members, name, m.value), name, h, toDouble) else ResultOf(m, rest)
  {
  }

  /** The first entry is read, and then the others. */
  lemma FirstEntryIsRead(entries: seq<Entry>, done: seq<Member>, name: string, m: Meaning, rest: string, h: nat,
      toDouble: string -> Option<nat>)
    requires entries != [] && AreEntries(entries)
    requires var after := entries[0].item.after + AfterEntry(entries, rest);
      ReadValue(Text(entries[0].item.doc, after), h + 1, toDouble) == ResultOf(m, after)
    ensures ReadMembers(EntriesText(entries, rest), done, name, h, toDouble)
         == if !Paired(entries[0].name) then Rejected
            else if !m.Means? then ResultOf(m, rest)
            else
              var key := CharsBytes(entries[0].name);
              var next := Put(done, key, m.value);
              if |entries| == 1 then Parsed(Object(next), rest)
              else ReadMembers(EntriesText(entries[1..], rest), next, key, h, toDouble)
  {
    var e, after := entries[0], AfterEntry(entries, rest);
    var s := ItemText(e.item, after);
    EntriesTextIs(entries, rest);
    EntryBegins(e.before, e.name, e.between, s, done, name, h, toDouble);
    ItemIsRead(e.item, after, h + 1, toDouble, ResultOf(m, e.item.after + after));
    if Paired(e.name) {
      var key := CharsBytes(e.name);
      MemberMeans(s, done, key, h, toDouble, m, e.item.after + after, rest);
      if m.Means? { EntriesGoOn(entries, Put(done, key, m.value), key, rest, h, toDouble); }
    }
  }

  /** Every text of the grammar is read as what it means to the reader, whatever follows
      that does not belong to a number. */
  lemma {:induction false} ReadAsMeant(d: Doc, rest: string, h: nat, toDouble: string -> Option<nat>)
    requires IsDoc(d) && EndsNumber(rest)
    ensures ReadValue(Text(d, rest), h, toDouble) == ResultOf(MeaningOf(d, h, toDouble), rest)
    decreases d, 0
  {
    if h > STACK_LIMIT {
      TooDeepAnyway(Text(d, rest), h, toDouble);
    } else {
      match d
      case ArrayDoc(space, items) =>
        if items == [] {
          ArrayBegins(space + ("]" + rest), h, toDouble);
          EmptyArray(space, rest, h, toDouble);
        } else {
          ArrayBegins(ItemsText(items, rest), h, toDouble);
          ReadItemDocs(items, [], rest, h, toDouble);
          ItemsBegin(items, rest, h, toDouble);
        }
      case ObjectDoc(space, entries) =>
        if entries == [] {
          ObjectIsRead(space + ("}" + rest), h, toDouble);
          EmptyObject(space, rest, h, toDouble);
        } else {
          ObjectIsRead(EntriesText(entries, rest), h, toDouble);
          ReadEntryDocs(entries, [], "", rest, h, toDouble);
        }
      case _ => ReadScalarDoc(d, rest, h, toDouble);
    }
  }

  lemma {:induction false} ReadItemDocs(items: seq<Item>, done: seq<Value>, rest: string, h: nat,
      toDouble: string -> Option<nat>)
    requires items != [] && AreItems(items)
    ensures ReadItems(ItemsText(items, rest), done, h, toDouble)
         == ResultOf(ItemsMeaning(items, done, h, toDouble), rest)
    decreases items
  {
    var i, more := items[0], items[1..];
    var m := MeaningOf(i.doc, h + 1, toDouble);
    AfterItemEnds(items, rest);
    ReadAsMeant(i.doc, i.after + AfterItem(items, rest), h + 1, toDouble);
    FirstItemIsRead(items, done, m, rest, h, toDouble);
    if more != [] && m.Means? { ReadItemDocs(more, done + [m.value], rest, h, toDouble); }
  }

  lemma {:induction false} ReadEntryDocs(entries: seq<Entry>, done: seq<Member>, name: string, rest: string, h: nat,
      toDouble: string -> Option<nat>)
    requires entries != [] && AreEntries(entries)
    ensures ReadMembers(EntriesText(entries, rest), done, name, h, toDouble)
         == ResultOf(EntriesMeaning(entries, done, h, toDouble), rest)
    decreases entries
  {
    var e, more := entries[0], entries[1..];
    var m := MeaningOf(e.item.doc, h + 1, toDouble);
    AfterEntryEnds(entries, rest);
    ReadAsMeant(e.item.doc, e.item.after + AfterEntry(entries, rest), h + 1, toDouble);
    FirstEntryIsRead(entries, done, name, m, rest, h, toDouble);
    if more != [] && Paired(e.name) && m.Means? {
      var key := CharsBytes(e.name);
      ReadEntryDocs(more, Put(done, key, m.value), key, rest, h, toDouble);
    }
  }

  // When a text is read.

  /** What reading comes to, in terms of the text: its value, if it is readable and nested
      within `room`. */
  ghost predicate Agrees(m: Meaning, readable: bool, depth: nat, room: int) {
    && (m.Means? <==> readable && depth <= room)
    && (m.Unreadable? ==> !readable) && (m.TooNested? ==> depth > room)
  }

  lemma {:induction false} MeaningIs(d: Doc, h: nat, toDouble: string -> Option<nat>)
    requires IsDoc(d)
    ensures var m := MeaningOf(d, h, toDouble);
      && Agrees(m, IsReadable(d, toDouble), DocDepth(d), STACK_LIMIT + 1 - h)
      && (m.Means? ==> m.value == ValueOf(d, toDouble))
    decreases d, 0
  {
    if h <= STACK_LIMIT {
      match d
      case ArrayDoc(_, items) =>
        ItemsMeaningIs(items, [], h, toDouble);
        if AreReadable(items, toDouble) { assert [] + ItemValues(items, toDouble) == ItemValues(items, toDouble); }
      case ObjectDoc(_, entries) => EntriesMeaningIs(entries, [], h, toDouble);
      case _ =>
    }
  }

  lemma {:induction false} ItemsMeaningIs(items: seq<Item>, done: seq<Value>, h: nat, toDouble: string -> Option<nat>)
    requires AreItems(items) && h <= STACK_LIMIT
    ensures var m := ItemsMeaning(items, done, h, toDouble);
      && Agrees(m, AreReadable(items, toDouble), ItemsDepth(items), STACK_LIMIT - h)
      && (m.Means? ==> m.value == Array(done + ItemValues(items, toDouble)))
    decreases items
  {
    if items == [] {
      assert done + [] == done;
    } else {
      var m := MeaningOf(items[0].doc, h + 1, toDouble);
      MeaningIs(items[0].doc, h + 1, toDouble);
      if m.Means? {
        ItemsMeaningIs(items[1..], done + [m.value], h, toDouble);
        if AreReadable(items, toDouble) {
          assert done + [m.value] + ItemValues(items[1..], toDouble) == done + ItemValues(items, toDouble);
        }
      }
    }
  }

  lemma {:induction false} EntriesMeaningIs(entries: seq<Entry>, done: seq<Member>, h: nat,
      toDouble: string -> Option<nat>)
    requires AreEntries(entries) && h <= STACK_LIMIT
    ensures var m := EntriesMeaning(entries, done, h, toDouble);
      && Agrees(m, EntriesReadable(entries, toDouble), EntriesDepth(entries), STACK_LIMIT - h)
      && (m.Means? ==> m.value == Object(EntryValues(entries, done, toDouble)))
    decreases entries
  {
    if entries != [] && Paired(entries[0].name) {
      var m := MeaningOf(entries[0].item.doc, h + 1, toDouble);
      MeaningIs(entries[0].item.doc, h + 1, toDouble);
      if m.Means? {
        EntriesMeaningIs(entries[1..], Put(done, CharsBytes(entries[0].name), m.value), h, toDouble);
      }
    }
  }

  /** Every text of the grammar, whatever follows that does not belong to a number: it is
      read, as the value it denotes, if and only if it is readable and nested within the
      limit; it is refused only when it is not readable, and the exception comes only when
      it is nested too deeply. */
  lemma ReadDoc(d: Doc, rest: string, h: nat, toDouble: string -> Option<nat>)
    requires IsDoc(d) && EndsNumber(rest)
    ensures var r := ReadValue(Text(d, rest), h, toDouble);
      && (r.Parsed? <==> IsReadable(d, toDouble) && h + DocDepth(d) <= STACK_LIMIT + 1)
      && (r.Parsed? ==> r == Parsed(ValueOf(d, toDouble), rest))
      && (r.Rejected? ==> !IsReadable(d, toDouble)) && (r.TooDeep? ==> h + DocDepth(d) > STACK_LIMIT + 1)
  {
    ReadAsMeant(d, rest, h, toDouble);
    MeaningIs(d, h, toDouble);
  }

  /** A whole document, with white space around its value: it is accepted, with the value
      it denotes, if and only if it is nested at most a thousand deep, the escapes of its
      literals and names are paired, and its numbers have values. */
  lemma DocumentIsRead(d: Doc, before: string, after: string, toDouble: string -> Option<nat>)
    requires IsDoc(d) && AreSpaces(before) && AreSpaces(after)
    ensures var r := ParseDocument(before + Text(d, after), toDouble);
      && (r.Parsed? <==> IsReadable(d, toDouble) && DocDepth(d) <= 1000)
      && (r.Parsed? ==> r == Parsed(ValueOf(d, toDouble), after))
      && (r.Rejected? ==> !IsReadable(d, toDouble)) && (r.TooDeep? ==> DocDepth(d) > 1000)
  {
    if after != "" { assert IsSpace(after[0]); }
    ReadDoc(d, after, 1, toDouble);
    SpacesBeforeValue(before, Text(d, after), 1, toDouble);
  }

  /** The literal of half a surrogate pair is a text of the grammar, and it is refused. */
  lemma HalfPairIsRefused(toDouble: string -> Option<nat>)
    ensures var d := StringDoc([Escaped("D800")]);
      IsDoc(d) && Text(d, "") == "\"\\uD800\"" && ParseDocument(Text(d, ""), toDouble) == Rejected
  {
    var chars := [Escaped("D800")];
    assert chars[1..] == [] && CharsText(chars) == "\\uD800" + "" == "\\uD800";
    assert LiteralText(chars, "") == "\"\\uD800\"";
    assert IsHigh(chars[0]) && !Paired(chars);
    DocumentIsRead(StringDoc(chars), "", "", toDouble);
    assert "" + Text(StringDoc(chars), "") == Text(StringDoc(chars), "");
  }
}
