/** JSON string literals: the escaping of `valueToQuotedStringN` and the unescaping of
    `Reader::decodeString` (src/jsoncpp.cpp). */
module JsonString {
  import opened Wrappers
  import opened Hex
  import opened Sequences
  import opened Utf8

  // Writing.

  function ToHex16Bit(x: nat): (s: string)
    requires x < 0x10000
    ensures |s| == 4
  {
    var hi, lo := x / 256, x % 256;
    [HexDigit(hi / 16), HexDigit(hi % 16), HexDigit(lo / 16), HexDigit(lo % 16)]
  }

  function AppendHex(x: nat): string
    requires x < 0x10000
  {
    "\\u" + ToHex16Bit(x)
  }

  const REPLACEMENT_CHARACTER := 0xFFFD

  /** The code point read at the start of the bytes, and how many bytes it took. */
  function Utf8ToCodepoint(s: string): (r: (nat, nat))
    requires s != "" && IsBytes(s)
    ensures 1 <= r.1 <= |s| && r.0 <= 0x1FFFFF && !(0xD800 <= r.0 <= 0xDFFF)
  {
    var first := s[0] as int;
    if first < 0x80 then (first, 1)
    else if first < 0xE0 then
      if |s| < 2 then (REPLACEMENT_CHARACTER, 1)
      else
        var cp := first % 32 * 64 + s[1] as int % 64;
        (if cp < 0x80 then REPLACEMENT_CHARACTER else cp, 2)
    else if first < 0xF0 then
      if |s| < 3 then (REPLACEMENT_CHARACTER, 1)
      else
        var cp := first % 16 * 4096 + s[1] as int % 64 * 64 + s[2] as int % 64;
        (if 0xD800 <= cp <= 0xDFFF || cp < 0x800 then REPLACEMENT_CHARACTER else cp, 3)
    else if first < 0xF8 then
      if |s| < 4 then (REPLACEMENT_CHARACTER, 1)
      else
        var cp := first % 8 * 262144 + s[1] as int % 64 * 4096 + s[2] as int % 64 * 64 + s[3] as int % 64;
        (if cp < 0x10000 then REPLACEMENT_CHARACTER else cp, 4)
    else (REPLACEMENT_CHARACTER, 1)
  }

  /** The two-character escapes; empty for every other character. */
  function ShortEscape(c: char): string {
    match c
    case '\"' => "\\\""
    case '\\' => "\\\\"
    case '\U{0008}' => "\\b"
    case '\U{000C}' => "\\f"
    case '\n' => "\\n"
    case '\r' => "\\r"
    case '\t' => "\\t"
    case _ => ""
  }

  function SurrogatePair(high: nat, low: nat): string
    requires high < 1024 && low < 1024
  {
    AppendHex(0xD800 + high) + AppendHex(0xDC00 + low)
  }

  function EscapeCodePoint(cp: nat): string
    requires cp <= 0x1FFFFF
  {
    if cp < 0x20 then AppendHex(cp)
    else if cp < 0x80 then [cp as char]
    else if cp < 0x10000 then AppendHex(cp)
    else SurrogatePair((cp - 0x10000) / 1024 % 1024, (cp - 0x10000) % 1024)
  }

  /** What one turn of the escaping loop appends, and how many bytes it consumes. */
  function Piece(s: string): string
    requires s != "" && IsBytes(s)
  {
    if ShortEscape(s[0]) != "" then ShortEscape(s[0]) else EscapeCodePoint(Utf8ToCodepoint(s).0)
  }

  function PieceLength(s: string): (n: nat)
    requires s != "" && IsBytes(s)
    ensures 1 <= n <= |s|
  {
    if ShortEscape(s[0]) != "" then 1 else Utf8ToCodepoint(s).1
  }

  function Escape(s: string): string
    requires IsBytes(s)
    decreases |s|, 1
  {
    if s == "" then "" else EscapeHead(s)
  }

  function EscapeHead(s: string): string
    requires s != "" && IsBytes(s)
    decreases |s|, 0
  {
    Piece(s) + Escape(s[PieceLength(s)..])
  }

  lemma EscapeIs(s: string)
    requires s != "" && IsBytes(s)
    ensures Escape(s) == Piece(s) + Escape(s[PieceLength(s)..])
  {
  }

  predicate NeedsEscape(c: char) {
    c == '\\' || c == '"' || c as int < 0x20 || c as int > 0x7F
  }

  predicate AnyNeedsEscape(s: string) {
    exists i :: 0 <= i < |s| && NeedsEscape(s[i])
  }

  /** The literal that the writer emits for a string. */
  function Quote(s: string): string
    requires IsBytes(s)
  {
    if !AnyNeedsEscape(s) then "\"" + s + "\"" else "\"" + Escape(s) + "\""
  }

  /** One turn of the loop: a short escape, or one code point. */
  method EscapeOne(value: string, c: nat) returns (piece: string, used: nat)
    requires IsBytes(value) && c < |value|
    ensures 1 <= used <= |value| - c && Escape(value[c..]) == piece + Escape(value[c + used..])
  {
    if ShortEscape(value[c]) != "" {
      piece, used := ShortEscape(value[c]), 1;
    } else {
      var (codepoint, length) := Utf8ToCodepoint(value[c..]);
      piece, used := EscapeCodePoint(codepoint), length;
    }
    EscapeIs(value[c..]);
    assert value[c..][used..] == value[c + used..];
  }

  /** The escaping loop, behind what has been written. */
  method AppendEscaped(before: string, value: string) returns (result: string)
    requires IsBytes(value)
    ensures result == before + Escape(value)
  {
    result := before;
    var c := 0;
    while c != |value|
      invariant 0 <= c <= |value|
      invariant result + Escape(value[c..]) == before + Escape(value)
      decreases |value| - c
    {
      var piece, used := EscapeOne(value, c);
      Regroup(result, piece, Escape(value[c + used..]));
      result := result + piece;
      c := c + used;
    }
  }

  /** `valueToQuotedStringN`, escaping to ASCII. */
  method ValueToQuotedString(value: string) returns (result: string)
    requires IsBytes(value)
    ensures result == Quote(value)
  {
    if !AnyNeedsEscape(value) {
      return "\"" + value + "\"";
    }
    result := AppendEscaped("\"", value);
    result := result + "\"";
  }

  // Reading.

  /** The value of `digits`, continuing from `acc`. */
  function HexFold(acc: nat, digits: string): Option<nat>
    decreases |digits|
  {
    if digits == "" then Some(acc)
    else
      match HexValue(digits[0])
      case None => None
      case Some(v) => HexFold(acc * 16 + v, digits[1..])
  }

  function Pow16(n: nat): nat {
    if n == 0 then 1 else 16 * Pow16(n - 1)
  }

  lemma {:induction false} HexFoldBound(acc: nat, digits: string, n: nat)
    requires acc < Pow16(n)
    ensures HexFold(acc, digits).Some? ==> HexFold(acc, digits).value < Pow16(n + |digits|)
    decreases |digits|
  {
    if digits != "" && HexValue(digits[0]).Some? {
      HexFoldBound(acc * 16 + HexValue(digits[0]).value, digits[1..], n + 1);
    }
  }

  function DecodeUnicodeEscapeSequence(s: string): (r: Option<nat>)
    ensures r.Some? ==> |s| >= 4 && r.value < 0x10000
  {
    if |s| < 4 then None
    else
      HexFoldBound(0, s[..4], 0);
      HexFold(0, s[..4])
  }

  /** The code point of a `\u` escape, with its surrogate pair, and what follows it. */
  function DecodeUnicodeCodePoint(s: string): (r: Option<(nat, string)>)
    ensures r.Some? ==> r.value.0 <= 0x10FFFF && |r.value.1| < |s|
  {
    match DecodeUnicodeEscapeSequence(s)
    case None => None
    case Some(u) =>
      if 0xD800 <= u <= 0xDBFF then
        if |s| < 10 then None
        else if s[4] == '\\' && s[5] == 'u' then
          match DecodeUnicodeEscapeSequence(s[6..])
          case None => None
          case Some(low) => Some((0x10000 + u % 1024 * 1024 + low % 1024, s[10..]))
        else None
      else Some((u, s[4..]))
  }

  function Prepend(head: string, tail: Option<string>): Option<string> {
    match tail
    case None => None
    case Some(t) => Some(head + t)
  }

  /** The character a short escape stands for. */
  function ShortUnescape(c: char): Option<char> {
    match c
    case '"' => Some('"')
    case '/' => Some('/')
    case '\\' => Some('\\')
    case 'b' => Some('\U{0008}')
    case 'f' => Some('\U{000C}')
    case 'n' => Some('\n')
    case 'r' => Some('\r')
    case 't' => Some('\t')
    case _ => None
  }

  /** The decoded form of the characters between the quotes of a literal. */
  function Unescape(s: string): Option<string> {
    if s == "" || s[0] == '"' then Some("")
    else if s[0] != '\\' then Prepend([s[0]], Unescape(s[1..]))
    else if |s| == 1 then None
    else if s[1] == 'u' then
      match DecodeUnicodeCodePoint(s[2..])
      case None => None
      case Some((cp, rest)) => Prepend(Encode(cp), Unescape(rest))
    else
      match ShortUnescape(s[1])
      case None => None
      case Some(c) => Prepend([c], Unescape(s[2..]))
  }

  /** The scan of `Reader::readString` from after an opening quote: whether it finds the
      closing quote, and what follows. */
  function ScanString(s: string): (r: (bool, string))
    ensures |r.1| <= |s| && (r.0 ==> |r.1| < |s|)
    decreases |s|
  {
    if s == "" then (false, "")
    else if s[0] == '\\' then ScanString(if |s| == 1 then "" else s[2..])
    else if s[0] == '"' then (true, s[1..])
    else ScanString(s[1..])
  }

  // The round trip.

  lemma FoldStep(acc: nat, n: nat, digits: string)
    requires n < 16
    ensures HexFold(acc, [HexDigit(n)] + digits) == HexFold(acc * 16 + n, digits)
  {
    HexDigitValue(n);
    assert ([HexDigit(n)] + digits)[1..] == digits;
  }

  lemma FourDigits(a: nat, b: nat, c: nat, d: nat)
    requires a < 16 && b < 16 && c < 16 && d < 16
    ensures HexFold(0, [HexDigit(a), HexDigit(b), HexDigit(c), HexDigit(d)]) == Some(a * 4096 + b * 256 + c * 16 + d)
  {
    FoldStep(0, a, [HexDigit(b), HexDigit(c), HexDigit(d)]);
    FoldStep(a, b, [HexDigit(c), HexDigit(d)]);
    FoldStep(a * 16 + b, c, [HexDigit(d)]);
    FoldStep(a * 256 + b * 16 + c, d, "");
    assert [HexDigit(a)] + [HexDigit(b), HexDigit(c), HexDigit(d)]
        == [HexDigit(a), HexDigit(b), HexDigit(c), HexDigit(d)];
    assert [HexDigit(b)] + [HexDigit(c), HexDigit(d)] == [HexDigit(b), HexDigit(c), HexDigit(d)];
    assert [HexDigit(c)] + [HexDigit(d)] == [HexDigit(c), HexDigit(d)];
    assert [HexDigit(d)] + "" == [HexDigit(d)];
  }

  lemma HexRoundTrip(x: nat, t: string)
    requires x < 0x10000
    ensures DecodeUnicodeEscapeSequence(ToHex16Bit(x) + t) == Some(x)
    ensures (ToHex16Bit(x) + t)[4..] == t
  {
    FourDigits(x / 256 / 16, x / 256 % 16, x % 256 / 16, x % 256 % 16);
    assert (ToHex16Bit(x) + t)[..4] == ToHex16Bit(x);
  }

  lemma AppendHexUnescapes(x: nat, t: string)
    requires x < 0x10000 && !(0xD800 <= x <= 0xDBFF)
    ensures Unescape(AppendHex(x) + t) == Prepend(Encode(x), Unescape(t))
  {
    var s := AppendHex(x) + t;
    HexRoundTrip(x, t);
    assert s[2..] == ToHex16Bit(x) + t;
    assert DecodeUnicodeCodePoint(s[2..]) == Some((x, t));
  }

  lemma PairDecodes(u: string, v: string, t: string, first: nat, second: nat)
    requires |u| == |v| == 4 && 0xD800 <= first <= 0xDBFF
    requires DecodeUnicodeEscapeSequence(u + ("\\u" + v + t)) == Some(first)
    requires DecodeUnicodeEscapeSequence(v + t) == Some(second)
    ensures DecodeUnicodeCodePoint(u + ("\\u" + v + t))
         == Some((0x10000 + first % 1024 * 1024 + second % 1024, t))
  {
    var r := u + ("\\u" + v + t);
    assert r[4] == '\\' && r[5] == 'u';
    assert r[6..] == v + t;
    assert r[10..] == t;
  }

  lemma SurrogateBits(high: nat, low: nat)
    requires high < 1024 && low < 1024
    ensures (0xD800 + high) % 1024 == high && (0xDC00 + low) % 1024 == low
  {
  }

  /** A surrogate pair decodes to the code point whose twenty bits it carries. */
  lemma SurrogatesDecode(high: nat, low: nat, t: string)
    requires high < 1024 && low < 1024
    ensures DecodeUnicodeCodePoint((SurrogatePair(high, low) + t)[2..]) == Some((0x10000 + high * 1024 + low, t))
  {
    var u, v := ToHex16Bit(0xD800 + high), ToHex16Bit(0xDC00 + low);
    assert (SurrogatePair(high, low) + t)[2..] == u + ("\\u" + v + t);
    HexRoundTrip(0xD800 + high, "\\u" + v + t);
    HexRoundTrip(0xDC00 + low, t);
    SurrogateBits(high, low);
    PairDecodes(u, v, t, 0xD800 + high, 0xDC00 + low);
  }

  lemma SurrogatesUnescape(high: nat, low: nat, t: string)
    requires high < 1024 && low < 1024
    ensures Unescape(SurrogatePair(high, low) + t)
         == Prepend(Encode(0x10000 + high * 1024 + low), Unescape(t))
  {
    SurrogatesDecode(high, low, t);
    var s := SurrogatePair(high, low) + t;
    assert s[0] == '\\' && s[1] == 'u';
  }

  /** The code point that survives escaping: twenty bits of it above U+FFFF. */
  function Surviving(cp: nat): (c: nat)
    requires cp <= 0x1FFFFF && !(0xD800 <= cp <= 0xDFFF)
    ensures IsScalar(c) && (cp <= 0x10FFFF ==> c == cp)
  {
    if cp < 0x10000 then cp
    else
      var bits := cp - 0x10000;
      0x10000 + bits / 1024 % 1024 * 1024 + bits % 1024
  }

  lemma RawUnescapes(c: char, t: string)
    requires c != '"' && c != '\\' && c as int < 0x80
    ensures Unescape([c] + t) == Prepend(Encode(c as int), Unescape(t))
  {
    assert ([c] + t)[1..] == t;
  }

  lemma CodePointUnescapes(cp: nat, t: string)
    requires cp <= 0x1FFFFF && !(0xD800 <= cp <= 0xDFFF) && cp != 0x22 && cp != 0x5C
    ensures Unescape(EscapeCodePoint(cp) + t) == Prepend(Encode(Surviving(cp)), Unescape(t))
  {
    if cp < 0x20 || 0x80 <= cp < 0x10000 {
      AppendHexUnescapes(cp, t);
    } else if cp < 0x80 {
      RawUnescapes(cp as char, t);
    } else {
      SurrogatesUnescape((cp - 0x10000) / 1024 % 1024, (cp - 0x10000) % 1024, t);
    }
  }

  lemma ShortEscapeUnescapes(c: char, t: string)
    requires ShortEscape(c) != ""
    ensures Unescape(ShortEscape(c) + t) == Prepend([c], Unescape(t)) && c as int < 0x80
  {
    assert (ShortEscape(c) + t)[2..] == t;
  }

  /** The code point that one turn of the escaping loop stands for. */
  function PieceCodePoint(s: string): (cp: nat)
    requires s != "" && IsBytes(s)
    ensures IsScalar(cp)
  {
    if ShortEscape(s[0]) != "" then s[0] as int else Surviving(Utf8ToCodepoint(s).0)
  }

  /** Only a single byte reads as an ASCII code point. */
  lemma LargeCodePoint(s: string)
    requires s != "" && IsBytes(s)
    ensures Utf8ToCodepoint(s).0 < 0x80 ==> s[0] as int == Utf8ToCodepoint(s).0
  {
  }

  lemma PieceUnescapes(s: string, t: string)
    requires s != "" && IsBytes(s)
    ensures Unescape(Piece(s) + t) == Prepend(Encode(PieceCodePoint(s)), Unescape(t))
  {
    if ShortEscape(s[0]) != "" {
      ShortEscapeUnescapes(s[0], t);
    } else {
      LargeCodePoint(s);
      CodePointUnescapes(Utf8ToCodepoint(s).0, t);
    }
  }

  /** What is left of a byte string after a round trip: each piece as proper UTF-8. */
  function Repaired(s: string): string
    requires IsBytes(s)
  {
    if s == "" then "" else Encode(PieceCodePoint(s)) + Repaired(s[PieceLength(s)..])
  }

  lemma {:induction false} UnescapeEscape(s: string)
    requires IsBytes(s)
    ensures Unescape(Escape(s)) == Some(Repaired(s))
  {
    if s != "" {
      var rest := s[PieceLength(s)..];
      EscapeIs(s);
      UnescapeEscape(rest);
      PieceUnescapes(s, Escape(rest));
    }
  }

  lemma {:induction false} RepairedIsWellFormed(s: string)
    requires IsBytes(s)
    ensures WellFormed(Repaired(s))
  {
    if s != "" {
      var rest := s[PieceLength(s)..];
      RepairedIsWellFormed(rest);
      EncodeIsHead(PieceCodePoint(s), Repaired(rest));
    }
  }

  lemma TwoBytes(s: string)
    requires IsBytes(s) && HeadLength(s) == 2
    ensures Utf8ToCodepoint(s) == (HeadCodePoint(s), 2)
  {
    assert s[0] as int % 32 == s[0] as int - 0xC0;
    assert s[1] as int % 64 == Tail6(s[1]);
  }

  lemma ThreeBytes(s: string)
    requires IsBytes(s) && HeadLength(s) == 3
    ensures Utf8ToCodepoint(s) == (HeadCodePoint(s), 3)
  {
    assert s[0] as int % 16 == s[0] as int - 0xE0;
    assert s[1] as int % 64 == Tail6(s[1]) && s[2] as int % 64 == Tail6(s[2]);
  }

  lemma FourBytes(s: string)
    requires IsBytes(s) && HeadLength(s) == 4
    ensures Utf8ToCodepoint(s) == (HeadCodePoint(s), 4)
  {
    assert s[0] as int % 8 == s[0] as int - 0xF0;
    assert s[1] as int % 64 == Tail6(s[1]) && s[2] as int % 64 == Tail6(s[2]) && s[3] as int % 64 == Tail6(s[3]);
  }

  lemma TailBits(s: string)
    requires IsBytes(s) && HeadLength(s) > 1
    ensures Utf8ToCodepoint(s) == (HeadCodePoint(s), HeadLength(s))
  {
    match HeadLength(s)
    case 2 => TwoBytes(s);
    case 3 => ThreeBytes(s);
    case _ => FourBytes(s);
  }

  /** On a well-formed sequence the writer reads the code point of the grammar. */
  lemma PieceOfWellFormed(s: string)
    requires IsBytes(s) && HeadLength(s) > 0
    ensures PieceLength(s) == HeadLength(s) && PieceCodePoint(s) == HeadCodePoint(s)
  {
    if HeadLength(s) > 1 {
      assert ShortEscape(s[0]) == "";
      TailBits(s);
    }
  }

  lemma RepairedIs(s: string)
    requires s != "" && IsBytes(s)
    ensures Repaired(s) == Encode(PieceCodePoint(s)) + Repaired(s[PieceLength(s)..])
  {
  }

  lemma HeadAndRest(s: string, n: nat)
    requires n <= |s|
    ensures s[..n] + s[n..] == s
  {
  }

  lemma {:induction false} RepairedOfWellFormed(s: string)
    requires IsBytes(s) && WellFormed(s)
    ensures Repaired(s) == s
  {
    if s != "" {
      var n := HeadLength(s);
      assert Encode(PieceCodePoint(s)) == s[..n] && PieceLength(s) == n by {
        PieceOfWellFormed(s);
        HeadIsEncode(s);
      }
      RepairedOfWellFormed(s[n..]);
      RepairedIs(s);
      HeadAndRest(s, n);
    }
  }

  /** Printable ASCII. */
  predicate IsPrintable(s: string) {
    forall i :: 0 <= i < |s| ==> 0x20 <= s[i] as int < 0x80
  }

  /** The scan passes over `s`, whatever follows it. */
  ghost predicate IsPassed(s: string) {
    forall t: string :: ScanString(s + t) == ScanString(t)
  }

  lemma PassedConcat(a: string, b: string)
    requires IsPassed(a) && IsPassed(b)
    ensures IsPassed(a + b)
  {
    forall t: string ensures ScanString(a + b + t) == ScanString(t) {
      assert a + b + t == a + (b + t);
      assert ScanString(a + (b + t)) == ScanString(b + t);
    }
  }

  lemma PlainPassed(c: char)
    requires c != '"' && c != '\\'
    ensures IsPassed([c])
  {
    forall t: string ensures ScanString([c] + t) == ScanString(t) {
      assert ([c] + t)[1..] == t;
    }
  }

  lemma EscapePassed(c: char)
    ensures IsPassed(['\\', c])
  {
    forall t: string ensures ScanString(['\\', c] + t) == ScanString(t) {
      assert (['\\', c] + t)[2..] == t;
    }
  }

  lemma HexPassed(x: nat)
    requires x < 0x10000
    ensures IsPassed(AppendHex(x)) && IsPrintable(AppendHex(x))
  {
    var h := ToHex16Bit(x);
    EscapePassed('u');
    PlainPassed(h[0]);
    PlainPassed(h[1]);
    PlainPassed(h[2]);
    PlainPassed(h[3]);
    PassedConcat("\\u", [h[0]]);
    PassedConcat("\\u" + [h[0]], [h[1]]);
    PassedConcat("\\u" + [h[0]] + [h[1]], [h[2]]);
    PassedConcat("\\u" + [h[0]] + [h[1]] + [h[2]], [h[3]]);
    assert AppendHex(x) == "\\u" + [h[0]] + [h[1]] + [h[2]] + [h[3]];
  }

  lemma PairPassed(high: nat, low: nat)
    requires high < 1024 && low < 1024
    ensures IsPassed(SurrogatePair(high, low)) && IsPrintable(SurrogatePair(high, low))
  {
    HexPassed(0xD800 + high);
    HexPassed(0xDC00 + low);
    PassedConcat(AppendHex(0xD800 + high), AppendHex(0xDC00 + low));
  }

  lemma CodePointPassed(cp: nat)
    requires cp <= 0x1FFFFF && cp != 0x22 && cp != 0x5C
    ensures IsPassed(EscapeCodePoint(cp)) && IsPrintable(EscapeCodePoint(cp))
  {
    if cp < 0x20 || 0x80 <= cp < 0x10000 {
      HexPassed(cp);
    } else if cp < 0x80 {
      PlainPassed(cp as char);
    } else {
      PairPassed((cp - 0x10000) / 1024 % 1024, (cp - 0x10000) % 1024);
    }
  }

  lemma PiecePassed(s: string)
    requires s != "" && IsBytes(s)
    ensures IsPassed(Piece(s)) && IsPrintable(Piece(s))
  {
    if ShortEscape(s[0]) != "" {
      EscapePassed(ShortEscape(s[0])[1]);
      assert ShortEscape(s[0]) == ['\\', ShortEscape(s[0])[1]];
    } else {
      LargeCodePoint(s);
      CodePointPassed(Utf8ToCodepoint(s).0);
    }
  }

  lemma {:induction false} EscapePassedAll(s: string)
    requires IsBytes(s)
    ensures IsPassed(Escape(s)) && IsPrintable(Escape(s))
  {
    if s == "" {
      forall t: string ensures ScanString("" + t) == ScanString(t) {
        assert "" + t == t;
      }
    } else {
      PiecePassed(s);
      EscapeIs(s);
      EscapePassedAll(s[PieceLength(s)..]);
      PassedConcat(Piece(s), Escape(s[PieceLength(s)..]));
    }
  }

  lemma PlainPiece(s: string)
    requires s != "" && IsBytes(s) && !NeedsEscape(s[0])
    ensures Piece(s) == [s[0]] && PieceLength(s) == 1
  {
  }

  /** The short cut for strings without special characters changes nothing. */
  lemma {:induction false} NothingToEscape(s: string)
    requires IsBytes(s) && !AnyNeedsEscape(s)
    ensures Escape(s) == s
  {
    if s != "" {
      assert !NeedsEscape(s[0]);
      assert forall i :: 0 <= i < |s[1..]| ==> s[1..][i] == s[i + 1];
      NothingToEscape(s[1..]);
      PlainPiece(s);
      EscapeIs(s);
    }
  }

  lemma QuoteIs(s: string)
    requires IsBytes(s)
    ensures Quote(s) == "\"" + Escape(s) + "\""
  {
    if !AnyNeedsEscape(s) { NothingToEscape(s); }
  }

  lemma PassedQuote(e: string, rest: string)
    requires IsPassed(e)
    ensures ScanString(e + "\"" + rest) == (true, rest)
  {
    assert e + "\"" + rest == e + ("\"" + rest);
    assert ScanString(e + ("\"" + rest)) == ScanString("\"" + rest);
    assert ("\"" + rest)[1..] == rest;
  }

  /** The literal is printable ASCII, and the reader's scan ends exactly at its closing
      quote, whatever follows. */
  lemma QuoteIsScanned(s: string, rest: string)
    requires IsBytes(s)
    ensures IsPrintable(Quote(s)) && |Quote(s)| >= 2 && Quote(s)[0] == '"'
    ensures ScanString((Quote(s) + rest)[1..]) == (true, rest)
  {
    QuoteIs(s);
    EscapePassedAll(s);
    PassedQuote(Escape(s), rest);
    assert (Quote(s) + rest)[1..] == Escape(s) + "\"" + rest;
  }

  /** Unescaping gives the string back iff it was UTF-8. */
  lemma QuoteRoundTrip(s: string)
    requires IsBytes(s)
    ensures |Quote(s)| >= 2
    ensures Unescape(Quote(s)[1..|Quote(s)| - 1]) == Some(s) <==> WellFormed(s)
  {
    QuoteIs(s);
    assert Quote(s)[1..|Quote(s)| - 1] == Escape(s);
    UnescapeEscape(s);
    RepairedIsWellFormed(s);
    if WellFormed(s) { RepairedOfWellFormed(s); }
  }
}
