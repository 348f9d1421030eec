/** What `Json::FastWriter` (src/jsoncpp.cpp) writes: texts of RFC 8259 without white space. */
module JsonWritten {
  import opened Wrappers
  import opened Hex
  import opened Utf8
  import opened JsonString
  import opened JsonNumber
  import opened JsonValue
  import opened JsonText
  import G = JsonGrammar

  // Literals.

  /** The letter of the two-character escape that is written for a code point. */
  function Letter(cp: int): Option<char> {
    if cp == 0x22 then Some('"')
    else if cp == 0x5C then Some('\\')
    else if cp == 0x08 then Some('b')
    else if cp == 0x0C then Some('f')
    else if cp == 0x0A then Some('n')
    else if cp == 0x0D then Some('r')
    else if cp == 0x09 then Some('t')
    else None
  }

  /** Four digits in lower case. */
  function FourDigits(x: nat): string
    requires x < 0x10000
  {
    ["0123456789abcdef"[x / 4096], "0123456789abcdef"[x / 256 % 16],
     "0123456789abcdef"[x / 16 % 16], "0123456789abcdef"[x % 16]]
  }

  /** How a code point is written: by its letter, as it is, or by one or two escapes. */
  function CharsFor(cp: int): seq<G.Char>
    requires IsScalar(cp)
  {
    if Letter(cp).Some? then [G.Short(Letter(cp).value)]
    else if 0x20 <= cp < 0x80 then [G.Raw(cp as char)]
    else if cp < 0x10000 then [G.Escaped(FourDigits(cp))]
    else
      [G.Escaped(FourDigits(0xD800 + (cp - 0x10000) / 1024)), G.Escaped(FourDigits(0xDC00 + (cp - 0x10000) % 1024))]
  }

  function AllChars(cps: seq<int>): seq<G.Char>
    requires AllScalar(cps)
  {
    if cps == [] then []
    else
      assert IsScalar(cps[0]);
      CharsFor(cps[0]) + AllChars(cps[1..])
  }

  lemma HighParts(x: nat)
    requires x < 0x10000
    ensures x / 256 / 16 == x / 4096 < 16
  {
  }

  lemma LowParts(q: nat, r: nat)
    requires r < 256
    ensures (q * 256 + r) / 16 % 16 == r / 16 && (q * 256 + r) % 16 == r % 16
  {
    assert (q * 256 + r) / 16 == q * 16 + r / 16;
  }

  lemma DigitParts(x: nat)
    requires x < 0x10000
    ensures x / 256 / 16 == x / 4096 < 16 && x % 256 / 16 == x / 16 % 16 && x % 256 % 16 == x % 16
  {
    HighParts(x);
    LowParts(x / 256, x % 256);
  }

  lemma DigitsAreFour(x: nat)
    requires x < 0x10000
    ensures ToHex16Bit(x) == FourDigits(x)
  {
    DigitParts(x);
    DigitsAre('0', x / 4096);
    DigitsAre('0', x / 256 % 16);
    DigitsAre('0', x / 16 % 16);
    DigitsAre('0', x % 16);
  }

  lemma OneCharText(c: G.Char)
    ensures G.CharsText([c]) == G.CharText(c)
  {
    assert [c][1..] == [];
    assert G.CharText(c) + "" == G.CharText(c);
  }

  lemma TwoCharsText(c: G.Char, d: G.Char)
    ensures G.CharsText([c, d]) == G.CharText(c) + G.CharText(d)
  {
    assert [c, d][1..] == [d];
    OneCharText(d);
  }

  lemma PairParts(high: nat, low: nat)
    requires high < 1024 && low < 1024
    ensures (high * 1024 + low) / 1024 == high && (high * 1024 + low) % 1024 == low
  {
  }

  lemma CharsForPair(high: nat, low: nat)
    requires high < 1024 && low < 1024
    ensures CharsFor(0x10000 + high * 1024 + low)
         == [G.Escaped(FourDigits(0xD800 + high)), G.Escaped(FourDigits(0xDC00 + low))]
  {
    PairParts(high, low);
  }

  lemma PairIsWritten(high: nat, low: nat)
    requires high < 1024 && low < 1024
    ensures SurrogatePair(high, low) == G.CharsText(CharsFor(0x10000 + high * 1024 + low))
  {
    CharsForPair(high, low);
    DigitsAreFour(0xD800 + high);
    DigitsAreFour(0xDC00 + low);
    TwoCharsText(G.Escaped(FourDigits(0xD800 + high)), G.Escaped(FourDigits(0xDC00 + low)));
  }

  lemma HexIsWritten(cp: nat)
    requires cp < 0x10000
    ensures AppendHex(cp) == G.CharsText([G.Escaped(FourDigits(cp))])
  {
    DigitsAreFour(cp);
    OneCharText(G.Escaped(FourDigits(cp)));
  }

  lemma CodePointIsWritten(cp: nat)
    requires cp <= 0x1FFFFF && !(0xD800 <= cp <= 0xDFFF) && Letter(cp).None?
    ensures EscapeCodePoint(cp) == G.CharsText(CharsFor(Surviving(cp)))
  {
    if cp < 0x10000 {
      if 0x20 <= cp < 0x80 {
        OneCharText(G.Raw(cp as char));
      } else {
        HexIsWritten(cp);
      }
    } else {
      PairIsWritten((cp - 0x10000) / 1024 % 1024, (cp - 0x10000) % 1024);
    }
  }

  lemma ShortIsWritten(c: char)
    ensures ShortEscape(c) != "" <==> Letter(c as int).Some?
    ensures ShortEscape(c) != "" ==> ShortEscape(c) == ['\\', Letter(c as int).value]
  {
  }

  lemma PieceIsWritten(s: string)
    requires s != "" && IsBytes(s)
    ensures Piece(s) == G.CharsText(CharsFor(PieceCodePoint(s)))
  {
    ShortIsWritten(s[0]);
    if ShortEscape(s[0]) != "" {
      OneCharText(G.Short(Letter(s[0] as int).value));
    } else {
      LargeCodePoint(s);
      CodePointIsWritten(Utf8ToCodepoint(s).0);
    }
  }

  lemma {:induction false} CharsTextAppend(a: seq<G.Char>, b: seq<G.Char>)
    ensures G.CharsText(a + b) == G.CharsText(a) + G.CharsText(b)
  {
    if a == [] {
      assert a + b == b;
    } else {
      assert (a + b)[1..] == a[1..] + b;
      CharsTextAppend(a[1..], b);
    }
  }

  lemma DecodeHead(cp: int, t: string)
    requires IsScalar(cp) && WellFormed(t)
    ensures WellFormed(Encode(cp) + t) && Decode(Encode(cp) + t) == [cp] + Decode(t)
  {
    EncodeIsHead(cp, t);
  }

  /** The code points that are written for a byte string. */
  function CodePointsOf(s: string): (cps: seq<int>)
    requires IsBytes(s)
    ensures AllScalar(cps)
  {
    RepairedIsWellFormed(s);
    DecodeEncode(Repaired(s));
    Decode(Repaired(s))
  }

  lemma {:induction false} EscapeIsWritten(s: string)
    requires IsBytes(s)
    ensures Escape(s) == G.CharsText(AllChars(CodePointsOf(s)))
  {
    if s != "" {
      var rest, cp := s[PieceLength(s)..], PieceCodePoint(s);
      RepairedIsWellFormed(rest);
      EscapeIs(s);
      EscapeIsWritten(rest);
      PieceIsWritten(s);
      RepairedIs(s);
      DecodeHead(cp, Repaired(rest));
      assert ([cp] + CodePointsOf(rest))[1..] == CodePointsOf(rest);
      CharsTextAppend(CharsFor(cp), AllChars(CodePointsOf(rest)));
    }
  }

  lemma Sixteens(x: nat)
    requires x < 0x10000
    ensures x / 4096 < 16 && x == x / 4096 * 4096 + x / 256 % 16 * 256 + x / 16 % 16 * 16 + x % 16
  {
    assert x / 16 / 16 == x / 256 && x / 256 / 16 == x / 4096;
  }

  lemma FourAreHex(x: nat)
    requires x < 0x10000
    ensures G.IsHex4(FourDigits(x)) && G.Hex4(FourDigits(x)) == x
  {
    var t := FourDigits(x);
    DigitsAre(t[0], x / 4096);
    DigitsAre(t[1], x / 256 % 16);
    DigitsAre(t[2], x / 16 % 16);
    DigitsAre(t[3], x % 16);
    Sixteens(x);
  }

  lemma OneInFront(c: G.Char, more: seq<G.Char>)
    requires G.IsChar(c) && !G.IsHigh(c) && G.AreChars(more) && G.Paired(more)
    ensures G.AreChars([c] + more) && G.Paired([c] + more)
  {
    assert ([c] + more)[1..] == more;
  }

  lemma TwoInFront(high: string, low: string, more: seq<G.Char>)
    requires G.IsHigh(G.Escaped(high)) && G.IsHex4(low) && G.AreChars(more) && G.Paired(more)
    ensures var chars := [G.Escaped(high), G.Escaped(low)] + more; G.AreChars(chars) && G.Paired(chars)
  {
    assert ([G.Escaped(high), G.Escaped(low)] + more)[2..] == more;
  }

  lemma PairedInFront(cp: int, more: seq<G.Char>)
    requires IsScalar(cp) && G.AreChars(more) && G.Paired(more)
    ensures G.AreChars(CharsFor(cp) + more) && G.Paired(CharsFor(cp) + more)
  {
    if Letter(cp).Some? || 0x20 <= cp < 0x80 {
      OneInFront(CharsFor(cp)[0], more);
    } else if cp < 0x10000 {
      FourAreHex(cp);
      OneInFront(G.Escaped(FourDigits(cp)), more);
    } else {
      var high, low := 0xD800 + (cp - 0x10000) / 1024, 0xDC00 + (cp - 0x10000) % 1024;
      FourAreHex(high);
      FourAreHex(low);
      TwoInFront(FourDigits(high), FourDigits(low), more);
    }
  }

  /** They are characters of the grammar, with their escapes paired. */
  lemma {:induction false} AllAreChars(cps: seq<int>)
    requires AllScalar(cps)
    ensures G.AreChars(AllChars(cps)) && G.Paired(AllChars(cps))
  {
    if cps != [] {
      AllAreChars(cps[1..]);
      PairedInFront(cps[0], AllChars(cps[1..]));
    }
  }

  lemma LiteralIs(e: string, rest: string)
    ensures "\"" + e + "\"" + rest == "\"" + (e + ("\"" + rest))
  {
  }

  /** The literal of a byte string, code point by code point. */
  lemma QuoteIsWritten(s: string, rest: string)
    requires IsBytes(s)
    ensures Quote(s) + rest == G.LiteralText(AllChars(CodePointsOf(s)), rest)
    ensures G.AreChars(AllChars(CodePointsOf(s)))
  {
    QuoteIs(s);
    EscapeIsWritten(s);
    AllAreChars(CodePointsOf(s));
    LiteralIs(Escape(s), rest);
  }

  /** How many bytes a first byte announces; 0 for a byte that starts no sequence. */
  function Announced(first: nat): nat {
    if first < 0x80 then 1 else if first < 0xE0 then 2 else if first < 0xF0 then 3 else if first < 0xF8 then 4 else 0
  }

  lemma TwentyBits(bits: nat)
    ensures bits / 1024 % 1024 * 1024 + bits % 1024 == bits % 0x100000
  {
    var q := bits / 0x100000;
    assert bits / 1024 / 1024 == q;
  }

  /** What becomes of bytes that are no UTF-8: the replacement character stands for a byte
      whose sequence is cut off or starts with none, and for a sequence whose number needs
      fewer bytes or is a surrogate. Otherwise the six low bits of each byte count, whatever
      its high bits are. */
  lemma RepairIs(s: string)
    requires s != "" && IsBytes(s)
    ensures var first := s[0] as int;
      var n := Announced(first);
      if n == 0 || n > |s| then PieceCodePoint(s) == 0xFFFD && PieceLength(s) == 1
      else
        var bits := if n == 1 then first
                    else if n == 2 then first % 32 * 64 + s[1] as int % 64
                    else if n == 3 then first % 16 * 4096 + s[1] as int % 64 * 64 + s[2] as int % 64
                    else first % 8 * 262144 + s[1] as int % 64 * 4096 + s[2] as int % 64 * 64 + s[3] as int % 64;
        var least := if n == 1 then 0 else if n == 2 then 0x80 else if n == 3 then 0x800 else 0x10000;
        && PieceLength(s) == n
        && PieceCodePoint(s) == if bits < least || 0xD800 <= bits <= 0xDFFF then 0xFFFD
                                else if bits < 0x10000 then bits
                                else 0x10000 + (bits - 0x10000) % 0x100000
  {
    var cp := Utf8ToCodepoint(s).0;
    ShortIsWritten(s[0]);
    if cp >= 0x10000 { TwentyBits(cp - 0x10000); }
  }

  // Values.

  function NumberFor(n: int): G.Number {
    G.Number(n < 0, Digits(if n < 0 then 0 - n else n), "", "")
  }

  /** The text that is written for a value. */
  function DocFor(v: Value): G.Doc
    requires Representable(v) && NoReals(v)
    decreases v, 1, 0
  {
    match v
    case Null => G.NullDoc
    case Bool(b) => G.BoolDoc(b)
    case Int(i) => G.NumberDoc(NumberFor(i))
    case UInt(u) => G.NumberDoc(NumberFor(u))
    case Str(s) => G.StringDoc(AllChars(CodePointsOf(s)))
    case Array(_) => G.ArrayDoc("", ItemsFor(v, 0))
    case Object(_) => G.ObjectDoc("", EntriesFor(v, 0))
  }

  function ItemsFor(v: Value, k: nat): (items: seq<G.Item>)
    requires v.Array? && Representable(v) && NoReals(v) && k <= |v.items|
    ensures |items| == |v.items| - k
    decreases v, 0, |v.items| - k
  {
    if k == |v.items| then [] else [G.Item("", DocFor(v.items[k]), "")] + ItemsFor(v, k + 1)
  }

  function EntriesFor(v: Value, k: nat): (entries: seq<G.Entry>)
    requires v.Object? && Representable(v) && NoReals(v) && k <= |v.members|
    ensures |entries| == |v.members| - k
    decreases v, 0, |v.members| - k
  {
    if k == |v.members| then []
    else
      var m := v.members[k];
      [G.Entry("", AllChars(CodePointsOf(m.name)), "", G.Item("", DocFor(m.value), ""))] + EntriesFor(v, k + 1)
  }

  lemma {:induction false} DigitsHaveNoZero(n: nat)
    requires n > 0
    ensures Digits(n)[0] != '0'
  {
    if n >= 10 { DigitsHaveNoZero(n / 10); }
  }

  lemma IntIsWritten(n: int, rest: string)
    ensures G.IsNumber(NumberFor(n)) && G.WholeValue(NumberFor(n)) == n
    ensures IntText(n) + rest == G.NumberText(NumberFor(n)) + rest
  {
    var m: nat := if n < 0 then 0 - n else n;
    ValueOfDigits(m);
    if m > 0 { DigitsHaveNoZero(m); }
    assert Digits(m) + ("" + "") == Digits(m) && "" + Digits(m) == Digits(m);
  }

  lemma ScalarIsWritten(v: Value, realText: nat -> string, rest: string)
    requires Representable(v) && NoReals(v) && !v.Array? && !v.Object?
    ensures G.IsDoc(DocFor(v)) && G.Text(DocFor(v), rest) == Write(v, realText) + rest
  {
    match v
    case Int(i) => IntIsWritten(i, rest);
    case UInt(u) => IntIsWritten(u, rest);
    case Str(s) => QuoteIsWritten(s, rest);
    case _ =>
  }

  lemma ItemIsWritten(v: Value, k: nat, realText: nat -> string, rest: string)
    requires v.Array? && Representable(v) && NoReals(v) && k < |v.items|
    requires var after := ItemsText(v, k + 1, realText) + rest;
      G.Text(DocFor(v.items[k]), after) == Write(v.items[k], realText) + after
    requires k + 1 < |v.items| ==>
      ItemsText(v, k + 1, realText) + rest == "," + G.ItemsText(ItemsFor(v, k + 1), rest)
    ensures ItemsText(v, k, realText) + rest == Comma(k) + G.ItemsText(ItemsFor(v, k), rest)
  {
    ItemsTextIs(v, k, realText, rest);
    var items := ItemsFor(v, k);
    assert items[1..] == ItemsFor(v, k + 1);
    G.ItemsTextIs(items, rest);
    assert G.AfterItem(items, rest) == ItemsText(v, k + 1, realText) + rest;
    DropEmpty(G.AfterItem(items, rest));
    DropEmpty(G.Text(DocFor(v.items[k]), G.AfterItem(items, rest)));
  }

  lemma EntryIsWritten(v: Value, k: nat, realText: nat -> string, rest: string)
    requires v.Object? && Representable(v) && NoReals(v) && k < |v.members|
    requires var after := MembersText(v, k + 1, realText) + rest;
      G.Text(DocFor(v.members[k].value), after) == Write(v.members[k].value, realText) + after
    requires k + 1 < |v.members| ==>
      MembersText(v, k + 1, realText) + rest == "," + G.EntriesText(EntriesFor(v, k + 1), rest)
    ensures MembersText(v, k, realText) + rest == Comma(k) + G.EntriesText(EntriesFor(v, k), rest)
  {
    var m, entries := v.members[k], EntriesFor(v, k);
    var after := MembersText(v, k + 1, realText) + rest;
    MembersTextIs(v, k, realText, rest);
    assert entries[1..] == EntriesFor(v, k + 1);
    G.EntriesTextIs(entries, rest);
    assert G.AfterEntry(entries, rest) == after;
    DropEmpty(after);
    DropEmpty(G.Text(DocFor(m.value), after));
    DropEmpty(":" + (Write(m.value, realText) + after));
    QuoteIsWritten(m.name, ":" + (Write(m.value, realText) + after));
    DropEmpty(G.LiteralText(AllChars(CodePointsOf(m.name)), ":" + (Write(m.value, realText) + after)));
  }

  lemma Bracket(a: string, b: string, c: string)
    ensures a + b + c == a + (b + c)
  {
  }

  /** What is written for a value is a text of the grammar, without white space and in one
      form only. */
  lemma {:induction false} WrittenIsText(v: Value, realText: nat -> string, rest: string)
    requires Representable(v) && NoReals(v)
    ensures G.IsDoc(DocFor(v)) && G.Text(DocFor(v), rest) == Write(v, realText) + rest
    decreases v, 1
  {
    match v
    case Array(items) =>
      if items == [] {
        DropEmpty("]" + rest);
      } else {
        ItemsAreWritten(v, 0, realText, rest);
        DropEmpty(G.ItemsText(ItemsFor(v, 0), rest));
      }
      Bracket("[", ItemsText(v, 0, realText), rest);
    case Object(members) =>
      if members == [] {
        DropEmpty("}" + rest);
      } else {
        EntriesAreWritten(v, 0, realText, rest);
        DropEmpty(G.EntriesText(EntriesFor(v, 0), rest));
      }
      Bracket("{", MembersText(v, 0, realText), rest);
    case _ => ScalarIsWritten(v, realText, rest);
  }

  lemma {:induction false} ItemsAreWritten(v: Value, k: nat, realText: nat -> string, rest: string)
    requires v.Array? && Representable(v) && NoReals(v) && k < |v.items|
    ensures G.AreItems(ItemsFor(v, k))
    ensures ItemsText(v, k, realText) + rest == Comma(k) + G.ItemsText(ItemsFor(v, k), rest)
    decreases v, 0, |v.items| - k
  {
    WrittenIsText(v.items[k], realText, ItemsText(v, k + 1, realText) + rest);
    if k + 1 < |v.items| { ItemsAreWritten(v, k + 1, realText, rest); }
    ItemIsWritten(v, k, realText, rest);
    assert ItemsFor(v, k)[1..] == ItemsFor(v, k + 1);
  }

  lemma {:induction false} EntriesAreWritten(v: Value, k: nat, realText: nat -> string, rest: string)
    requires v.Object? && Representable(v) && NoReals(v) && k < |v.members|
    ensures G.AreEntries(EntriesFor(v, k))
    ensures MembersText(v, k, realText) + rest == Comma(k) + G.EntriesText(EntriesFor(v, k), rest)
    decreases v, 0, |v.members| - k
  {
    WrittenIsText(v.members[k].value, realText, MembersText(v, k + 1, realText) + rest);
    if k + 1 < |v.members| { EntriesAreWritten(v, k + 1, realText, rest); }
    EntryIsWritten(v, k, realText, rest);
    QuoteIsWritten(v.members[k].name, "");
    assert EntriesFor(v, k)[1..] == EntriesFor(v, k + 1);
  }
}
