/** Which texts httplib reads as chunked bodies (include/httplib.h), spelled out. */
module ChunkedGrammar {
  import opened Wrappers
  import opened Hex
  import opened Chunked

  // Sizes.

  lemma LastDigit(text: string, digits: seq<nat>)
    requires Spells(text, digits) && text != ""
    ensures Spells(text[..|text| - 1], digits[..|text| - 1])
    ensures IsHex(text[..|text| - 1]) && HexValue(text[|text| - 1]) == Some(digits[|text| - 1])
  {
    SpelledIsHex(text, digits);
  }

  lemma LastApart(text: string, tail: string)
    requires text != ""
    ensures text + tail == text[..|text| - 1] + [text[|text| - 1]] + tail
  {
  }

  lemma DropEmpty(s: string)
    ensures s + "" == s
  {
  }

  lemma PrefixEnds(acc: nat, tail: string)
    requires tail == "" || HexValue(tail[0]).None?
    ensures HexPrefix(acc, tail) == acc
  {
  }

  lemma {:induction false} PrefixIsNumeral(text: string, digits: seq<nat>, tail: string)
    requires Spells(text, digits) && (tail == "" || HexValue(tail[0]).None?)
    ensures HexPrefix(0, text + tail) == Numeral(digits)
    decreases |text|
  {
    if text != "" {
      var n := |text| - 1;
      LastDigit(text, digits);
      PrefixIsNumeral(text[..n], digits[..n], "");
      DropEmpty(text[..n]);
      LastApart(text, tail);
      HexPrefixAppend(0, text[..n], text[n], tail);
      PrefixEnds(Numeral(digits[..n]) * 16 + digits[n], tail);
    } else {
      assert text + tail == tail;
    }
  }

  /** A number as `strtoul` reads it in base 16: white space, a sign, a prefix, digits of
      either case, and what follows. */
  datatype Size = Size(spaces: string, sign: string, prefix: string, digits: string, tail: string)

  predicate IsBlank(c: char) {
    c == ' ' || c == '\t' || c == '\n' || c == '\U{000B}' || c == '\U{000C}' || c == '\r'
  }

  /** A tail that makes a single 0 before it the start of a prefix. */
  predicate BeginsPrefixed(tail: string) {
    |tail| >= 2 && (tail[0] == 'x' || tail[0] == 'X') && HexValue(tail[1]).Some?
  }

  predicate IsSize(x: Size) {
    && (forall i :: 0 <= i < |x.spaces| ==> IsBlank(x.spaces[i]))
    && (x.sign == "" || x.sign == "+" || x.sign == "-")
    && (x.prefix == "" || x.prefix == "0x" || x.prefix == "0X")
    && x.digits != "" && IsHex(x.digits) && (x.tail != "" ==> HexValue(x.tail[0]).None?)
    && !(x.prefix == "" && x.digits == "0" && BeginsPrefixed(x.tail))
  }

  function SizeText(x: Size): string {
    x.spaces + (x.sign + (x.prefix + (x.digits + x.tail)))
  }

  /** The value of `strtoul`, with 64 bits. */
  function Clamped(n: nat, negative: bool): nat {
    if n >= 0x1_0000_0000_0000_0000 then 0xFFFF_FFFF_FFFF_FFFF
    else if negative && n > 0 then 0x1_0000_0000_0000_0000 - n
    else n
  }

  lemma {:induction false} CStringAppend(a: string, b: string)
    requires '\0' !in a
    ensures CString(a + b) == a + CString(b)
  {
    if a == "" {
      assert a + b == b;
    } else {
      assert (a + b)[1..] == a[1..] + b;
      CStringAppend(a[1..], b);
    }
  }

  lemma {:induction false} BlanksAreSkipped(spaces: string, t: string)
    requires (forall i :: 0 <= i < |spaces| ==> IsBlank(spaces[i])) && (t == "" || !IsBlank(t[0]))
    ensures SkipSpaces(spaces + t) == t
  {
    if spaces == "" {
      assert spaces + t == t;
    } else {
      assert (spaces + t)[1..] == spaces[1..] + t;
      BlanksAreSkipped(spaces[1..], t);
    }
  }

  /** Plain digits do not start with a prefix. */
  lemma NoPrefix(digits: string, tail: string)
    requires digits != "" && IsHex(digits) && !(digits == "0" && BeginsPrefixed(tail))
    ensures var t := digits + tail; !(t[0] == '0' && BeginsPrefixed(t[1..]))
  {
    var t := digits + tail;
    if |digits| > 1 {
      assert t[1] == digits[1];
    } else {
      assert t[1..] == tail;
    }
  }

  lemma PlainUnsigned(t: string)
    requires t != "" && HexValue(t[0]).Some? && !(t[0] == '0' && BeginsPrefixed(t[1..]))
    ensures Unsigned(t) == Some(HexPrefix(0, t))
  {
  }

  lemma PrefixedUnsigned(prefix: string, t: string)
    requires (prefix == "0x" || prefix == "0X") && t != "" && HexValue(t[0]).Some?
    ensures Unsigned(prefix + t) == Some(HexPrefix(0, t))
  {
    assert (prefix + t)[2..] == t && (prefix + t)[2] == t[0];
  }

  lemma UnsignedIs(x: Size, digits: seq<nat>)
    requires IsSize(x) && Spells(x.digits, digits)
    ensures Unsigned(x.prefix + (x.digits + x.tail)) == Some(Numeral(digits))
  {
    var t := x.digits + x.tail;
    PrefixIsNumeral(x.digits, digits, x.tail);
    assert t[0] == x.digits[0];
    if x.prefix == "" {
      assert x.prefix + t == t;
      NoPrefix(x.digits, x.tail);
      PlainUnsigned(t);
    } else {
      PrefixedUnsigned(x.prefix, t);
    }
  }

  lemma SignedIs(sign: string, t: string, n: nat)
    requires (sign == "" || sign == "+" || sign == "-") && t != "" && t[0] != '+' && t[0] != '-'
    requires Unsigned(t) == Some(n)
    ensures Signed(sign + t) == Some(Clamped(n, sign == "-"))
  {
    if sign == "" {
      assert sign + t == t;
    } else {
      assert (sign + t)[1..] == t;
    }
  }

  /** What stands before the tail. */
  function Head(x: Size): string {
    x.spaces + (x.sign + (x.prefix + x.digits))
  }

  lemma HeadThenTail(x: Size)
    ensures SizeText(x) == Head(x) + x.tail
  {
  }

  lemma HeadIsPlain(x: Size)
    requires IsSize(x)
    ensures '\0' !in Head(x)
  {
    HexIsPlain(x.digits, '\0');
  }

  /** The tail up to its first NUL is a tail too. */
  lemma CutTail(x: Size)
    requires IsSize(x)
    ensures IsSize(x.(tail := CString(x.tail))) && CString(SizeText(x)) == SizeText(x.(tail := CString(x.tail)))
  {
    HeadThenTail(x);
    HeadIsPlain(x);
    CStringAppend(Head(x), x.tail);
    HeadThenTail(x.(tail := CString(x.tail)));
  }

  lemma SignBegins(x: Size)
    requires IsSize(x)
    ensures var t := x.prefix + (x.digits + x.tail);
      && t != "" && t[0] != '+' && t[0] != '-' && !IsBlank(t[0]) && !IsBlank((x.sign + t)[0])
  {
    assert HexValue(x.digits[0]).Some?;
  }

  /** Every such text is read as its number. */
  lemma SizeIsRead(x: Size, digits: seq<nat>)
    requires IsSize(x) && Spells(x.digits, digits)
    ensures StrToUl(SizeText(x)) == Some(Clamped(Numeral(digits), x.sign == "-"))
  {
    var y := x.(tail := CString(x.tail));
    CutTail(x);
    UnsignedIs(y, digits);
    SignBegins(y);
    SignedIs(y.sign, y.prefix + (y.digits + y.tail), Numeral(digits));
    BlanksAreSkipped(y.spaces, y.sign + (y.prefix + (y.digits + y.tail)));
  }

  lemma {:induction false} CStringBegins(s: string) returns (cut: string)
    ensures s == CString(s) + cut && (cut == "" || cut[0] == '\0')
  {
    if s == "" || s[0] == '\0' {
      cut := s;
      assert "" + s == s;
    } else {
      cut := CStringBegins(s[1..]);
      assert s == [s[0]] + s[1..];
    }
  }

  lemma {:induction false} SkippedBlanks(s: string) returns (spaces: string)
    ensures s == spaces + SkipSpaces(s) && forall i :: 0 <= i < |spaces| ==> IsBlank(spaces[i])
  {
    if s != "" && IsSpace(s[0]) {
      var more := SkippedBlanks(s[1..]);
      spaces := [s[0]] + more;
      assert s == [s[0]] + s[1..];
    } else {
      spaces := "";
      assert "" + s == s;
    }
  }

  lemma {:induction false} LongestHex(s: string) returns (digits: string, tail: string)
    ensures s == digits + tail && IsHex(digits) && (tail == "" || HexValue(tail[0]).None?)
    ensures s != "" && HexValue(s[0]).Some? ==> digits != ""
  {
    if s != "" && HexValue(s[0]).Some? {
      var more;
      more, tail := LongestHex(s[1..]);
      digits := [s[0]] + more;
      assert s == [s[0]] + s[1..];
    } else {
      digits, tail := "", s;
      assert "" + s == s;
    }
  }

  lemma UnsignedHas(t: string) returns (prefix: string, digits: string, tail: string)
    requires Unsigned(t).Some?
    ensures t == prefix + (digits + tail) && (prefix == "" || prefix == "0x" || prefix == "0X")
    ensures digits != "" && IsHex(digits) && (tail == "" || HexValue(tail[0]).None?)
    ensures !(prefix == "" && digits == "0" && BeginsPrefixed(tail))
  {
    if t[0] == '0' && BeginsPrefixed(t[1..]) {
      prefix := t[..2];
      digits, tail := LongestHex(t[2..]);
      assert t == t[..2] + t[2..];
    } else {
      prefix := "";
      digits, tail := LongestHex(t);
      if digits == "0" { assert t[1..] == tail; }
    }
  }

  lemma SignedHas(t: string) returns (sign: string, rest: string)
    requires Signed(t).Some?
    ensures t == sign + rest && (sign == "" || sign == "+" || sign == "-") && Unsigned(rest).Some?
  {
    if t != "" && (t[0] == '-' || t[0] == '+') {
      sign, rest := t[..1], t[1..];
    } else {
      sign, rest := "", t;
      assert "" + t == t;
    }
  }

  lemma TailCut(x: Size, cut: string)
    requires IsSize(x) && (cut == "" || cut[0] == '\0')
    ensures IsSize(x.(tail := x.tail + cut)) && SizeText(x.(tail := x.tail + cut)) == SizeText(x) + cut
  {
    HeadThenTail(x);
    HeadThenTail(x.(tail := x.tail + cut));
  }

  /** Only such texts are read as a number. */
  lemma ReadIsSize(s: string) returns (x: Size)
    requires StrToUl(s).Some?
    ensures IsSize(x) && SizeText(x) == s
  {
    var cut := CStringBegins(s);
    var spaces := SkippedBlanks(CString(s));
    var sign, rest := SignedHas(SkipSpaces(CString(s)));
    var prefix, digits, tail := UnsignedHas(rest);
    x := Size(spaces, sign, prefix, digits, tail);
    assert SizeText(x) == CString(s);
    TailCut(x, cut);
    x := x.(tail := tail + cut);
  }

  /** The line of a chunk of section 4.1 of RFC 7230: digits of either case, and anything
      behind them that is no digit, such as an extension. */
  lemma SizeLineIsRead(digits: seq<nat>, text: string, tail: string)
    requires digits != [] && Spells(text, digits) && Numeral(digits) <= 0xFFFF_FFFF_FFFF_FFFF
    requires tail != "" ==> tail[0] == ';' || tail[0] == ' ' || tail[0] == '\t' || tail[0] == '\r'
    ensures StrToUl(text + tail) == Some(Numeral(digits))
  {
    var x := Size("", "", "", text, tail);
    SpelledIsHex(text, digits);
    SizeIsRead(x, digits);
    assert SizeText(x) == text + tail;
  }

  // Bodies.

  /** A line up to its line feed. */
  predicate IsLine(s: string) {
    s != "" && s[|s| - 1] == '\n' && '\n' !in s[..|s| - 1]
  }

  datatype Piece = Piece(line: string, data: string)

  /** Chunks behind the lines with their sizes, the line with size 0, and the lines of the
      trailer before the empty one. */
  datatype Body = Body(pieces: seq<Piece>, last: string, trailer: seq<string>)

  predicate IsPiece(p: Piece) {
    IsLine(p.line) && 0 < |p.data| < 0xFFFF_FFFF_FFFF_FFFF && StrToUl(p.line) == Some(|p.data|)
  }

  predicate IsTrailer(lines: seq<string>) {
    forall i :: 0 <= i < |lines| ==> IsLine(lines[i]) && lines[i] != "\r\n" && |lines[i]| <= 8192
  }

  predicate IsEnd(last: string, trailer: seq<string>) {
    IsLine(last) && StrToUl(last) == Some(0) && IsTrailer(trailer)
  }

  predicate IsBody(b: Body) {
    (forall i :: 0 <= i < |b.pieces| ==> IsPiece(b.pieces[i])) && IsEnd(b.last, b.trailer)
  }

  function TrailerText(lines: seq<string>, rest: string): string {
    if lines == [] then "\r\n" + rest else lines[0] + TrailerText(lines[1..], rest)
  }

  /** The text of a body, followed by `rest`. */
  function BodyText(b: Body, rest: string): string
    decreases |b.pieces|
  {
    if b.pieces == [] then b.last + TrailerText(b.trailer, rest)
    else b.pieces[0].line + (b.pieces[0].data + ("\r\n" + BodyText(b.(pieces := b.pieces[1..]), rest)))
  }

  function DataOf(pieces: seq<Piece>): string {
    if pieces == [] then "" else pieces[0].data + DataOf(pieces[1..])
  }

  lemma LineOf(line: string, x: string)
    requires IsLine(line)
    ensures LineLength(line + x) == |line| && (line + x)[..|line|] == line && (line + x)[|line|..] == x
  {
    var h := line[..|line| - 1];
    SplitLine(h, x);
    assert h + "\n" == line;
  }

  lemma EmptyLineIs(line: string)
    requires IsLine(line)
    ensures CString(line) == "\r\n" <==> line == "\r\n"
  {
    var cut := CStringBegins(line);
    CStringIs("\r\n");
  }

  lemma {:induction false} TrailerIsRead(lines: seq<string>, rest: string)
    requires IsTrailer(lines)
    ensures ReadTrailer(TrailerText(lines, rest)) == Reading(true, "", rest)
  {
    if lines == [] {
      LineOf("\r\n", rest);
      EmptyLineIs("\r\n");
    } else {
      LineOf(lines[0], TrailerText(lines[1..], rest));
      EmptyLineIs(lines[0]);
      TrailerIsRead(lines[1..], rest);
    }
  }

  lemma PieceIsRead(p: Piece, x: string)
    requires IsPiece(p) && x != ""
    ensures var after := ReadChunked(x);
      ReadChunked(p.line + (p.data + ("\r\n" + x))) == Reading(after.ok, p.data + after.content, after.rest)
  {
    LineOf(p.line, p.data + ("\r\n" + x));
    ReadData(p.line, p.data, "\r\n" + x);
    ReadEnd(x);
  }

  lemma BodyIsText(b: Body, rest: string)
    requires IsBody(b)
    ensures BodyText(b, rest) != ""
  {
    if b.pieces != [] { assert IsPiece(b.pieces[0]); }
  }

  /** Every such body is read, whatever follows it. */
  lemma {:induction false} BodyIsRead(b: Body, rest: string)
    requires IsBody(b)
    ensures ReadChunked(BodyText(b, rest)) == Reading(true, DataOf(b.pieces), rest)
    decreases |b.pieces|
  {
    if b.pieces == [] {
      LineOf(b.last, TrailerText(b.trailer, rest));
      TrailerIsRead(b.trailer, rest);
    } else {
      var c := b.(pieces := b.pieces[1..]);
      BodyIsRead(c, rest);
      BodyIsText(c, rest);
      PieceIsRead(b.pieces[0], BodyText(c, rest));
    }
  }

  lemma {:induction false} FirstLine(s: string)
    requires s != "" && s[LineLength(s) - 1] == '\n'
    ensures IsLine(s[..LineLength(s)])
  {
    if s[0] != '\n' {
      var n := LineLength(s[1..]);
      assert s[1..][n - 1] == s[n];
      FirstLine(s[1..]);
      assert s[..n + 1] == [s[0]] + s[1..][..n];
      assert s[..n + 1][..n] == [s[0]] + s[1..][..n - 1];
    }
  }

  lemma {:induction false} LineEnds(s: string)
    requires LineLength(s) < |s| || '\n' in s[..LineLength(s)]
    ensures LineLength(s) > 0 && s[LineLength(s) - 1] == '\n' && IsLine(s[..LineLength(s)])
  {
    if s[0] != '\n' {
      var n := LineLength(s[1..]);
      assert s[..n + 1] == [s[0]] + s[1..][..n];
      LineEnds(s[1..]);
      FirstLine(s);
    }
  }

  lemma Split(s: string, k: nat)
    requires k <= |s|
    ensures s == s[..k] + s[k..]
  {
  }

  lemma EmptyLineFound(s: string)
    requires s != "" && CString(s[..LineLength(s)]) == "\r\n"
    ensures s[..LineLength(s)] == "\r\n"
  {
    var line := s[..LineLength(s)];
    var cut := CStringBegins(line);
    assert line[1] == '\n';
    LineEnds(s);
    EmptyLineIs(line);
  }

  lemma {:induction false} ReadIsTrailer(s: string) returns (lines: seq<string>)
    requires ReadTrailer(s).ok
    ensures IsTrailer(lines) && s == TrailerText(lines, ReadTrailer(s).rest)
    decreases |s|
  {
    var k := LineLength(s);
    Split(s, k);
    if CString(s[..k]) == "\r\n" {
      EmptyLineFound(s);
      lines := [];
    } else {
      var more := ReadIsTrailer(s[k..]);
      LineEnds(s);
      CStringIs("\r\n");
      lines := [s[..k]] + more;
    }
  }

  lemma EndIs(s: string) returns (last: string, trailer: seq<string>)
    requires s != "" && StrToUl(s[..LineLength(s)]) == Some(0) && ReadChunked(s).ok
    ensures IsEnd(last, trailer) && ReadChunked(s).content == ""
    ensures s == last + TrailerText(trailer, ReadChunked(s).rest)
  {
    var k := LineLength(s);
    Split(s, k);
    last := s[..k];
    trailer := ReadIsTrailer(s[k..]);
    LineEnds(s);
  }

  lemma DataIsThere(line: string, t: string) returns (n: nat)
    requires ReadChunks(line, t).ok && StrToUl(line) != Some(0)
    ensures StrToUl(line) == Some(n) && 0 < n < 0xFFFF_FFFF_FFFF_FFFF && n <= |t| && ReadChunkEnd(t[n..]).ok
  {
    n := StrToUl(line).value;
  }

  lemma EndOfData(u: string) returns (x: string)
    requires ReadChunkEnd(u).ok
    ensures u == "\r\n" + x && x != "" && ReadChunked(x).ok
  {
    var k := LineLength(u);
    EmptyLineFound(u);
    Split(u, k);
    x := u[k..];
    assert ReadChunkEnd(u) == ReadChunked(x);
  }

  lemma PieceIs(s: string) returns (p: Piece, x: string)
    requires s != "" && StrToUl(s[..LineLength(s)]) != Some(0) && ReadChunked(s).ok
    ensures IsPiece(p) && s == p.line + (p.data + ("\r\n" + x)) && x != "" && ReadChunked(x).ok
  {
    var k := LineLength(s);
    var t := s[k..];
    Split(s, k);
    var n := DataIsThere(s[..k], t);
    Split(t, n);
    x := EndOfData(t[n..]);
    LineEnds(s);
    p := Piece(s[..k], t[..n]);
  }

  /** Only such bodies are read: what is passed on is their data, and what is left is what
      follows them. */
  lemma {:induction false} ReadIsBody(s: string) returns (b: Body)
    requires ReadChunked(s).ok
    ensures IsBody(b) && s == BodyText(b, ReadChunked(s).rest) && ReadChunked(s).content == DataOf(b.pieces)
    decreases |s|
  {
    if StrToUl(s[..LineLength(s)]) == Some(0) {
      var last, trailer := EndIs(s);
      b := Body([], last, trailer);
    } else {
      var p, x := PieceIs(s);
      var c := ReadIsBody(x);
      b := c.(pieces := [p] + c.pieces);
      PieceIsRead(p, x);
      assert b.pieces[1..] == c.pieces && b.(pieces := b.pieces[1..]) == c;
    }
  }

  // What is written.

  /** The digits of a number, lower case, the first of them not 0 unless it is the only one. */
  predicate IsNumeralOf(text: string, digits: seq<nat>, n: nat) {
    && digits != [] && |text| == |digits| && Numeral(digits) == n && (|digits| > 1 ==> digits[0] != 0)
    && forall i :: 0 <= i < |digits| ==> digits[i] < 16 && text[i] == "0123456789abcdef"[digits[i]]
  }

  lemma OneDigitMore(text: string, digits: seq<nat>, n: nat, d: nat)
    requires IsNumeralOf(text, digits, n) && n > 0 && d < 16
    ensures IsNumeralOf(text + [HexDigit(d)], digits + [d], n * 16 + d)
  {
    DigitsAre('0', d);
    var more := digits + [d];
    assert more[..|more| - 1] == digits;
    if |digits| == 1 {
      assert digits[..|digits| - 1] == [];
      assert Numeral(digits) == digits[0];
    }
  }

  lemma OneDigit(d: nat)
    requires d < 16
    ensures IsNumeralOf([HexDigit(d)], [d], d)
  {
    DigitsAre('0', d);
    assert [d][..0] == [];
  }

  /** A size is written as its numeral in base 16. */
  lemma {:induction false} SizeIsWritten(n: nat) returns (digits: seq<nat>)
    ensures IsNumeralOf(ToHex(n), digits, n)
  {
    if n < 16 {
      OneDigit(n);
      digits := [n];
    } else {
      var front := SizeIsWritten(n / 16);
      OneDigitMore(ToHex(n / 16), front, n / 16, n % 16);
      digits := front + [n % 16];
    }
  }

  /** The pieces behind lines that hold such a numeral and nothing else. */
  ghost predicate AreWritten(b: Body, pieces: seq<string>) {
    && |b.pieces| == |pieces| && b.last == "0\r\n" && b.trailer == []
    && forall i :: 0 <= i < |pieces| ==>
      && b.pieces[i].data == pieces[i]
      && exists text, digits :: b.pieces[i].line == text + "\r\n" && IsNumeralOf(text, digits, |pieces[i]|)
  }

  lemma PieceIsWritten(data: string) returns (p: Piece, digits: seq<nat>)
    requires 0 < |data| < ULONG_MAX
    ensures p == Piece(ToHex(|data|) + "\r\n", data) && IsPiece(p) && IsNumeralOf(ToHex(|data|), digits, |data|)
  {
    p := Piece(ToHex(|data|) + "\r\n", data);
    digits := SizeIsWritten(|data|);
    SizeLine(|data|);
    NoLineFeed(|data|);
  }

  lemma FiveParts(h: string, a: string, data: string, x: string)
    ensures h + a + data + a + x == (h + a) + (data + (a + x))
  {
  }

  lemma ChunkThen(data: string, x: string)
    ensures Chunk(data) + x == (ToHex(|data|) + "\r\n") + (data + ("\r\n" + x))
  {
    FiveParts(ToHex(|data|), "\r\n", data, x);
  }

  lemma OneMoreWritten(p: Piece, digits: seq<nat>, c: Body, pieces: seq<string>)
    requires pieces != [] && IsPiece(p) && IsNumeralOf(ToHex(|p.data|), digits, |p.data|)
    requires p == Piece(ToHex(|pieces[0]|) + "\r\n", pieces[0]) && IsBody(c) && AreWritten(c, pieces[1..])
    ensures var b := c.(pieces := [p] + c.pieces); IsBody(b) && AreWritten(b, pieces)
  {
    assert p.line == ToHex(|p.data|) + "\r\n";
  }

  /** What is written is a body without extensions and trailer. */
  lemma {:induction false} WrittenIsBody(pieces: seq<string>) returns (b: Body)
    requires forall i :: 0 <= i < |pieces| ==> 0 < |pieces[i]| < ULONG_MAX
    ensures IsBody(b) && AreWritten(b, pieces) && Encoded(pieces) == BodyText(b, "")
  {
    if pieces == [] {
      b := Body([], "0\r\n", []);
      assert ToHex(0) == "0";
      SizeLine(0);
    } else {
      var p, digits := PieceIsWritten(pieces[0]);
      var c := WrittenIsBody(pieces[1..]);
      b := c.(pieces := [p] + c.pieces);
      assert b.(pieces := b.pieces[1..]) == c;
      ChunkThen(pieces[0], BodyText(c, ""));
      OneMoreWritten(p, digits, c, pieces);
    }
  }

  // Refused texts.

  /** Chunks as above, followed by `rest`. */
  function PiecesText(pieces: seq<Piece>, rest: string): string {
    if pieces == [] then rest
    else pieces[0].line + (pieces[0].data + ("\r\n" + PiecesText(pieces[1..], rest)))
  }

  /** A line of which the line feed may be missing at the end of the stream. */
  predicate IsLineBefore(line: string, t: string) {
    IsLine(line) || (t == "" && '\n' !in line)
  }

  /** A text that no chunk starts, and what is passed on of it all the same: nothing without
      a size or with the largest one, nothing for the last chunk, and otherwise as much of
      its data as there is, when the data, the line end behind it, or the next line is
      missing. */
  ghost predicate IsBroken(line: string, t: string, d: string) {
    && IsLineBefore(line, t)
    && match StrToUl(line)
       case None => d == ""
       case Some(n) =>
         if n == 0 || n >= 0xFFFF_FFFF_FFFF_FFFF then d == ""
         else if n > |t| then d == t
         else d == t[..n] && (!("\r\n" <= t[n..]) || t[n..] == "\r\n")
  }

  lemma {:induction false} LineBefore(s: string)
    ensures IsLineBefore(s[..LineLength(s)], s[LineLength(s)..])
  {
    if '\n' in s[..LineLength(s)] || LineLength(s) < |s| { LineEnds(s); }
  }

  lemma GoesOn(s: string, p: Piece, x: string)
    requires s == p.line + (p.data + ("\r\n" + x)) && IsPiece(p) && x != ""
    ensures |x| < |s| && ReadChunked(s).ok == ReadChunked(x).ok
    ensures ReadChunked(s).content == p.data + ReadChunked(x).content
  {
    PieceIsRead(p, x);
  }

  lemma Stops(line: string, t: string, n: nat)
    requires StrToUl(line) == Some(n) && 0 < n < 0xFFFF_FFFF_FFFF_FFFF && n <= |t|
    requires !("\r\n" <= t[n..]) || t[n..] == "\r\n"
    ensures ReadChunks(line, t).content == t[..n]
  {
    var u := t[n..];
    assert ReadChunkEnd(u).content == "" by {
      if u != "" && CString(u[..LineLength(u)]) == "\r\n" { EmptyLineFound(u); }
    }
    assert t[..n] + "" == t[..n];
  }

  lemma PieceStarts(line: string, t: string, n: nat) returns (p: Piece, x: string)
    requires IsLine(line) && StrToUl(line) == Some(n) && 0 < n < 0xFFFF_FFFF_FFFF_FFFF && n <= |t|
    requires "\r\n" <= t[n..] && t[n..] != "\r\n"
    ensures IsPiece(p) && line + t == p.line + (p.data + ("\r\n" + x)) && x != ""
  {
    p, x := Piece(line, t[..n]), t[n + 2..];
    assert t == t[..n] + ("\r\n" + x);
  }

  lemma OnePieceMore(p: Piece, pieces: seq<Piece>, rest: string, d: string)
    ensures PiecesText([p] + pieces, rest) == p.line + (p.data + ("\r\n" + PiecesText(pieces, rest)))
    ensures DataOf([p] + pieces) + d == p.data + (DataOf(pieces) + d)
  {
    assert ([p] + pieces)[1..] == pieces;
  }

  /** What is passed on of a text that is refused: the data of its chunks, and of a last one
      as much as there is. */
  lemma {:induction false} RefusedPassesOn(s: string)
    returns (pieces: seq<Piece>, line: string, t: string, d: string)
    requires !ReadChunked(s).ok
    ensures (forall i :: 0 <= i < |pieces| ==> IsPiece(pieces[i])) && s == PiecesText(pieces, line + t)
    ensures IsBroken(line, t, d) && ReadChunked(s).content == DataOf(pieces) + d
    decreases |s|
  {
    pieces, line, t, d := [], s[..LineLength(s)], s[LineLength(s)..], ReadChunked(s).content;
    Split(s, LineLength(s));
    LineBefore(s);
    var size := StrToUl(line);
    if size.Some? && 0 < size.value < 0xFFFF_FFFF_FFFF_FFFF && size.value <= |t| {
      var n := size.value;
      if "\r\n" <= t[n..] && t[n..] != "\r\n" {
        var p, x := PieceStarts(line, t, n);
        GoesOn(s, p, x);
        pieces, line, t, d := RefusedPassesOn(x);
        OnePieceMore(p, pieces, line + t, d);
        pieces := [p] + pieces;
      } else {
        Stops(line, t, n);
      }
    }
  }
}
