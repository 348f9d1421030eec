/** Chunked transfer coding in httplib (include/httplib.h; section 4.1 of RFC 7230): what
    the writer emits and what the reader makes of it. */
module Chunked {
  import opened Wrappers
  import opened Hex
  import opened Http
  import opened Sequences

  const ULONG_MAX: nat := 0xFFFF_FFFF_FFFF_FFFF

  // Hexadecimal numbers.

  /** `from_i_to_hex`. */
  function ToHex(n: nat): (s: string)
    ensures s != ""
  {
    if n < 16 then [HexDigit(n)] else ToHex(n / 16) + [HexDigit(n % 16)]
  }

  lemma MoreDigits(rest: nat, s: string)
    requires rest > 0
    ensures ToHex(rest) + s
         == if rest / 16 > 0 then ToHex(rest / 16) + ([HexDigit(rest % 16)] + s) else [HexDigit(rest % 16)] + s
  {
    if rest >= 16 {
      assert ToHex(rest / 16) + [HexDigit(rest % 16)] + s == ToHex(rest / 16) + ([HexDigit(rest % 16)] + s);
    }
  }

  method FromIToHex(n: nat) returns (s: string)
    ensures s == ToHex(n)
  {
    s := [HexDigit(n % 16)];
    var rest: nat := n / 16;
    while rest > 0
      invariant ToHex(n) == if rest > 0 then ToHex(rest) + s else s
      decreases rest
    {
      MoreDigits(rest, s);
      s := [HexDigit(rest % 16)] + s;
      rest := rest / 16;
    }
  }

  /** The value of the hexadecimal digits at the start of `s`, after the value `acc`. */
  function HexPrefix(acc: nat, s: string): nat
    decreases |s|
  {
    if s == "" || HexValue(s[0]).None? then acc else HexPrefix(acc * 16 + HexValue(s[0]).value, s[1..])
  }

  predicate IsSpace(c: char) {
    c == ' ' || '\t' <= c <= '\r'
  }

  function SkipSpaces(s: string): string {
    if s != "" && IsSpace(s[0]) then SkipSpaces(s[1..]) else s
  }

  /** The text of a C string. */
  function CString(s: string): string {
    if s == "" || s[0] == '\0' then "" else [s[0]] + CString(s[1..])
  }

  /** The digits after the sign, behind an optional prefix. */
  function Unsigned(s: string): Option<nat> {
    var digits := if |s| >= 3 && s[0] == '0' && (s[1] == 'x' || s[1] == 'X') && HexValue(s[2]).Some? then s[2..] else s;
    if digits == "" || HexValue(digits[0]).None? then None else Some(HexPrefix(0, digits))
  }

  /** A number behind the white space. */
  function Signed(text: string): Option<nat> {
    if text != "" && text[0] == '-' then
      match Unsigned(text[1..])
      case None => None
      case Some(n) => Some(if n > ULONG_MAX then ULONG_MAX else if n == 0 then 0 else ULONG_MAX + 1 - n)
    else
      match Unsigned(if text != "" && text[0] == '+' then text[1..] else text)
      case None => None
      case Some(n) => Some(if n > ULONG_MAX then ULONG_MAX else n)
  }

  /** `strtoul` in base 16; None when nothing was converted. */
  function StrToUl(s: string): Option<nat> {
    Signed(SkipSpaces(CString(s)))
  }

  // Reading.

  /** `getline`: the characters up to and including a line feed, or to the end. */
  function LineLength(s: string): (n: nat)
    ensures n <= |s| && (s != "" ==> n > 0)
  {
    if s == "" then 0 else if s[0] == '\n' then 1 else 1 + LineLength(s[1..])
  }

  /** What came of reading: whether it succeeded, what was passed on, and what is left. */
  datatype Reading = Reading(ok: bool, content: string, rest: string)

  /** The trailer: lines up to the empty one; their fields are not part of this model. */
  function ReadTrailer(s: string): (r: Reading)
    ensures r.content == ""
  {
    if s == "" then Reading(false, "", s)
    else
      var k := LineLength(s);
      if CString(s[..k]) == CRLF then Reading(true, "", s[k..])
      else if k > HEADER_MAX_LENGTH then Reading(false, "", s[k..])
      else ReadTrailer(s[k..])
  }

  /** `read_content_chunked` from after the line with a size. */
  function ReadChunks(line: string, s: string): (r: Reading)
    decreases |s|
  {
    match StrToUl(line)
    case None => Reading(false, "", s)
    case Some(n) =>
      if n == ULONG_MAX then Reading(false, "", s)
      else if n == 0 then ReadTrailer(s)
      else if n > |s| then Reading(false, s, "")
      else
        var after := ReadChunkEnd(s[n..]);
        Reading(after.ok, s[..n] + after.content, after.rest)
  }

  /** The end of a chunk: an empty line, and the line with the next size. */
  function ReadChunkEnd(s: string): (r: Reading)
    decreases |s|, 1
  {
    if s == "" then Reading(false, "", s)
    else
      var k := LineLength(s);
      if CString(s[..k]) != CRLF then Reading(false, "", s[k..])
      else
        var t := s[k..];
        if t == "" then Reading(false, "", t) else ReadChunks(t[..LineLength(t)], t[LineLength(t)..])
  }

  function ReadChunked(s: string): Reading {
    if s == "" then Reading(false, "", s) else ReadChunks(s[..LineLength(s)], s[LineLength(s)..])
  }

  // Writing.

  function Chunk(data: string): string {
    ToHex(|data|) + CRLF + data + CRLF
  }

  /** The chunks, the last one of size 0, and an empty trailer. */
  function Encoded(pieces: seq<string>): string {
    if pieces == [] then "0\r\n" + CRLF else Chunk(pieces[0]) + Encoded(pieces[1..])
  }

  // The round trip.

  lemma {:induction false} ToHexIsHex(n: nat)
    ensures IsHex(ToHex(n))
  {
    if n >= 16 { ToHexIsHex(n / 16); }
  }

  lemma {:induction false} HexPrefixAppend(acc: nat, s: string, c: char, tail: string)
    requires IsHex(s) && HexValue(c).Some?
    ensures HexPrefix(acc, s + [c] + tail) == HexPrefix(HexPrefix(acc, s) * 16 + HexValue(c).value, tail)
    decreases |s|
  {
    var t := s + [c] + tail;
    if s == "" {
      assert t[1..] == tail;
    } else {
      assert t[1..] == s[1..] + [c] + tail;
      HexPrefixAppend(acc * 16 + HexValue(s[0]).value, s[1..], c, tail);
    }
  }

  /** Reading back the digits of a number, whatever stops them. */
  lemma {:induction false} HexRoundTrip(n: nat, tail: string)
    requires tail == "" || HexValue(tail[0]).None?
    ensures HexPrefix(0, ToHex(n) + tail) == n
  {
    if n < 16 {
      HexDigitValue(n);
      HexPrefixAppend(0, "", HexDigit(n), tail);
      assert "" + [HexDigit(n)] + tail == ToHex(n) + tail;
    } else {
      ToHexIsHex(n / 16);
      HexDigitValue(n % 16);
      HexPrefixAppend(0, ToHex(n / 16), HexDigit(n % 16), tail);
      HexRoundTrip(n / 16, "");
      assert ToHex(n / 16) + "" == ToHex(n / 16);
    }
  }

  lemma {:induction false} CStringIs(s: string)
    requires '\0' !in s
    ensures CString(s) == s
  {
    if s != "" {
      assert s == [s[0]] + s[1..];
      CStringIs(s[1..]);
    }
  }

  lemma HexIsPlain(h: string, c: char)
    requires IsHex(h) && HexValue(c).None?
    ensures c !in h
  {
    forall i | 0 <= i < |h| ensures h[i] != c {
      assert HexValue(h[i]).Some?;
    }
  }

  lemma DigitsConvert(s: string)
    requires CString(s) == s && s != "" && HexValue(s[0]).Some? && (|s| >= 2 ==> s[1] != 'x' && s[1] != 'X')
    ensures StrToUl(s) == Some(if HexPrefix(0, s) > ULONG_MAX then ULONG_MAX else HexPrefix(0, s))
  {
    assert SkipSpaces(s) == s;
    assert Unsigned(s) == Some(HexPrefix(0, s));
  }

  /** The line with the size of a chunk. */
  lemma SizeLine(n: nat)
    requires n < ULONG_MAX
    ensures StrToUl(ToHex(n) + CRLF) == Some(n)
  {
    var h := ToHex(n);
    var s := h + CRLF;
    ToHexIsHex(n);
    HexIsPlain(h, '\0');
    CStringIs(s);
    assert |h| >= 2 ==> HexValue(h[1]).Some?;
    DigitsConvert(s);
    HexRoundTrip(n, CRLF);
  }

  lemma {:induction false} LineIs(h: string, x: string)
    requires '\n' !in h
    ensures LineLength(h + ("\n" + x)) == |h| + 1
    decreases |h|
  {
    var s := h + ("\n" + x);
    if h != "" {
      assert s[1..] == h[1..] + ("\n" + x);
      LineIs(h[1..], x);
    }
  }

  lemma SplitLine(h: string, x: string)
    requires '\n' !in h
    ensures var s := h + "\n" + x;
      LineLength(s) == |h| + 1 && s[..|h| + 1] == h + "\n" && s[|h| + 1..] == x
  {
    assert h + "\n" + x == h + ("\n" + x);
    LineIs(h, x);
  }

  lemma NoLineFeed(n: nat)
    ensures '\n' !in ToHex(n) + "\r"
  {
    ToHexIsHex(n);
    HexIsPlain(ToHex(n), '\n');
  }

  /** A text that starts with the line of a size. */
  lemma ReadSize(n: nat, x: string)
    requires n < ULONG_MAX
    ensures ReadChunked(ToHex(n) + CRLF + x) == ReadChunks(ToHex(n) + CRLF, x)
  {
    var h := ToHex(n) + "\r";
    NoLineFeed(n);
    SplitLine(h, x);
    assert h + "\n" == ToHex(n) + CRLF;
    assert h + "\n" + x == ToHex(n) + CRLF + x;
  }

  lemma EmptyLine(x: string)
    ensures LineLength(CRLF + x) == 2 && (CRLF + x)[..2] == CRLF && (CRLF + x)[2..] == x && CString(CRLF) == CRLF
  {
    SplitLine("\r", x);
    assert "\r" + "\n" + x == CRLF + x;
    CStringIs(CRLF);
  }

  lemma ReadEnd(x: string)
    requires x != ""
    ensures ReadChunkEnd(CRLF + x) == ReadChunked(x)
  {
    EmptyLine(x);
  }

  lemma ReadData(line: string, data: string, x: string)
    requires StrToUl(line) == Some(|data|) && 0 < |data| < ULONG_MAX
    ensures var after := ReadChunkEnd(x);
      ReadChunks(line, data + x) == Reading(after.ok, data + after.content, after.rest)
  {
    assert (data + x)[..|data|] == data && (data + x)[|data|..] == x;
  }

  lemma ReadLast(more: string)
    ensures ReadChunked("0\r\n" + CRLF + more) == Reading(true, "", more)
  {
    SizeLine(0);
    ReadSize(0, CRLF + more);
    assert ToHex(0) == "0";
    assert ToHex(0) + CRLF == "0\r\n";
    assert "0\r\n" + CRLF + more == ToHex(0) + CRLF + (CRLF + more);
    EmptyLine(more);
    assert ReadTrailer(CRLF + more) == Reading(true, "", more);
  }

  lemma Reassociate(h: string, data: string, rest: string, more: string)
    ensures h + CRLF + data + CRLF + rest + more == h + CRLF + (data + (CRLF + (rest + more)))
  {
  }

  lemma NotEmpty(pieces: seq<string>)
    ensures Encoded(pieces) != ""
  {
  }

  /** Pieces that were written one by one are read back joined, and exactly what was
      written is consumed. */
  lemma {:induction false} ChunkedRoundTrip(pieces: seq<string>, more: string)
    requires forall i :: 0 <= i < |pieces| ==> 0 < |pieces[i]| < ULONG_MAX
    ensures ReadChunked(Encoded(pieces) + more) == Reading(true, Join(pieces), more)
    decreases |pieces|
  {
    if pieces == [] {
      ReadLast(more);
    } else {
      var data, rest := pieces[0], Encoded(pieces[1..]);
      ChunkedRoundTrip(pieces[1..], more);
      var x := data + (CRLF + (rest + more));
      Reassociate(ToHex(|data|), data, rest, more);
      ReadSize(|data|, x);
      SizeLine(|data|);
      ReadData(ToHex(|data|) + CRLF, data, CRLF + (rest + more));
      NotEmpty(pieces[1..]);
      ReadEnd(rest + more);
    }
  }
}
