/** Exactly which texts `Json::Reader` (src/jsoncpp.cpp) accepts: those of RFC 8259 and more,
    with comments, loose numbers and raw control characters. */
module JsonAccepted {
  import opened Wrappers
  import opened Hex
  import opened JsonString
  import opened JsonNumber
  import opened JsonValue
  import opened JsonToken
  import opened JsonText
  import G = JsonGrammar

  // White space and comments.

  /** A space, a comment between slashes and asterisks, or one up to the end of its line. */
  datatype Blank = Space(c: char) | Block(body: string) | Line(body: string, end: char)

  predicate IsBlank(b: Blank) {
    match b
    case Space(c) => c == ' ' || c == '\t' || c == '\n' || c == '\r'
    case Block(body) => forall j :: 0 <= j < |body| - 1 ==> body[j] != '*' || body[j + 1] != '/'
    case Line(body, end) => '\n' !in body && '\r' !in body && (end == '\n' || end == '\r')
  }

  predicate AreBlanks(gap: seq<Blank>) {
    forall i :: 0 <= i < |gap| ==> IsBlank(gap[i])
  }

  function BlankText(b: Blank, rest: string): string {
    match b
    case Space(c) => [c] + rest
    case Block(body) => "/*" + (body + ("*/" + rest))
    case Line(body, end) => "//" + (body + ([end] + rest))
  }

  /** The text of a gap, followed by `rest`. */
  function GapText(gap: seq<Blank>, rest: string): string {
    if gap == [] then rest else BlankText(gap[0], GapText(gap[1..], rest))
  }

  lemma {:induction false} BlockIsScanned(body: string, rest: string)
    requires IsBlank(Block(body))
    ensures ScanCStyle(body + ("*/" + rest)) == (true, rest)
    decreases |body|
  {
    var s := body + ("*/" + rest);
    if body == "" {
      assert s[2..] == rest;
    } else {
      assert s[1..] == body[1..] + ("*/" + rest);
      assert s[0] != '*' || s[1] != '/';
      BlockIsScanned(body[1..], rest);
    }
  }

  lemma {:induction false} LineIsScanned(body: string, end: char, rest: string)
    requires IsBlank(Line(body, end))
    ensures var s := body + ([end] + rest);
      ScanCppStyle(s) == if end == '\r' && rest != "" && rest[0] == '\n' then rest[1..] else rest
    decreases |body|
  {
    var s := body + ([end] + rest);
    if body == "" {
      assert s[1..] == rest && (rest != "" ==> s[2..] == rest[1..]);
    } else {
      assert s[1..] == body[1..] + ([end] + rest);
      assert s[0] == body[0] && s[0] in body;
      LineIsScanned(body[1..], end, rest);
    }
  }

  lemma SpaceIsSkipped(c: char, s: string)
    requires IsSpace(c)
    ensures ReadToken([c] + s) == ReadToken(s) && ReadPastComments([c] + s) == ReadPastComments(s)
    ensures SkipSpaces([c] + s) == SkipSpaces(s)
  {
    assert ([c] + s)[1..] == s;
    assert ReadToken([c] + s) == TokenAt([c] + s);
  }

  lemma CommentIsSkipped(s: string, rest: string)
    requires ScanComment(s) == (true, rest)
    ensures ReadToken("/" + s).kind == CommentToken && ReadPastComments("/" + s) == ReadPastComments(rest)
  {
    PlainToken('/', s);
  }

  lemma BlockIsSkipped(body: string, rest: string)
    requires IsBlank(Block(body))
    ensures var s := "/*" + (body + ("*/" + rest));
      ReadPastComments(s) == ReadPastComments(rest) && ReadToken(s).kind == CommentToken
  {
    var s := "*" + (body + ("*/" + rest));
    assert s[1..] == body + ("*/" + rest) && "/" + s == "/*" + (body + ("*/" + rest));
    BlockIsScanned(body, rest);
    CommentIsSkipped(s, rest);
  }

  lemma LineIsSkipped(body: string, end: char, rest: string)
    requires IsBlank(Line(body, end))
    ensures var s := "//" + (body + ([end] + rest));
      ReadPastComments(s) == ReadPastComments(rest) && ReadToken(s).kind == CommentToken
  {
    var s := "/" + (body + ([end] + rest));
    var after := ScanCppStyle(body + ([end] + rest));
    assert s[1..] == body + ([end] + rest) && "/" + s == "//" + (body + ([end] + rest));
    LineIsScanned(body, end, rest);
    CommentIsSkipped(s, after);
    if after != rest {
      SpaceIsSkipped('\n', after);
      assert rest == ['\n'] + after;
    }
  }

  lemma BlankIsSkipped(b: Blank, rest: string)
    requires IsBlank(b)
    ensures ReadPastComments(BlankText(b, rest)) == ReadPastComments(rest)
    ensures !b.Space? ==> ReadToken(BlankText(b, rest)).kind == CommentToken
  {
    match b
    case Space(c) => SpaceIsSkipped(c, rest);
    case Block(body) => BlockIsSkipped(body, rest);
    case Line(body, end) => LineIsSkipped(body, end, rest);
  }

  lemma {:induction false} GapIsSkipped(gap: seq<Blank>, rest: string)
    requires AreBlanks(gap)
    ensures ReadPastComments(GapText(gap, rest)) == ReadPastComments(rest)
  {
    if gap != [] {
      GapIsSkipped(gap[1..], rest);
      BlankIsSkipped(gap[0], GapText(gap[1..], rest));
    }
  }

  /** A comment that ends is a block. */
  lemma {:induction false} BlockOf(s: string, rest: string) returns (body: string)
    requires ScanCStyle(s) == (true, rest) && rest != ""
    ensures IsBlank(Block(body)) && s == body + ("*/" + rest)
  {
    if s[0] == '*' && s[1] == '/' {
      body := "";
    } else {
      var more := BlockOf(s[1..], rest);
      body := [s[0]] + more;
      assert s == [s[0]] + s[1..];
      assert |more| > 0 ==> s[1] == more[0];
    }
  }

  lemma {:induction false} LineOf(s: string) returns (body: string, end: char, rest: string)
    requires ScanCppStyle(s) != ""
    ensures IsBlank(Line(body, end)) && s == body + ([end] + rest) && rest != ""
  {
    if s[0] == '\n' || s[0] == '\r' {
      body, end, rest := "", s[0], s[1..];
    } else {
      var more;
      more, end, rest := LineOf(s[1..]);
      body := [s[0]] + more;
      assert s == [s[0]] + s[1..];
    }
  }

  lemma CommentOf(s: string) returns (b: Blank, t: string)
    requires s != "" && ReadToken(s).kind == CommentToken && !IsSpace(s[0]) && ReadToken(s).rest != ""
    ensures IsBlank(b) && !b.Space? && s == BlankText(b, t) && |t| < |s|
  {
    var u := s[1..];
    assert ReadToken(s) == TokenAt(s) && KindAt(s[0], u).0 == CommentToken;
    assert s == [s[0]] + u && s[0] == '/';
    if u[0] == '*' {
      var body := BlockOf(u[1..], ScanCStyle(u[1..]).1);
      b, t := Block(body), ScanCStyle(u[1..]).1;
      assert u == ['*'] + u[1..];
    } else {
      var body, end, rest := LineOf(u[1..]);
      b, t := Line(body, end), rest;
      assert u == ['/'] + u[1..];
    }
  }

  /** What stands before the next token is a gap, if that token is there. */
  lemma {:induction false} GapBefore(s: string) returns (gap: seq<Blank>, t: string)
    requires ReadPastComments(s).text != ""
    ensures AreBlanks(gap) && s == GapText(gap, t) && t != "" && !IsSpace(t[0])
    ensures ReadToken(t) == ReadPastComments(t) == ReadPastComments(s)
    decreases |s|
  {
    if IsSpace(s[0]) {
      var more;
      SpaceIsSkipped(s[0], s[1..]);
      assert s == [s[0]] + s[1..];
      more, t := GapBefore(s[1..]);
      gap := [Space(s[0])] + more;
    } else if ReadToken(s).kind == CommentToken {
      assert ReadPastComments(s) == ReadPastComments(ReadToken(s).rest);
      var b, u := CommentOf(s);
      var more;
      BlankIsSkipped(b, u);
      more, t := GapBefore(u);
      gap := [b] + more;
    } else {
      gap, t := [], s;
    }
  }

  // Numbers.

  predicate IsFraction(s: string) {
    s == "" || (s[0] == '.' && AllDigits(s[1..]))
  }

  predicate IsSigned(s: string) {
    s != "" && (s[0] == '+' || s[0] == '-')
  }

  predicate IsExponent(s: string) {
    s == "" || ((s[0] == 'e' || s[0] == 'E') && AllDigits(if IsSigned(s[1..]) then s[2..] else s[1..]))
  }

  /** Digits may be missing everywhere, but a number starts with a digit or a minus. */
  predicate IsNumber(n: G.Number) {
    && AllDigits(n.digits) && (n.minus || n.digits != "") && IsFraction(n.fraction) && IsExponent(n.exponent)
  }

  /** What follows would not be taken for a part of the number. */
  predicate Stops(n: G.Number, rest: string) {
    rest != "" ==>
      && !IsDigit(rest[0])
      && (n.fraction == "" && n.exponent == "" ==> rest[0] != '.')
      && (n.exponent == "" ==> rest[0] != 'e' && rest[0] != 'E')
      && (|n.exponent| == 1 ==> rest[0] != '+' && rest[0] != '-')
  }

  /** A whole number of 64 bits with its sign; a minus alone is zero. */
  predicate IsInteger(n: G.Number)
    requires IsNumber(n)
  {
    && n.fraction == "" && n.exponent == ""
    && DecimalValue(n.digits) <= if n.minus then 0x8000_0000_0000_0000 else 0xFFFF_FFFF_FFFF_FFFF
  }

  /** Its value; all other numbers are what `toDouble` makes of their text. */
  function NumberValue(n: G.Number, toDouble: string -> Option<nat>): Option<Value>
    requires IsNumber(n)
  {
    if IsInteger(n) then
      var v := DecimalValue(n.digits);
      Some(if n.minus then Int(0 - v) else if v <= 0x7FFF_FFFF then Int(v) else UInt(v))
    else
      match toDouble(G.NumberText(n))
      case None => None
      case Some(bits) => Some(Real(bits))
  }

  lemma FractionIsPassed(n: G.Number, s: string)
    requires IsNumber(n) && (s != "" ==> !IsDigit(s[0])) && (n.fraction == "" && s != "" ==> s[0] != '.')
    ensures FractionRest(n.fraction + s) == s
    ensures var t := n.fraction + s; t != "" ==> !IsDigit(t[0])
  {
    if n.fraction == "" {
      assert n.fraction + s == s;
    } else {
      assert (n.fraction + s)[1..] == n.fraction[1..] + s;
      DigitsSkipped(n.fraction[1..], s);
    }
  }

  lemma ExponentIsPassed(n: G.Number, s: string)
    requires IsNumber(n) && Stops(n, s)
    ensures ExponentRest(n.exponent + s) == s
    ensures var t := n.exponent + s; t != "" ==> !IsDigit(t[0]) && (n.fraction == "" ==> t[0] != '.')
  {
    var t := n.exponent + s;
    if n.exponent == "" {
      assert t == s;
    } else if IsSigned(n.exponent[1..]) {
      assert t[1..][1..] == n.exponent[2..] + s && t[1] == n.exponent[1];
      DigitsSkipped(n.exponent[2..], s);
    } else {
      assert t[1..] == n.exponent[1..] + s;
      if |n.exponent| > 1 { assert t[1] == n.exponent[1]; }
      DigitsSkipped(n.exponent[1..], s);
    }
  }

  lemma NumberIsPassed(digits: string, n: G.Number, s: string)
    requires IsNumber(n) && AllDigits(digits) && Stops(n, s)
    ensures NumberRest(digits + (n.fraction + (n.exponent + s))) == s
  {
    ExponentIsPassed(n, s);
    FractionIsPassed(n, n.exponent + s);
    DigitsSkipped(digits, n.fraction + (n.exponent + s));
  }

  lemma NumberBegins(n: G.Number) returns (c: char, digits: string)
    requires IsNumber(n)
    ensures G.NumberText(n) == [c] + (digits + (n.fraction + n.exponent))
    ensures AllDigits(digits) && (IsDigit(c) || c == '-')
  {
    if n.minus {
      c, digits := '-', n.digits;
    } else {
      c, digits := n.digits[0], n.digits[1..];
      assert n.digits == [c] + digits;
      G.ThreeParts([c], digits, n.fraction + n.exponent);
    }
  }

  /** A number is one token. */
  lemma NumberIsToken(n: G.Number, rest: string)
    requires IsNumber(n) && Stops(n, rest)
    ensures ReadPastComments(G.NumberText(n) + rest) == Token(NumberToken, G.NumberText(n), rest)
  {
    var c, digits := NumberBegins(n);
    NumberIsPassed(digits, n, rest);
    G.PartsAreToken(c, digits, n.fraction, n.exponent, rest);
  }

  lemma MagnitudeIs(n: G.Number)
    requires IsNumber(n)
    ensures G.NumberText(n) != "" && (G.NumberText(n)[0] == '-' <==> n.minus)
    ensures Magnitude(G.NumberText(n)) == n.digits + (n.fraction + n.exponent)
  {
    var unsigned := n.digits + (n.fraction + n.exponent);
    if n.minus {
      assert ("-" + unsigned)[1..] == unsigned;
    } else {
      assert "" + unsigned == unsigned && unsigned[0] == n.digits[0];
    }
  }

  lemma NotAllDigits(n: G.Number)
    requires IsNumber(n) && (n.fraction != "" || n.exponent != "")
    ensures !AllDigits(n.digits + (n.fraction + n.exponent))
  {
    var tail := n.fraction + n.exponent;
    assert (n.digits + tail)[|n.digits|] == tail[0];
    assert !IsDigit(tail[0]) by {
      if n.fraction == "" { assert tail == n.exponent; } else { assert tail[0] == n.fraction[0]; }
    }
  }

  lemma IntegerIsDecoded(n: G.Number)
    requires IsNumber(n) && n.fraction == "" && n.exponent == "" && G.NumberText(n) != ""
    ensures var v := DecimalValue(n.digits);
      DecodeInteger(G.NumberText(n))
        == if !IsInteger(n) then None
           else Some(if n.minus then Int(0 - v) else if v <= 0x7FFF_FFFF then Int(v) else UInt(v))
  {
    MagnitudeIs(n);
    assert n.digits + ("" + "") == n.digits;
    DecodeIsExact(G.NumberText(n));
  }

  lemma NumberIsDecoded(n: G.Number, toDouble: string -> Option<nat>)
    requires IsNumber(n)
    ensures G.NumberText(n) != "" && DecodeNumberToken(G.NumberText(n), toDouble) == NumberValue(n, toDouble)
  {
    MagnitudeIs(n);
    if n.fraction == "" && n.exponent == "" {
      IntegerIsDecoded(n);
    } else {
      NotAllDigits(n);
      DecodeIsExact(G.NumberText(n));
    }
  }

  lemma {:induction false} DigitsOf(s: string) returns (digits: string)
    ensures AllDigits(digits) && s == digits + SkipDigits(s) && (SkipDigits(s) != "" ==> !IsDigit(SkipDigits(s)[0]))
    ensures s != "" && IsDigit(s[0]) ==> digits != ""
  {
    if s != "" && IsDigit(s[0]) {
      var more := DigitsOf(s[1..]);
      digits := [s[0]] + more;
      assert s == [s[0]] + s[1..];
    } else {
      digits := "";
      assert "" + s == s;
    }
  }

  lemma FractionOf(s: string) returns (fraction: string)
    ensures IsFraction(fraction) && s == fraction + FractionRest(s)
    ensures fraction == "" ==> s == "" || s[0] != '.'
    ensures fraction != "" && FractionRest(s) != "" ==> !IsDigit(FractionRest(s)[0])
  {
    if s != "" && s[0] == '.' {
      var digits := DigitsOf(s[1..]);
      fraction := "." + digits;
      assert s == "." + s[1..];
    } else {
      fraction := "";
      assert "" + s == s;
    }
  }

  lemma ExponentDigits(s: string) returns (exponent: string)
    requires s != "" && (s[0] == 'e' || s[0] == 'E') && !IsSigned(s[1..])
    ensures var rest := SkipDigits(s[1..]);
      && exponent != "" && IsExponent(exponent) && s == exponent + rest && (rest != "" ==> !IsDigit(rest[0]))
      && (|exponent| == 1 && rest != "" ==> rest[0] != '+' && rest[0] != '-')
  {
    var digits := DigitsOf(s[1..]);
    exponent := [s[0]] + digits;
    assert exponent[1..] == digits;
    assert s == [s[0]] + s[1..];
    assert digits == "" ==> SkipDigits(s[1..]) == s[1..];
  }

  lemma SignedDigits(s: string) returns (exponent: string)
    requires s != "" && (s[0] == 'e' || s[0] == 'E') && IsSigned(s[1..])
    ensures var rest := SkipDigits(s[2..]);
      && |exponent| > 1 && IsExponent(exponent) && s == exponent + rest && (rest != "" ==> !IsDigit(rest[0]))
  {
    var digits := DigitsOf(s[2..]);
    exponent := s[..2] + digits;
    assert exponent[1..][0] == s[1] && exponent[2..] == digits;
    assert s == s[..2] + s[2..];
  }

  lemma ExponentOf(s: string) returns (exponent: string)
    ensures var rest := ExponentRest(s);
      && IsExponent(exponent) && s == exponent + rest
      && (exponent == "" && rest != "" ==> rest[0] != 'e' && rest[0] != 'E')
      && (exponent != "" && rest != "" ==> !IsDigit(rest[0]))
      && (|exponent| == 1 && rest != "" ==> rest[0] != '+' && rest[0] != '-')
  {
    if s != "" && (s[0] == 'e' || s[0] == 'E') {
      if IsSigned(s[1..]) {
        exponent := SignedDigits(s);
        assert s[1..][1..] == s[2..];
      } else {
        exponent := ExponentDigits(s);
      }
    } else {
      exponent := "";
      assert "" + s == s;
    }
  }

  lemma ThreePartsOf(t: string) returns (digits: string, fraction: string, exponent: string)
    ensures var rest := NumberRest(t);
      && AllDigits(digits) && IsFraction(fraction) && IsExponent(exponent)
      && t == digits + (fraction + (exponent + rest))
      && Stops(G.Number(true, digits, fraction, exponent), rest)
    ensures t != "" && IsDigit(t[0]) ==> digits != ""
  {
    var a := SkipDigits(t);
    digits := DigitsOf(t);
    fraction := FractionOf(a);
    exponent := ExponentOf(FractionRest(a));
    assert a == fraction + (exponent + NumberRest(t));
  }

  lemma FiveParts(a: string, b: string, c: string, d: string, e: string)
    ensures (a + (b + (c + d))) + e == a + (b + (c + (d + e)))
  {
  }

  lemma SixParts(x: string, b: string, c: string, d: string, e: string)
    ensures ("" + ((x + b) + (c + d))) + e == x + (b + (c + (d + e)))
  {
  }

  lemma NumberFrom(c: char, digits: string, fraction: string, exponent: string, rest: string) returns (n: G.Number)
    requires AllDigits(digits) && IsFraction(fraction) && IsExponent(exponent) && (IsDigit(c) || c == '-')
    requires Stops(G.Number(true, digits, fraction, exponent), rest)
    ensures IsNumber(n) && Stops(n, rest)
    ensures G.NumberText(n) + rest == [c] + (digits + (fraction + (exponent + rest)))
  {
    if c == '-' {
      n := G.Number(true, digits, fraction, exponent);
      FiveParts("-", digits, fraction, exponent, rest);
    } else {
      n := G.Number(false, [c] + digits, fraction, exponent);
      SixParts([c], digits, fraction, exponent, rest);
    }
  }

  /** A number token is such a number. */
  lemma NumberOf(t: string) returns (n: G.Number)
    requires t != "" && (IsDigit(t[0]) || t[0] == '-')
    ensures var rest := NumberRest(t[1..]); IsNumber(n) && Stops(n, rest) && t == G.NumberText(n) + rest
  {
    var digits, fraction, exponent := ThreePartsOf(t[1..]);
    n := NumberFrom(t[0], digits, fraction, exponent, NumberRest(t[1..]));
    assert t == [t[0]] + t[1..];
  }

  // Literals.

  /** What may stand between the quotes of a token: any characters, with one behind each
      backslash, and no quote that is not escaped. */
  predicate Scans(body: string) {
    if body == "" then true
    else if body[0] == '\\' then |body| > 1 && Scans(body[2..])
    else body[0] != '"' && Scans(body[1..])
  }

  lemma {:induction false} BodyIsPassed(body: string)
    requires Scans(body)
    ensures IsPassed(body)
    decreases |body|
  {
    if body == "" {
      forall t: string ensures ScanString("" + t) == ScanString(t) {
        assert "" + t == t;
      }
    } else if body[0] == '\\' {
      EscapePassed(body[1]);
      BodyIsPassed(body[2..]);
      PassedConcat(['\\', body[1]], body[2..]);
      assert body == ['\\', body[1]] + body[2..];
    } else {
      PlainPassed(body[0]);
      BodyIsPassed(body[1..]);
      PassedConcat([body[0]], body[1..]);
      assert body == [body[0]] + body[1..];
    }
  }

  lemma EscapeInFront(s: string, more: string, rest: string)
    requires |s| > 1 && s[0] == '\\' && Scans(more) && s[2..] == more + rest
    ensures Scans(s[..2] + more) && s == (s[..2] + more) + rest
  {
    assert (s[..2] + more)[2..] == more;
    assert s == s[..2] + s[2..];
  }

  lemma PlainInFront(s: string, more: string, rest: string)
    requires s != "" && s[0] != '\\' && s[0] != '"' && Scans(more) && s[1..] == more + rest
    ensures Scans([s[0]] + more) && s == ([s[0]] + more) + rest
  {
    assert ([s[0]] + more)[1..] == more;
    assert s == [s[0]] + s[1..];
  }

  lemma {:induction false} BodyOf(s: string, rest: string) returns (body: string)
    requires ScanString(s) == (true, rest)
    ensures Scans(body) && s == body + ("\"" + rest)
    decreases |s|
  {
    if s[0] == '\\' {
      body := BodyOf(s[2..], rest);
      EscapeInFront(s, body, "\"" + rest);
      body := s[..2] + body;
    } else if s[0] == '"' {
      body := "";
      assert s == "\"" + s[1..];
    } else {
      body := BodyOf(s[1..], rest);
      PlainInFront(s, body, "\"" + rest);
      body := [s[0]] + body;
    }
  }

  lemma {:induction false} HexDigitsOf(digits: string, acc: nat)
    requires HexFold(acc, digits).Some?
    ensures forall i :: 0 <= i < |digits| ==> HexValue(digits[i]).Some?
    decreases |digits|
  {
    if digits != "" { HexDigitsOf(digits[1..], acc * 16 + HexValue(digits[0]).value); }
  }

  lemma EscapeOf(s: string) returns (digits: string)
    requires DecodeUnicodeEscapeSequence(s).Some?
    ensures digits == s[..4] && G.IsHex4(digits) && G.Hex4(digits) == DecodeUnicodeEscapeSequence(s).value
  {
    digits := s[..4];
    HexDigitsOf(digits, 0);
    G.Hex4Folds(digits, s[4..]);
    assert digits + s[4..] == s;
  }

  lemma {:induction false} ScansOn(a: string, b: string)
    requires Scans(a + b) && forall i :: 0 <= i < |a| ==> a[i] != '\\'
    ensures Scans(b)
    decreases |a|
  {
    if a == "" {
      assert a + b == b;
    } else {
      assert (a + b)[1..] == a[1..] + b;
      ScansOn(a[1..], b);
    }
  }

  lemma ShortOf(body: string) returns (c: G.Char)
    requires |body| > 1 && body[0] == '\\' && body[1] != 'u' && Unescape(body).Some?
    ensures G.IsScanned(c) && !c.Escaped? && G.CharText(c) == body[..2] && Unescape(body[2..]).Some?
  {
    c := G.Short(body[1]);
    G.ShortIs(body[1]);
    assert body[..2] == ['\\', body[1]];
  }

  /** The escape at the start of a body that decodes. */
  lemma HexOf(body: string) returns (digits: string)
    requires |body| > 1 && body[0] == '\\' && body[1] == 'u' && Unescape(body).Some?
    ensures |body| >= 6 && digits == body[2..6] && G.IsHex4(digits) && "\\u" + digits == body[..6]
    ensures !G.IsHigh(G.Escaped(digits)) ==> Unescape(body[6..]).Some?
  {
    var s := body[2..];
    digits := EscapeOf(s);
    assert digits == body[2..6] && "\\u" + digits == body[..6];
    if !G.IsHigh(G.Escaped(digits)) { assert DecodeUnicodeCodePoint(s) == Some((G.Hex4(digits), s[4..])); }
    assert s[4..] == body[6..];
  }

  /** The second half. */
  lemma LowOf(body: string, high: string) returns (low: string)
    requires |body| > 1 && body[0] == '\\' && body[1] == 'u' && Unescape(body).Some?
    requires |body| >= 6 && high == body[2..6] && G.IsHigh(G.Escaped(high)) && "\\u" + high == body[..6]
    ensures |body| >= 12 && G.IsHex4(low) && "\\u" + low == body[6..12] && Unescape(body[12..]).Some?
  {
    var s := body[2..];
    G.Hex4Folds(high, s[4..]);
    assert high + s[4..] == s;
    assert DecodeUnicodeCodePoint(s).Some?;
    low := EscapeOf(s[6..]);
    assert s[6..] == body[8..] && "\\u" + low == body[6..12] && s[10..] == body[12..];
  }

  lemma ScansPastHex(body: string, digits: string)
    requires |body| >= 6 && body[0] == '\\' && Scans(body) && G.IsHex4(digits) && digits == body[2..6]
    ensures Scans(body[6..])
  {
    assert body[2..] == digits + body[6..];
    ScansOn(digits, body[6..]);
  }

  /** One more character in front. */
  lemma CharInFront(c: G.Char, chars: seq<G.Char>, body: string, n: nat)
    requires G.IsScanned(c) && !G.IsHigh(c) && G.AreScanned(chars) && G.Paired(chars)
    requires n <= |body| && G.CharText(c) == body[..n] && G.CharsText(chars) == body[n..]
    ensures var more := [c] + chars; G.AreScanned(more) && G.Paired(more) && G.CharsText(more) == body
  {
    assert ([c] + chars)[1..] == chars;
    assert body == body[..n] + body[n..];
  }

  lemma PairInFront(high: string, low: string, chars: seq<G.Char>, body: string)
    requires |body| >= 12 && G.IsHigh(G.Escaped(high)) && G.IsHex4(low) && G.AreScanned(chars) && G.Paired(chars)
    requires "\\u" + high == body[..6] && "\\u" + low == body[6..12] && G.CharsText(chars) == body[12..]
    ensures var more := [G.Escaped(high), G.Escaped(low)] + chars;
      G.AreScanned(more) && G.Paired(more) && G.CharsText(more) == body
  {
    var more := [G.Escaped(high), G.Escaped(low)] + chars;
    assert more[2..] == chars;
    G.PairText(more);
    assert body == body[..6] + (body[6..12] + body[12..]);
  }

  /** A body that decodes is a sequence of characters whose escapes are paired. */
  lemma {:induction false} CharsOf(body: string) returns (chars: seq<G.Char>)
    requires Scans(body) && Unescape(body).Some?
    ensures G.AreScanned(chars) && G.Paired(chars) && G.CharsText(chars) == body
    decreases |body|
  {
    if body == "" {
      chars := [];
    } else if body[0] == '\\' && body[1] == 'u' {
      var digits := HexOf(body);
      ScansPastHex(body, digits);
      if G.IsHigh(G.Escaped(digits)) {
        var low := LowOf(body, digits);
        assert body[6..][..6] == body[6..12] && body[6..][6..] == body[12..];
        ScansPastHex(body[6..], low);
        var more := CharsOf(body[12..]);
        PairInFront(digits, low, more, body);
        chars := [G.Escaped(digits), G.Escaped(low)] + more;
      } else {
        var more := CharsOf(body[6..]);
        CharInFront(G.Escaped(digits), more, body, 6);
        chars := [G.Escaped(digits)] + more;
      }
    } else if body[0] == '\\' {
      var c := ShortOf(body);
      var more := CharsOf(body[2..]);
      CharInFront(c, more, body, 2);
      chars := [c] + more;
    } else {
      var more := CharsOf(body[1..]);
      CharInFront(G.Raw(body[0]), more, body, 1);
      chars := [G.Raw(body[0])] + more;
    }
  }

  // Tokens that are not looked at.

  /** Any token but a comment and a closing brace: a literal, a number, a word, a slash with a
      character that makes no comment of it, or any other single character. */
  datatype Junk =
    | JunkLiteral(body: string)
    | JunkNumber(n: G.Number)
    | JunkWord(word: string)
    | JunkSlash(c: char)
    | JunkChar(c: char)

  predicate IsWord(word: string) {
    word == "true" || word == "false" || word == "null"
  }

  predicate IsJunk(j: Junk, rest: string) {
    match j
    case JunkLiteral(body) => Scans(body)
    case JunkNumber(n) => IsNumber(n) && Stops(n, rest)
    case JunkWord(word) => IsWord(word)
    case JunkSlash(c) => c != '*' && c != '/'
    case JunkChar(c) =>
      && !IsBlank(Space(c)) && c != '"' && c != '/' && c != '}' && c != '-' && !IsDigit(c)
      && !("true" <= [c] + rest) && !("false" <= [c] + rest) && !("null" <= [c] + rest)
  }

  function JunkText(j: Junk, rest: string): string {
    match j
    case JunkLiteral(body) => "\"" + (body + ("\"" + rest))
    case JunkNumber(n) => G.NumberText(n) + rest
    case JunkWord(word) => word + rest
    case JunkSlash(c) => "/" + ([c] + rest)
    case JunkChar(c) => [c] + rest
  }

  lemma NoCommentSkipped(s: string)
    requires ReadToken(s).kind != CommentToken
    ensures ReadPastComments(s) == ReadToken(s)
  {
  }

  lemma WordIsToken(word: string, rest: string)
    requires IsWord(word)
    ensures var t := ReadPastComments(word + rest);
      t == Token(if word == "true" then TrueToken else if word == "false" then FalseToken else NullToken, word, rest)
  {
    if word == "true" {
      WordToken('t', "rue", rest);
      assert ['t'] + "rue" == "true";
    } else if word == "false" {
      WordToken('f', "alse", rest);
      assert ['f'] + "alse" == "false";
    } else {
      WordToken('n', "ull", rest);
      assert ['n'] + "ull" == "null";
    }
  }

  lemma SlashIsToken(c: char, rest: string)
    requires c != '*' && c != '/'
    ensures ReadPastComments("/" + ([c] + rest)).rest == rest
    ensures ReadPastComments("/" + ([c] + rest)).kind == ErrorToken
  {
    PlainToken('/', [c] + rest);
    assert ([c] + rest)[1..] == rest;
    NoCommentSkipped("/" + ([c] + rest));
  }

  lemma NoWordThere(c: char, word: string, rest: string)
    requires !([c] + word <= [c] + rest)
    ensures ScanWord(rest, word) == (false, rest)
  {
    assert word <= rest ==> [c] + word <= [c] + rest;
  }

  /** A letter that starts none of the words is an error by itself. */
  lemma LetterIsError(c: char, word: string, rest: string)
    requires (c, word) in {('t', "rue"), ('f', "alse"), ('n', "ull")} && !([c] + word <= [c] + rest)
    ensures KindAt(c, rest) == (ErrorToken, rest)
  {
    NoWordThere(c, word, rest);
  }

  lemma CharKind(c: char, rest: string)
    requires IsJunk(JunkChar(c), rest)
    ensures KindAt(c, rest).0 != ObjectEnd && KindAt(c, rest).0 != CommentToken && KindAt(c, rest).1 == rest
  {
    if c == 't' {
      assert ['t'] + "rue" == "true";
      LetterIsError(c, "rue", rest);
    } else if c == 'f' {
      assert ['f'] + "alse" == "false";
      LetterIsError(c, "alse", rest);
    } else if c == 'n' {
      assert ['n'] + "ull" == "null";
      LetterIsError(c, "ull", rest);
    }
  }

  lemma CharIsToken(c: char, rest: string)
    requires IsJunk(JunkChar(c), rest)
    ensures ReadPastComments([c] + rest).rest == rest && ReadPastComments([c] + rest).kind != ObjectEnd
  {
    PlainToken(c, rest);
    CharKind(c, rest);
    NoCommentSkipped([c] + rest);
  }

  lemma JunkIsToken(j: Junk, rest: string)
    requires IsJunk(j, rest)
    ensures var t := ReadPastComments(JunkText(j, rest)); t.rest == rest && t.kind != ObjectEnd
  {
    match j
    case JunkLiteral(body) =>
      BodyIsPassed(body);
      G.PassedIsToken(body, rest);
    case JunkNumber(n) => NumberIsToken(n, rest);
    case JunkWord(word) => WordIsToken(word, rest);
    case JunkSlash(c) => SlashIsToken(c, rest);
    case JunkChar(c) => CharIsToken(c, rest);
  }

  lemma {:induction false} OpenLiteral(s: string)
    requires !ScanString(s).0
    ensures ScanString(s).1 == ""
    decreases |s|
  {
    if s != "" {
      if s[0] == '\\' {
        if |s| > 1 { OpenLiteral(s[2..]); }
      } else {
        OpenLiteral(s[1..]);
      }
    }
  }

  lemma {:induction false} OpenBlock(s: string)
    requires !ScanCStyle(s).0
    ensures ScanCStyle(s).1 == ""
  {
    if |s| >= 2 { OpenBlock(s[1..]); }
  }

  lemma LiteralJunk(t: string) returns (j: Junk)
    requires t != "" && t[0] == '"' && ScanString(t[1..]).1 != ""
    ensures var rest := ScanString(t[1..]).1; IsJunk(j, rest) && t == JunkText(j, rest)
  {
    if !ScanString(t[1..]).0 { OpenLiteral(t[1..]); }
    var body := BodyOf(t[1..], ScanString(t[1..]).1);
    j := JunkLiteral(body);
    assert t == "\"" + t[1..];
  }

  lemma SlashJunk(t: string) returns (j: Junk)
    requires t != "" && t[0] == '/' && !ScanComment(t[1..]).0 && ScanComment(t[1..]).1 != ""
    ensures var rest := ScanComment(t[1..]).1; IsJunk(j, rest) && t == JunkText(j, rest)
  {
    var u := t[1..];
    if u[0] == '*' { OpenBlock(u[1..]); }
    j := JunkSlash(u[0]);
    assert t == "/" + u && u == [u[0]] + u[1..];
  }

  lemma WordJunk(t: string, word: string) returns (j: Junk)
    requires t != "" && (t[0], word) in {('t', "rue"), ('f', "alse"), ('n', "ull")}
    ensures var rest := KindAt(t[0], t[1..]).1; IsJunk(j, rest) && t == JunkText(j, rest)
  {
    var u := t[1..];
    assert t == [t[0]] + u;
    assert ['t'] + "rue" == "true" && ['f'] + "alse" == "false" && ['n'] + "ull" == "null";
    if word <= u {
      j := JunkWord([t[0]] + word);
      assert u == word + u[|word|..];
    } else {
      LetterIsError(t[0], word, u);
      j := JunkChar(t[0]);
    }
  }

  lemma OtherJunk(t: string) returns (j: Junk)
    requires t != "" && !IsSpace(t[0]) && t[0] != '"' && t[0] != '/' && t[0] != '}'
    ensures var rest := KindAt(t[0], t[1..]).1; IsJunk(j, rest) && t == JunkText(j, rest)
  {
    var c := t[0];
    assert t == [c] + t[1..];
    if IsDigit(c) || c == '-' {
      var n := NumberOf(t);
      j := JunkNumber(n);
    } else if c == 't' {
      j := WordJunk(t, "rue");
    } else if c == 'f' {
      j := WordJunk(t, "alse");
    } else if c == 'n' {
      j := WordJunk(t, "ull");
    } else {
      j := JunkChar(c);
    }
  }

  lemma TokenIs(t: string)
    requires t != "" && !IsSpace(t[0])
    ensures ReadToken(t).kind == KindAt(t[0], t[1..]).0 && ReadToken(t).rest == KindAt(t[0], t[1..]).1
  {
    assert ReadToken(t) == TokenAt(t);
  }

  /** Every token but a comment and a closing brace, when something follows it. */
  lemma JunkOf(t: string) returns (j: Junk)
    requires t != "" && !IsSpace(t[0]) && ReadToken(t).kind != CommentToken && ReadToken(t).kind != ObjectEnd
    requires ReadToken(t).rest != ""
    ensures var rest := ReadToken(t).rest; IsJunk(j, rest) && t == JunkText(j, rest)
  {
    TokenIs(t);
    if t[0] == '"' {
      j := LiteralJunk(t);
    } else if t[0] == '/' {
      j := SlashJunk(t);
    } else {
      j := OtherJunk(t);
    }
  }

  // Texts.

  /** A value as it may be written; `space` stands between the brackets of an empty array. */
  datatype Tree =
    | NullTree
    | BoolTree(b: bool)
    | NumberTree(n: G.Number)
    | StringTree(chars: seq<G.Char>)
    | ArrayTree(space: string, items: seq<Slot>)
    | ObjectTree(fields: seq<Field>, tail: seq<Blank>)

  datatype Slot = Slot(before: seq<Blank>, tree: Tree, after: seq<Blank>)

  /** What ends a member: the brace of its object, a comma, or, behind a comment, any token
      that is swallowed. */
  datatype Next = Closes | Comma | Swallows(junk: Junk)

  datatype Field = Field(before: seq<Blank>, name: seq<G.Char>, between: string, slot: Slot, next: Next)

  /** The text, followed by `rest`. */
  function TreeText(t: Tree, rest: string): string
    decreases t, 0
  {
    match t
    case NullTree => "null" + rest
    case BoolTree(b) => (if b then "true" else "false") + rest
    case NumberTree(n) => G.NumberText(n) + rest
    case StringTree(chars) => G.LiteralText(chars, rest)
    case ArrayTree(space, items) => "[" + if items == [] then space + ("]" + rest) else SlotsText(items, rest)
    case ObjectTree(fields, tail) => "{" + FieldsText(fields, tail, rest)
  }

  function SlotText(s: Slot, rest: string): string
    decreases s
  {
    GapText(s.before, TreeText(s.tree, GapText(s.after, rest)))
  }

  function SlotsText(items: seq<Slot>, rest: string): string
    requires items != []
    decreases items
  {
    SlotText(items[0], if |items| == 1 then "]" + rest else "," + SlotsText(items[1..], rest))
  }

  function FieldText(f: Field, s: string): string {
    GapText(f.before, G.LiteralText(f.name, f.between + (":" + s)))
  }

  function NextText(next: Next, more: string, rest: string): string {
    match next
    case Closes => "}" + rest
    case Comma => "," + more
    case Swallows(j) => JunkText(j, more)
  }

  function FieldsText(fields: seq<Field>, tail: seq<Blank>, rest: string): string
    decreases fields
  {
    if fields == [] then GapText(tail, "}" + rest)
    else
      var f := fields[0];
      FieldText(f, SlotText(f.slot, NextText(f.next, FieldsText(fields[1..], tail, rest), rest)))
  }

  predicate AllSpaces(gap: seq<Blank>) {
    forall i :: 0 <= i < |gap| ==> gap[i].Space?
  }

  /** Which trees the reader accepts, followed by `rest`. */
  predicate IsTree(t: Tree, rest: string, toDouble: string -> Option<nat>)
    decreases t, 0
  {
    match t
    case NumberTree(n) => IsNumber(n) && Stops(n, rest) && NumberValue(n, toDouble).Some?
    case StringTree(chars) => G.AreScanned(chars) && G.Paired(chars)
    case ArrayTree(space, items) => G.AreSpaces(space) && AreSlots(items, rest, toDouble)
    case ObjectTree(fields, tail) => AreBlanks(tail) && AreFields(fields, tail, "", rest, toDouble)
    case _ => true
  }

  predicate IsSlot(s: Slot, rest: string, toDouble: string -> Option<nat>)
    decreases s
  {
    AreBlanks(s.before) && AreBlanks(s.after) && IsTree(s.tree, GapText(s.after, rest), toDouble)
  }

  predicate AreSlots(items: seq<Slot>, rest: string, toDouble: string -> Option<nat>)
    decreases items
  {
    items != [] ==>
      && IsSlot(items[0], if |items| == 1 then "]" + rest else "," + SlotsText(items[1..], rest), toDouble)
      && AreSlots(items[1..], rest, toDouble)
  }

  /** What stands before the end of a member: spaces before a comma, and a comment before a
      token that is swallowed. */
  predicate IsNext(next: Next, gap: seq<Blank>, more: string, last: bool) {
    match next
    case Closes => last
    case Comma => AllSpaces(gap)
    case Swallows(j) => !AllSpaces(gap) && IsJunk(j, more)
  }

  /** Behind a comma or a swallowed token another member follows, or, if the last name was
      empty, the end of the object. */
  predicate AreFields(fields: seq<Field>, tail: seq<Blank>, last: string, rest: string,
      toDouble: string -> Option<nat>)
    decreases fields
  {
    if fields == [] then last == ""
    else
      var f, more := fields[0], FieldsText(fields[1..], tail, rest);
      && AreBlanks(f.before) && G.AreScanned(f.name) && G.Paired(f.name) && G.AreSpaces(f.between)
      && IsSlot(f.slot, NextText(f.next, more, rest), toDouble)
      && IsNext(f.next, f.slot.after, more, |fields| == 1 && tail == [])
      && (!f.next.Closes? ==> AreFields(fields[1..], tail, G.CharsBytes(f.name), rest, toDouble))
  }

  function Decoded(chars: seq<G.Char>): string {
    if G.AreScanned(chars) && G.Paired(chars) then G.CharsBytes(chars) else ""
  }

  /** The value; of members with one name the last one counts. */
  function TreeValue(t: Tree, toDouble: string -> Option<nat>): Value
    decreases t, 0
  {
    match t
    case NullTree => Null
    case BoolTree(b) => Bool(b)
    case NumberTree(n) =>
      if IsNumber(n) && NumberValue(n, toDouble).Some? then NumberValue(n, toDouble).value else Null
    case StringTree(chars) => Str(Decoded(chars))
    case ArrayTree(_, items) => Array(SlotValues(items, toDouble))
    case ObjectTree(fields, _) => Object(FieldValues(fields, [], toDouble))
  }

  function SlotValues(items: seq<Slot>, toDouble: string -> Option<nat>): seq<Value>
    decreases items
  {
    if items == [] then [] else [TreeValue(items[0].tree, toDouble)] + SlotValues(items[1..], toDouble)
  }

  function FieldValues(fields: seq<Field>, done: seq<Member>, toDouble: string -> Option<nat>): seq<Member>
    decreases fields
  {
    if fields == [] then done
    else
      var f := fields[0];
      FieldValues(fields[1..], Put(done, Decoded(f.name), TreeValue(f.slot.tree, toDouble)), toDouble)
  }

  function TreeDepth(t: Tree): (n: nat)
    ensures n > 0
    decreases t, 0
  {
    match t
    case ArrayTree(_, items) => 1 + SlotsDepth(items)
    case ObjectTree(fields, _) => 1 + FieldsDepth(fields)
    case _ => 1
  }

  function SlotsDepth(items: seq<Slot>): nat
    decreases items
  {
    if items == [] then 0 else Max(TreeDepth(items[0].tree), SlotsDepth(items[1..]))
  }

  function FieldsDepth(fields: seq<Field>): nat
    decreases fields
  {
    if fields == [] then 0 else Max(TreeDepth(fields[0].slot.tree), FieldsDepth(fields[1..]))
  }

  // Such texts are read.

  lemma ValueBehindGap(gap: seq<Blank>, s: string, h: nat, toDouble: string -> Option<nat>)
    requires AreBlanks(gap)
    ensures ReadValue(GapText(gap, s), h, toDouble) == ReadValue(s, h, toDouble)
  {
    GapIsSkipped(gap, s);
  }

  lemma {:induction false} SpacesThenToken(gap: seq<Blank>, s: string)
    requires AreBlanks(gap)
    ensures AllSpaces(gap) ==> ReadToken(GapText(gap, s)) == ReadToken(s)
    ensures !AllSpaces(gap) ==> ReadToken(GapText(gap, s)).kind == CommentToken
  {
    if gap != [] {
      var more := GapText(gap[1..], s);
      SpacesThenToken(gap[1..], s);
      if gap[0].Space? {
        SpaceIsSkipped(gap[0].c, more);
      } else {
        BlankIsSkipped(gap[0], more);
      }
    }
  }

  lemma PastComment(s: string)
    requires ReadToken(s).kind == CommentToken
    ensures ReadPastComments(ReadToken(s).rest) == ReadPastComments(s)
  {
  }

  /** Behind a member. */
  lemma NextIs(next: Next, gap: seq<Blank>, more: string, last: bool, rest: string, members: seq<Member>, name: string,
      h: nat, toDouble: string -> Option<nat>)
    requires AreBlanks(gap) && IsNext(next, gap, more, last)
    ensures AfterMember(GapText(gap, NextText(next, more, rest)), members, name, h, toDouble)
         == if next.Closes? then Parsed(Object(members), rest) else ReadMembers(more, members, name, h, toDouble)
  {
    var x := NextText(next, more, rest);
    var s := GapText(gap, x);
    SpacesThenToken(gap, x);
    GapIsSkipped(gap, x);
    if !AllSpaces(gap) { PastComment(s); }
    match next
    case Closes => PunctuationToken('}', rest);
    case Comma => PunctuationToken(',', more);
    case Swallows(j) => JunkIsToken(j, more);
  }

  lemma WordIsRead(word: string, rest: string, h: nat, toDouble: string -> Option<nat>)
    requires IsWord(word) && h <= STACK_LIMIT
    ensures ReadValue(word + rest, h, toDouble)
         == Parsed(if word == "true" then Bool(true) else if word == "false" then Bool(false) else Null, rest)
  {
    WordIsToken(word, rest);
    var t := ReadPastComments(word + rest);
    ScalarIsRead(word + rest, t, h, toDouble);
  }

  lemma NumberIsRead(n: G.Number, rest: string, h: nat, toDouble: string -> Option<nat>)
    requires IsNumber(n) && Stops(n, rest) && h <= STACK_LIMIT
    ensures ReadValue(G.NumberText(n) + rest, h, toDouble) == Reading(NumberValue(n, toDouble), rest)
  {
    NumberIsToken(n, rest);
    NumberIsDecoded(n, toDouble);
    ScalarIsRead(G.NumberText(n) + rest, Token(NumberToken, G.NumberText(n), rest), h, toDouble);
  }

  lemma LiteralIsRead(chars: seq<G.Char>, rest: string, h: nat, toDouble: string -> Option<nat>)
    requires G.AreScanned(chars) && G.Paired(chars) && h <= STACK_LIMIT
    ensures ReadValue(G.LiteralText(chars, rest), h, toDouble) == Parsed(Str(G.CharsBytes(chars)), rest)
  {
    G.LiteralIsToken(chars, rest);
    var text := "\"" + G.CharsText(chars) + "\"";
    ScalarIsRead(G.LiteralText(chars, rest), Token(StringToken, text, rest), h, toDouble);
  }

  lemma ScalarTreeIsRead(t: Tree, rest: string, h: nat, toDouble: string -> Option<nat>)
    requires IsTree(t, rest, toDouble) && !t.ArrayTree? && !t.ObjectTree? && h <= STACK_LIMIT
    ensures ReadValue(TreeText(t, rest), h, toDouble) == Parsed(TreeValue(t, toDouble), rest)
  {
    match t
    case NullTree => WordIsRead("null", rest, h, toDouble);
    case BoolTree(b) => WordIsRead(if b then "true" else "false", rest, h, toDouble);
    case NumberTree(n) => NumberIsRead(n, rest, h, toDouble);
    case StringTree(chars) => LiteralIsRead(chars, rest, h, toDouble);
  }

  lemma SpacesChangeNothing(s: string, h: nat, toDouble: string -> Option<nat>)
    ensures ReadPastComments(SkipSpaces(s)) == ReadPastComments(s)
    ensures ReadValue(SkipSpaces(s), h, toDouble) == ReadValue(s, h, toDouble)
  {
    SpacesBeforeToken(s);
  }

  /** An array whose first item is read is not empty. */
  lemma ArrayHasItems(s: string, h: nat, toDouble: string -> Option<nat>)
    requires ReadValue(s, h + 1, toDouble).Parsed?
    ensures ReadArray(s, h, toDouble) == ReadItems(s, [], h, toDouble)
  {
    var inside := SkipSpaces(s);
    SpacesChangeNothing(s, h + 1, toDouble);
    if inside != "" && inside[0] == ']' {
      assert inside == [']'] + inside[1..];
      PunctuationToken(']', inside[1..]);
    }
  }

  lemma SlotIsRead(s: Slot, f: string, h: nat, toDouble: string -> Option<nat>, v: Value)
    requires AreBlanks(s.before)
    requires ReadValue(TreeText(s.tree, GapText(s.after, f)), h, toDouble) == Parsed(v, GapText(s.after, f))
    ensures ReadValue(SlotText(s, f), h, toDouble) == Parsed(v, GapText(s.after, f))
  {
    ValueBehindGap(s.before, TreeText(s.tree, GapText(s.after, f)), h, toDouble);
  }

  lemma ItemGoesOn(s: string, gap: seq<Blank>, more: string, done: seq<Value>, v: Value, h: nat,
      toDouble: string -> Option<nat>)
    requires AreBlanks(gap)
    ensures ReadValue(s, h + 1, toDouble) == Parsed(v, GapText(gap, "]" + more))
        ==> ReadItems(s, done, h, toDouble) == Parsed(Array(done + [v]), more)
    ensures ReadValue(s, h + 1, toDouble) == Parsed(v, GapText(gap, "," + more))
        ==> ReadItems(s, done, h, toDouble) == ReadItems(more, done + [v], h, toDouble)
  {
    GapIsSkipped(gap, "]" + more);
    GapIsSkipped(gap, "," + more);
    PunctuationToken(']', more);
    PunctuationToken(',', more);
  }

  lemma FieldBegins(f: Field, s: string, members: seq<Member>, last: string, h: nat, toDouble: string -> Option<nat>)
    requires AreBlanks(f.before) && G.AreScanned(f.name) && G.Paired(f.name) && G.AreSpaces(f.between)
    ensures ReadMembers(FieldText(f, s), members, last, h, toDouble)
         == ReadMember(s, members, G.CharsBytes(f.name), h, toDouble)
  {
    var colon := f.between + (":" + s);
    GapIsSkipped(f.before, G.LiteralText(f.name, colon));
    G.LiteralIsToken(f.name, colon);
    G.SpacesArePassed(f.between, ":" + s);
    PunctuationToken(':', s);
  }

  lemma MemberGoesOn(s: string, members: seq<Member>, name: string, v: Value, after: string, h: nat,
      toDouble: string -> Option<nat>)
    requires ReadValue(s, h + 1, toDouble) == Parsed(v, after)
    ensures ReadMember(s, members, name, h, toDouble) == AfterMember(after, Put(members, name, v), name, h, toDouble)
  {
  }

  lemma NoMoreFields(tail: seq<Blank>, rest: string, members: seq<Member>, h: nat, toDouble: string -> Option<nat>)
    requires AreBlanks(tail)
    ensures ReadMembers(GapText(tail, "}" + rest), members, "", h, toDouble) == Parsed(Object(members), rest)
  {
    GapIsSkipped(tail, "}" + rest);
    PunctuationToken('}', rest);
  }

  /** A text of such a tree is read as its value, when it is nested within the limit. */
  lemma {:induction false} TreeIsRead(t: Tree, rest: string, h: nat, toDouble: string -> Option<nat>)
    requires IsTree(t, rest, toDouble) && h + TreeDepth(t) <= STACK_LIMIT + 1
    ensures ReadValue(TreeText(t, rest), h, toDouble) == Parsed(TreeValue(t, toDouble), rest)
    decreases t, 0
  {
    match t
    case ArrayTree(space, items) =>
      if items == [] {
        G.ArrayBegins(space + ("]" + rest), h, toDouble);
        G.EmptyArray(space, rest, h, toDouble);
      } else {
        G.ArrayBegins(SlotsText(items, rest), h, toDouble);
        SlotsAreRead(items, [], rest, h, toDouble);
        ArrayHasItems(SlotsText(items, rest), h, toDouble);
        assert [] + SlotValues(items, toDouble) == SlotValues(items, toDouble);
      }
    case ObjectTree(fields, tail) =>
      ObjectIsRead(FieldsText(fields, tail, rest), h, toDouble);
      FieldsAreRead(fields, tail, [], "", rest, h, toDouble);
    case _ => ScalarTreeIsRead(t, rest, h, toDouble);
  }

  lemma ValuesInFront(done: seq<Value>, v: Value, more: seq<Value>)
    ensures done + [v] + more == done + ([v] + more) && done + ([v] + []) == done + [v]
  {
  }

  lemma FirstSlot(items: seq<Slot>, f: string, rest: string, h: nat, toDouble: string -> Option<nat>)
    requires items != [] && AreSlots(items, rest, toDouble) && h + SlotsDepth(items) <= STACK_LIMIT
    requires f == if |items| == 1 then "]" + rest else "," + SlotsText(items[1..], rest)
    ensures SlotsText(items, rest) == SlotText(items[0], f) && IsSlot(items[0], f, toDouble)
    ensures h + TreeDepth(items[0].tree) <= STACK_LIMIT && h + SlotsDepth(items[1..]) <= STACK_LIMIT
    ensures AreSlots(items[1..], rest, toDouble)
    ensures SlotValues(items, toDouble) == [TreeValue(items[0].tree, toDouble)] + SlotValues(items[1..], toDouble)
  {
  }

  lemma {:induction false} SlotsAreRead(items: seq<Slot>, done: seq<Value>, rest: string, h: nat,
      toDouble: string -> Option<nat>)
    requires items != [] && AreSlots(items, rest, toDouble) && h + SlotsDepth(items) <= STACK_LIMIT
    ensures ReadValue(SlotsText(items, rest), h + 1, toDouble).Parsed?
    ensures ReadItems(SlotsText(items, rest), done, h, toDouble)
         == Parsed(Array(done + SlotValues(items, toDouble)), rest)
    decreases items
  {
    var s, v, more := items[0], TreeValue(items[0].tree, toDouble), items[1..];
    var f := if more == [] then "]" + rest else "," + SlotsText(more, rest);
    FirstSlot(items, f, rest, h, toDouble);
    TreeIsRead(s.tree, GapText(s.after, f), h + 1, toDouble);
    SlotIsRead(s, f, h + 1, toDouble, v);
    ValuesInFront(done, v, SlotValues(more, toDouble));
    if more == [] {
      ItemGoesOn(SlotText(s, f), s.after, rest, done, v, h, toDouble);
    } else {
      ItemGoesOn(SlotText(s, f), s.after, SlotsText(more, rest), done, v, h, toDouble);
      SlotsAreRead(more, done + [v], rest, h, toDouble);
    }
  }

  lemma {:induction false} FieldsAreRead(fields: seq<Field>, tail: seq<Blank>, done: seq<Member>, last: string,
      rest: string, h: nat, toDouble: string -> Option<nat>)
    requires AreBlanks(tail) && AreFields(fields, tail, last, rest, toDouble) && h + FieldsDepth(fields) <= STACK_LIMIT
    ensures ReadMembers(FieldsText(fields, tail, rest), done, last, h, toDouble)
         == Parsed(Object(FieldValues(fields, done, toDouble)), rest)
    decreases fields
  {
    if fields == [] {
      NoMoreFields(tail, rest, done, h, toDouble);
    } else {
      var f, more := fields[0], FieldsText(fields[1..], tail, rest);
      var x, v, key := NextText(f.next, more, rest), TreeValue(f.slot.tree, toDouble), G.CharsBytes(f.name);
      TreeIsRead(f.slot.tree, GapText(f.slot.after, x), h + 1, toDouble);
      SlotIsRead(f.slot, x, h + 1, toDouble, v);
      FieldBegins(f, SlotText(f.slot, x), done, last, h, toDouble);
      MemberGoesOn(SlotText(f.slot, x), done, key, v, GapText(f.slot.after, x), h, toDouble);
      NextIs(f.next, f.slot.after, more, |fields| == 1 && tail == [], rest, Put(done, key, v), key, h, toDouble);
      if f.next.Closes? {
        assert fields[1..] == [];
      } else {
        FieldsAreRead(fields[1..], tail, Put(done, key, v), key, rest, h, toDouble);
      }
    }
  }

  // No other texts are read.

  lemma {:induction false} TokenHasText(s: string)
    ensures ReadToken(s).kind != EndOfStream ==> ReadToken(s).text != ""
    decreases |s|
  {
    if s != "" {
      assert ReadToken(s) == TokenAt(s);
      if IsSpace(s[0]) { TokenHasText(s[1..]); }
    }
  }

  lemma {:induction false} PastCommentsHasText(s: string)
    ensures ReadPastComments(s).kind != EndOfStream ==> ReadPastComments(s).text != ""
    decreases |s|
  {
    TokenHasText(s);
    if ReadToken(s).kind == CommentToken { PastCommentsHasText(ReadToken(s).rest); }
  }

  lemma {:induction false} GapIsLonger(gap: seq<Blank>, u: string)
    ensures |u| <= |GapText(gap, u)|
  {
    if gap != [] { GapIsLonger(gap[1..], u); }
  }

  /** The gap before a token that is there. */
  lemma TokenBehindGap(s: string) returns (gap: seq<Blank>, u: string)
    requires ReadPastComments(s).kind != EndOfStream
    ensures AreBlanks(gap) && s == GapText(gap, u) && u != "" && !IsSpace(u[0]) && |u| <= |s|
    ensures ReadToken(u) == ReadPastComments(u) == ReadPastComments(s)
  {
    PastCommentsHasText(s);
    gap, u := GapBefore(s);
    GapIsLonger(gap, u);
  }

  lemma KindOf(u: string)
    requires u != "" && !IsSpace(u[0])
    ensures var (kind, rest) := KindAt(u[0], u[1..]);
      ReadToken(u) == Token(kind, u[..|u| - |rest|], rest) && u == [u[0]] + u[1..]
  {
    assert ReadToken(u) == TokenAt(u);
  }

  lemma BeginningOf(u: string, text: string, rest: string)
    requires u == text + rest
    ensures u[..|u| - |rest|] == text
  {
  }

  lemma NumberTextOf(u: string) returns (n: G.Number)
    requires u != "" && !IsSpace(u[0]) && ReadToken(u).kind == NumberToken
    ensures IsNumber(n) && Stops(n, ReadToken(u).rest) && u == G.NumberText(n) + ReadToken(u).rest
    ensures ReadToken(u).text == G.NumberText(n)
  {
    KindOf(u);
    n := NumberOf(u);
    BeginningOf(u, G.NumberText(n), NumberRest(u[1..]));
  }

  lemma NumberTreeOf(u: string, toDouble: string -> Option<nat>, v: Value) returns (t: Tree)
    requires u != "" && !IsSpace(u[0]) && ReadToken(u).kind == NumberToken && ReadToken(u).text != ""
    requires DecodeNumberToken(ReadToken(u).text, toDouble) == Some(v)
    ensures var rest := ReadToken(u).rest;
      u == TreeText(t, rest) && IsTree(t, rest, toDouble) && TreeValue(t, toDouble) == v && TreeDepth(t) == 1
  {
    var n := NumberTextOf(u);
    NumberIsDecoded(n, toDouble);
    t := NumberTree(n);
  }

  lemma StringTreeOf(u: string, toDouble: string -> Option<nat>) returns (chars: seq<G.Char>)
    requires u != "" && !IsSpace(u[0]) && ReadToken(u).kind == StringToken && |ReadToken(u).text| >= 2
    requires var text := ReadToken(u).text; Unescape(text[1..|text| - 1]).Some?
    ensures G.AreScanned(chars) && G.Paired(chars) && u == G.LiteralText(chars, ReadToken(u).rest)
    ensures var text := ReadToken(u).text; Unescape(text[1..|text| - 1]) == Some(G.CharsBytes(chars))
  {
    KindOf(u);
    var rest := ScanString(u[1..]).1;
    var body := BodyOf(u[1..], rest);
    assert u == "\"" + (body + ("\"" + rest));
    var text := u[..|u| - |rest|];
    assert text == "\"" + body + "\"" && text[1..|text| - 1] == body;
    chars := CharsOf(body);
    G.CharsDecode(chars);
  }

  lemma TailOf(u: string, word: string)
    requires u != "" && ScanWord(u[1..], word).0
    ensures u == [u[0]] + word + ScanWord(u[1..], word).1
  {
    assert u == [u[0]] + u[1..];
    assert u[1..] == word + u[1..][|word|..];
  }

  lemma WordTreeOf(u: string) returns (word: string)
    requires u != "" && !IsSpace(u[0])
    requires var k := ReadToken(u).kind; k == TrueToken || k == FalseToken || k == NullToken
    ensures var k := ReadToken(u).kind;
      && word == (if k == TrueToken then "true" else if k == FalseToken then "false" else "null")
      && u == word + ReadToken(u).rest
  {
    KindOf(u);
    if u[0] == 't' {
      TailOf(u, "rue");
      word := "true";
      assert ['t'] + "rue" == word;
    } else if u[0] == 'f' {
      TailOf(u, "alse");
      word := "false";
      assert ['f'] + "alse" == word;
    } else {
      TailOf(u, "ull");
      word := "null";
      assert ['n'] + "ull" == word;
    }
  }

  /** A token that is a value by itself. */
  lemma ScalarOf(u: string, h: nat, toDouble: string -> Option<nat>, v: Value, rest: string) returns (t: Tree)
    requires u != "" && !IsSpace(u[0]) && ReadFrom(ReadToken(u), h, toDouble) == Parsed(v, rest)
    requires ReadToken(u).kind != ArrayBegin && ReadToken(u).kind != ObjectBegin
    ensures u == TreeText(t, rest) && IsTree(t, rest, toDouble) && TreeValue(t, toDouble) == v && TreeDepth(t) == 1
  {
    match ReadToken(u).kind
    case NumberToken => t := NumberTreeOf(u, toDouble, v);
    case StringToken =>
      var chars := StringTreeOf(u, toDouble);
      t := StringTree(chars);
    case TrueToken =>
      var word := WordTreeOf(u);
      t := BoolTree(true);
    case FalseToken =>
      var word := WordTreeOf(u);
      t := BoolTree(false);
    case NullToken =>
      var word := WordTreeOf(u);
      t := NullTree;
    case _ =>
  }

  lemma {:induction false} SpacesBefore(s: string) returns (space: string)
    ensures G.AreSpaces(space) && s == space + SkipSpaces(s)
  {
    if s != "" && IsSpace(s[0]) {
      var more := SpacesBefore(s[1..]);
      space := [s[0]] + more;
      assert s == [s[0]] + s[1..];
    } else {
      space := "";
      assert "" + s == s;
    }
  }

  /** The token behind an item or a member. */
  lemma PunctuationOf(s: string, c: char) returns (gap: seq<Blank>)
    requires IsPunctuation(c) && ReadPastComments(s).kind == PunctuationKind(c)
    ensures AreBlanks(gap) && s == GapText(gap, [c] + ReadPastComments(s).rest)
  {
    var u;
    gap, u := TokenBehindGap(s);
    KindOf(u);
  }

  lemma ItemsAgain(s: string, done: seq<Value>, h: nat, toDouble: string -> Option<nat>)
    ensures ReadItems(SkipSpaces(s), done, h, toDouble) == ReadItems(s, done, h, toDouble)
  {
    SpacesChangeNothing(s, h + 1, toDouble);
  }

  lemma BracketOf(u: string)
    requires u != "" && !IsSpace(u[0])
    ensures ReadToken(u).kind == ArrayBegin ==> u == "[" + u[1..] && ReadToken(u).rest == u[1..]
    ensures ReadToken(u).kind == ObjectBegin ==> u == "{" + u[1..] && ReadToken(u).rest == u[1..]
  {
    KindOf(u);
  }

  lemma ColonAt(y: string)
    requires y != "" && !IsSpace(y[0]) && ReadToken(y).kind == MemberSeparator
    ensures y == ":" + y[1..] && ReadToken(y).rest == y[1..]
  {
    KindOf(y);
  }

  lemma ColonOf(s: string) returns (between: string, x: string)
    requires ReadToken(s).kind == MemberSeparator
    ensures G.AreSpaces(between) && s == between + (":" + x) && ReadToken(s).rest == x
  {
    var y := SkipSpaces(s);
    between := SpacesBefore(s);
    SpacesBeforeToken(s);
    ColonAt(y);
    x := y[1..];
  }

  /** A member up to its colon. */
  lemma FieldOf(s: string, done: seq<Member>, last: string, h: nat, toDouble: string -> Option<nat>)
    returns (before: seq<Blank>, name: seq<G.Char>, between: string, x: string)
    requires ReadMembers(s, done, last, h, toDouble).Parsed? && !(ReadPastComments(s).kind == ObjectEnd && last == "")
    ensures AreBlanks(before) && G.AreScanned(name) && G.Paired(name) && G.AreSpaces(between) && |x| < |s|
    ensures s == GapText(before, G.LiteralText(name, between + (":" + x)))
    ensures ReadMembers(s, done, last, h, toDouble) == ReadMember(x, done, G.CharsBytes(name), h, toDouble)
  {
    var u;
    before, u := TokenBehindGap(s);
    name := StringTreeOf(u, toDouble);
    between, x := ColonOf(ReadToken(u).rest);
  }

  lemma {:induction false} NoTextNoRest(s: string)
    ensures ReadToken(s).text == "" ==> ReadToken(s).rest == ""
    decreases |s|
  {
    if s != "" {
      assert ReadToken(s) == TokenAt(s);
      if IsSpace(s[0]) { NoTextNoRest(s[1..]); }
    }
  }

  lemma {:induction false} NothingBehindEnd(s: string)
    ensures ReadPastComments(s).text == "" ==> ReadPastComments(s).rest == ""
    decreases |s|
  {
    NoTextNoRest(s);
    if ReadToken(s).kind == CommentToken { NothingBehindEnd(ReadToken(s).rest); }
  }

  /** What stands behind a member with a comment. */
  lemma SwallowedOf(s: string) returns (gap: seq<Blank>, j: Junk)
    requires ReadToken(s).kind == CommentToken
    requires ReadPastComments(s).kind != ObjectEnd && ReadPastComments(s).rest != ""
    ensures var more := ReadPastComments(s).rest;
      AreBlanks(gap) && !AllSpaces(gap) && IsJunk(j, more) && s == GapText(gap, JunkText(j, more))
  {
    var u;
    NothingBehindEnd(s);
    gap, u := GapBefore(s);
    SpacesThenToken(gap, u);
    j := JunkOf(u);
  }

  /** What ends a member. */
  lemma NextOf(s: string, members: seq<Member>, name: string, h: nat, toDouble: string -> Option<nat>, v: Value,
      rest: string) returns (gap: seq<Blank>, next: Next, more: string)
    requires AfterMember(s, members, name, h, toDouble) == Parsed(v, rest)
    ensures AreBlanks(gap) && IsNext(next, gap, more, true) && s == GapText(gap, NextText(next, more, rest))
    ensures next.Closes? ==> v == Object(members)
    ensures !next.Closes? ==> |more| < |s| && ReadMembers(more, members, name, h, toDouble) == Parsed(v, rest)
  {
    var comma := ReadToken(s);
    more := "";
    if comma.kind == CommentToken {
      PastComment(s);
      if ReadPastComments(s).kind == ObjectEnd {
        gap := PunctuationOf(s, '}');
        next := Closes;
      } else {
        more := ReadPastComments(s).rest;
        var j;
        gap, j := SwallowedOf(s);
        next := Swallows(j);
      }
    } else {
      NoCommentSkipped(s);
      if comma.kind == ObjectEnd {
        gap := PunctuationOf(s, '}');
        next := Closes;
      } else {
        gap := PunctuationOf(s, ',');
        SpacesThenToken(gap, "," + comma.rest);
        next, more := Comma, comma.rest;
      }
    }
  }

  lemma {:induction false} TreeOf(s: string, h: nat, toDouble: string -> Option<nat>, v: Value, rest: string)
    returns (gap: seq<Blank>, t: Tree)
    requires ReadValue(s, h, toDouble) == Parsed(v, rest)
    ensures AreBlanks(gap) && s == GapText(gap, TreeText(t, rest)) && IsTree(t, rest, toDouble)
    ensures TreeValue(t, toDouble) == v && h + TreeDepth(t) <= STACK_LIMIT + 1
    decreases |s|, 1
  {
    var u;
    gap, u := TokenBehindGap(s);
    BracketOf(u);
    if ReadToken(u).kind == ArrayBegin {
      t := ArrayOf(u[1..], h, toDouble, v, rest);
    } else if ReadToken(u).kind == ObjectBegin {
      var fields, tail := FieldsOf(u[1..], [], "", h, toDouble, v, rest);
      t := ObjectTree(fields, tail);
    } else {
      t := ScalarOf(u, h, toDouble, v, rest);
    }
  }

  lemma EmptyArrayOf(s: string, toDouble: string -> Option<nat>) returns (t: Tree)
    requires SkipSpaces(s) != "" && SkipSpaces(s)[0] == ']'
    ensures var rest := SkipSpaces(s)[1..];
      && "[" + s == TreeText(t, rest) && IsTree(t, rest, toDouble)
      && TreeValue(t, toDouble) == Array([]) && TreeDepth(t) == 1
  {
    var space := SpacesBefore(s);
    t := ArrayTree(space, []);
    assert SkipSpaces(s) == "]" + SkipSpaces(s)[1..];
  }

  lemma {:induction false} ArrayOf(s: string, h: nat, toDouble: string -> Option<nat>, v: Value, rest: string)
    returns (t: Tree)
    requires h <= STACK_LIMIT && ReadArray(s, h, toDouble) == Parsed(v, rest)
    ensures "[" + s == TreeText(t, rest) && IsTree(t, rest, toDouble)
    ensures TreeValue(t, toDouble) == v && h + TreeDepth(t) <= STACK_LIMIT + 1
    decreases |s|, 2
  {
    var inside := SkipSpaces(s);
    if inside != "" && inside[0] == ']' {
      t := EmptyArrayOf(s, toDouble);
    } else {
      ItemsAgain(s, [], h, toDouble);
      var items := SlotsOf(s, [], h, toDouble, v, rest);
      t := ArrayTree("", items);
      assert [] + SlotValues(items, toDouble) == SlotValues(items, toDouble);
    }
  }

  lemma {:induction false} SlotsOf(s: string, done: seq<Value>, h: nat, toDouble: string -> Option<nat>, v: Value,
      rest: string) returns (items: seq<Slot>)
    requires h <= STACK_LIMIT && ReadItems(s, done, h, toDouble) == Parsed(v, rest)
    ensures items != [] && s == SlotsText(items, rest) && AreSlots(items, rest, toDouble)
    ensures v == Array(done + SlotValues(items, toDouble)) && h + SlotsDepth(items) <= STACK_LIMIT
    decreases |s|, 2, 0
  {
    var first := ReadValue(s, h + 1, toDouble);
    var gap, t := TreeOf(s, h + 1, toDouble, first.value, first.rest);
    var token := ReadPastComments(first.rest);
    if token.kind == ArrayEnd {
      var after := PunctuationOf(first.rest, ']');
      items := [Slot(gap, t, after)];
    } else {
      var after := PunctuationOf(first.rest, ',');
      var more := SlotsOf(token.rest, done + [first.value], h, toDouble, v, rest);
      items := [Slot(gap, t, after)] + more;
      assert items[1..] == more;
      ValuesInFront(done, first.value, SlotValues(more, toDouble));
    }
  }

  /** A member in front of others, or at the end of its object. */
  lemma FieldInFront(f: Field, fields: seq<Field>, tail: seq<Blank>, done: seq<Member>, last: string, rest: string,
      h: nat, toDouble: string -> Option<nat>)
    requires var more := FieldsText(fields, tail, rest);
      && AreBlanks(f.before) && G.AreScanned(f.name) && G.Paired(f.name) && G.AreSpaces(f.between)
      && IsSlot(f.slot, NextText(f.next, more, rest), toDouble) && h + 1 + TreeDepth(f.slot.tree) <= STACK_LIMIT + 1
      && IsNext(f.next, f.slot.after, more, fields == [] && tail == [])
    requires h + FieldsDepth(fields) <= STACK_LIMIT
    requires !f.next.Closes? ==> AreFields(fields, tail, G.CharsBytes(f.name), rest, toDouble)
    ensures var all := [f] + fields;
      && AreFields(all, tail, last, rest, toDouble) && h + FieldsDepth(all) <= STACK_LIMIT
      && FieldsText(all, tail, rest)
         == FieldText(f, SlotText(f.slot, NextText(f.next, FieldsText(fields, tail, rest), rest)))
      && FieldValues(all, done, toDouble)
         == FieldValues(fields, Put(done, G.CharsBytes(f.name), TreeValue(f.slot.tree, toDouble)), toDouble)
  {
    assert ([f] + fields)[1..] == fields;
  }

  lemma {:induction false} FieldsOf(s: string, done: seq<Member>, last: string, h: nat, toDouble: string -> Option<nat>,
      v: Value, rest: string) returns (fields: seq<Field>, tail: seq<Blank>)
    requires h <= STACK_LIMIT && ReadMembers(s, done, last, h, toDouble) == Parsed(v, rest)
    ensures AreBlanks(tail) && s == FieldsText(fields, tail, rest) && AreFields(fields, tail, last, rest, toDouble)
    ensures v == Object(FieldValues(fields, done, toDouble)) && h + FieldsDepth(fields) <= STACK_LIMIT
    decreases |s|, 0
  {
    fields, tail := [], [];
    if ReadPastComments(s).kind == ObjectEnd && last == "" {
      tail := PunctuationOf(s, '}');
    } else {
      var before, name, between, x := FieldOf(s, done, last, h, toDouble);
      var key, read := G.CharsBytes(name), ReadValue(x, h + 1, toDouble);
      var gap, t := TreeOf(x, h + 1, toDouble, read.value, read.rest);
      var members := Put(done, key, read.value);
      var after, next, more := NextOf(read.rest, members, key, h, toDouble, v, rest);
      var f := Field(before, name, between, Slot(gap, t, after), next);
      if !next.Closes? {
        fields, tail := FieldsOf(more, members, key, h, toDouble, v, rest);
      }
      FieldInFront(f, fields, tail, done, last, rest, h, toDouble);
      fields := [f] + fields;
    }
  }

  predicate IsTextOf(s: string, gap: seq<Blank>, t: Tree, v: Value, rest: string, toDouble: string -> Option<nat>) {
    && AreBlanks(gap) && s == GapText(gap, TreeText(t, rest)) && IsTree(t, rest, toDouble)
    && TreeDepth(t) <= 1000 && v == TreeValue(t, toDouble)
  }

  /** The reader accepts a text, with this value and with `rest` left, if and only if it is a
      gap and a text of such a tree, nested at most a thousand deep. */
  lemma AcceptedIff(s: string, toDouble: string -> Option<nat>, v: Value, rest: string)
    ensures ParseDocument(s, toDouble) == Parsed(v, rest)
       <==> exists gap, t :: IsTextOf(s, gap, t, v, rest, toDouble)
  {
    if ParseDocument(s, toDouble) == Parsed(v, rest) {
      var gap, t := TreeOf(s, 1, toDouble, v, rest);
      assert IsTextOf(s, gap, t, v, rest, toDouble);
    }
    forall gap, t | IsTextOf(s, gap, t, v, rest, toDouble) ensures ParseDocument(s, toDouble) == Parsed(v, rest) {
      TreeIsRead(t, rest, 1, toDouble);
      ValueBehindGap(gap, TreeText(t, rest), 1, toDouble);
    }
  }
}
