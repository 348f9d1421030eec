/** The tokens of `Json::Reader` (src/jsoncpp.cpp), read from the text that is left. */
module JsonToken {
  import opened JsonString
  import opened JsonNumber
  import opened Utf8

  datatype Kind =
    | EndOfStream | ObjectBegin | ObjectEnd | ArrayBegin | ArrayEnd | StringToken | NumberToken
    | TrueToken | FalseToken | NullToken | ArraySeparator | MemberSeparator | CommentToken | ErrorToken

  /** A token, its characters, and the text after it. */
  datatype Token = Token(kind: Kind, text: string, rest: string)

  predicate IsSpace(c: char) {
    c == ' ' || c == '\t' || c == '\r' || c == '\n'
  }

  function SkipDigits(s: string): (rest: string)
    ensures |rest| <= |s|
  {
    if s != "" && IsDigit(s[0]) then SkipDigits(s[1..]) else s
  }

  function FractionRest(s: string): (rest: string)
    ensures |rest| <= |s|
  {
    if s != "" && s[0] == '.' then SkipDigits(s[1..]) else s
  }

  function ExponentRest(s: string): (rest: string)
    ensures |rest| <= |s|
  {
    if s != "" && (s[0] == 'e' || s[0] == 'E') then
      var exponent := s[1..];
      SkipDigits(if exponent != "" && (exponent[0] == '+' || exponent[0] == '-') then exponent[1..] else exponent)
    else s
  }

  /** What `readNumber` leaves, from after the first character. */
  function NumberRest(s: string): (rest: string)
    ensures |rest| <= |s|
  {
    ExponentRest(FractionRest(SkipDigits(s)))
  }

  /** `readCStyleComment`: whether the comment ends, and what it leaves. */
  function ScanCStyle(s: string): (r: (bool, string))
    ensures |r.1| <= |s|
  {
    if |s| >= 2 then
      if s[0] == '*' && s[1] == '/' then (true, s[2..]) else ScanCStyle(s[1..])
    else if s == "" then (false, "")
    else (s[0] == '/', "")
  }

  function ScanCppStyle(s: string): (rest: string)
    ensures |rest| <= |s|
  {
    if s == "" then ""
    else if s[0] == '\n' then s[1..]
    else if s[0] == '\r' then (if |s| >= 2 && s[1] == '\n' then s[2..] else s[1..])
    else ScanCppStyle(s[1..])
  }

  /** `readComment`, from after the slash. */
  function ScanComment(s: string): (r: (bool, string))
    ensures |r.1| <= |s|
  {
    if s == "" then (false, "")
    else if s[0] == '*' then ScanCStyle(s[1..])
    else if s[0] == '/' then (true, ScanCppStyle(s[1..]))
    else (false, s[1..])
  }

  /** `match`: the pattern is consumed only when all of it is there. */
  function ScanWord(s: string, pattern: string): (r: (bool, string))
    ensures |r.1| <= |s|
  {
    if |s| >= |pattern| && s[..|pattern|] == pattern then (true, s[|pattern|..]) else (false, s)
  }

  function ReadToken(s: string): (t: Token)
    ensures |t.rest| <= |s| && (t.kind != EndOfStream ==> |t.rest| < |s|)
    ensures t.kind == StringToken ==> |t.text| >= 2
    ensures t.kind == NumberToken ==> t.text != ""
    decreases |s|, 1
  {
    if s == "" then Token(EndOfStream, "", "") else TokenAt(s)
  }

  /** What is left behind the first token of that kind, or at the end of the stream. */
  function SkipTo(s: string, kind: Kind): string
    decreases |s|
  {
    var t := ReadToken(s);
    if t.kind == kind || t.kind == EndOfStream then t.rest else SkipTo(t.rest, kind)
  }

  /** The kind that a first character announces, and what the token leaves of the rest. */
  function KindAt(c: char, s: string): (r: (Kind, string))
    ensures |r.1| <= |s|
    ensures r.0 == StringToken ==> |r.1| < |s|
  {
    if c == '{' then (ObjectBegin, s)
    else if c == '}' then (ObjectEnd, s)
    else if c == '[' then (ArrayBegin, s)
    else if c == ']' then (ArrayEnd, s)
    else if c == '"' then
      var (ok, rest) := ScanString(s);
      (if ok then StringToken else ErrorToken, rest)
    else if c == '/' then
      var (ok, rest) := ScanComment(s);
      (if ok then CommentToken else ErrorToken, rest)
    else if IsDigit(c) || c == '-' then (NumberToken, NumberRest(s))
    else if c == 't' then WordKind(s, "rue", TrueToken)
    else if c == 'f' then WordKind(s, "alse", FalseToken)
    else if c == 'n' then WordKind(s, "ull", NullToken)
    else if c == ',' then (ArraySeparator, s)
    else if c == ':' then (MemberSeparator, s)
    else if c == '\0' then (EndOfStream, s)
    else (ErrorToken, s)
  }

  /** The token at a character that is there; spaces are skipped. */
  function TokenAt(s: string): (t: Token)
    requires s != ""
    ensures |t.rest| < |s|
    ensures t.kind == StringToken ==> |t.text| >= 2
    ensures t.kind == NumberToken ==> t.text != ""
    decreases |s|, 0
  {
    if IsSpace(s[0]) then
      var t := ReadToken(s[1..]);
      t
    else
      var (kind, rest) := KindAt(s[0], s[1..]);
      Token(kind, s[..|s| - |rest|], rest)
  }

  function WordKind(s: string, pattern: string, kind: Kind): (r: (Kind, string))
    requires kind != StringToken
    ensures |r.1| <= |s| && r.0 != StringToken
  {
    var (ok, rest) := ScanWord(s, pattern);
    (if ok then kind else ErrorToken, rest)
  }

  /** The first token that is not a comment. */
  function ReadPastComments(s: string): (t: Token)
    ensures |t.rest| <= |s| && (t.kind != EndOfStream ==> |t.rest| < |s|)
    ensures t.kind == StringToken ==> |t.text| >= 2
    ensures t.kind == NumberToken ==> t.text != ""
    ensures t.kind != CommentToken
    decreases |s|
  {
    var t := ReadToken(s);
    if t.kind == CommentToken then ReadPastComments(t.rest) else t
  }

  function SkipSpaces(s: string): (rest: string)
    ensures |rest| <= |s| && (rest != "" ==> !IsSpace(rest[0]))
  {
    if s != "" && IsSpace(s[0]) then SkipSpaces(s[1..]) else s
  }

  lemma {:induction false} SpacesBeforeToken(s: string)
    ensures ReadToken(SkipSpaces(s)) == ReadToken(s)
    decreases |s|
  {
    if s != "" && IsSpace(s[0]) {
      SpacesBeforeToken(s[1..]);
      assert ReadToken(s) == TokenAt(s) == ReadToken(s[1..]);
    }
  }

  // The tokens that the writer emits.

  lemma PlainToken(c: char, s: string)
    requires !IsSpace(c)
    ensures ReadToken([c] + s) == Token(KindAt(c, s).0, ([c] + s)[..|s| + 1 - |KindAt(c, s).1|], KindAt(c, s).1)
  {
    assert ([c] + s)[1..] == s;
    assert ReadToken([c] + s) == TokenAt([c] + s);
  }

  predicate IsPunctuation(c: char) {
    c == '{' || c == '}' || c == '[' || c == ']' || c == ',' || c == ':'
  }

  function PunctuationKind(c: char): Kind
    requires IsPunctuation(c)
  {
    match c
    case '{' => ObjectBegin
    case '}' => ObjectEnd
    case '[' => ArrayBegin
    case ']' => ArrayEnd
    case ',' => ArraySeparator
    case ':' => MemberSeparator
  }

  lemma PunctuationToken(c: char, s: string)
    requires IsPunctuation(c)
    ensures ReadToken([c] + s) == ReadPastComments([c] + s) == Token(PunctuationKind(c), [c], s)
  {
    PlainToken(c, s);
    assert ([c] + s)[..1] == [c];
  }

  lemma WordToken(c: char, word: string, s: string)
    requires (c, word) in {('t', "rue"), ('f', "alse"), ('n', "ull")}
    ensures ReadPastComments([c] + word + s)
         == Token(if c == 't' then TrueToken else if c == 'f' then FalseToken else NullToken, [c] + word, s)
  {
    assert [c] + word + s == [c] + (word + s);
    assert (word + s)[..|word|] == word && (word + s)[|word|..] == s;
    PlainToken(c, word + s);
    assert ([c] + (word + s))[..|word| + 1] == [c] + word;
  }

  /** What may follow a number without being taken for a part of it. */
  predicate EndsNumber(s: string) {
    s == "" || !(IsDigit(s[0]) || s[0] == '.' || s[0] == 'e' || s[0] == 'E')
  }

  lemma {:induction false} DigitsSkipped(digits: string, s: string)
    requires AllDigits(digits) && (s == "" || !IsDigit(s[0]))
    ensures SkipDigits(digits + s) == s
    decreases |digits|
  {
    if digits == "" {
      assert digits + s == s;
    } else {
      assert (digits + s)[1..] == digits[1..] + s;
      DigitsSkipped(digits[1..], s);
    }
  }

  lemma IntTextIsSigned(n: int)
    ensures var text := IntText(n);
      (IsDigit(text[0]) || text[0] == '-') && AllDigits(text[1..])
  {
    if n >= 0 { assert AllDigits(Digits(n)); } else { assert IntText(n)[1..] == Digits(-n); }
  }

  lemma DigitsAreNumber(tail: string, s: string)
    requires AllDigits(tail) && EndsNumber(s)
    ensures NumberRest(tail + s) == s
  {
    DigitsSkipped(tail, s);
  }

  lemma NumberTokenIs(c: char, tail: string, s: string)
    requires (IsDigit(c) || c == '-') && NumberRest(tail + s) == s
    ensures ReadPastComments([c] + (tail + s)) == Token(NumberToken, [c] + tail, s)
  {
    PlainToken(c, tail + s);
    assert ([c] + (tail + s))[..|tail| + 1] == [c] + tail;
  }

  lemma IntegerToken(n: int, s: string)
    requires EndsNumber(s)
    ensures ReadPastComments(IntText(n) + s) == Token(NumberToken, IntText(n), s)
  {
    var text := IntText(n);
    IntTextIsSigned(n);
    DigitsAreNumber(text[1..], s);
    NumberTokenIs(text[0], text[1..], s);
    assert text == [text[0]] + text[1..];
    assert text + s == [text[0]] + (text[1..] + s);
  }

  lemma QuotedToken(value: string, s: string)
    requires IsBytes(value)
    ensures ReadToken(Quote(value) + s) == ReadPastComments(Quote(value) + s) == Token(StringToken, Quote(value), s)
  {
    QuoteIsScanned(value, s);
    var q := Quote(value);
    assert q + s == ['"'] + (q + s)[1..];
    PlainToken('"', (q + s)[1..]);
    assert (q + s)[..|q|] == q;
  }
}
