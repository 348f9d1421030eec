/** `Json::Reader` (src/jsoncpp.cpp) with its default features: comments are allowed and
    skipped, any value may be the root, and text after the root is ignored. */
module JsonReader {
  import opened Wrappers
  import opened Hex
  import opened JsonValue
  import Number = JsonNumber
  import Str = JsonString
  import Text = JsonText
  import T = JsonToken
  import Utf8

  /** `Reader::Token`: positions in the document. */
  datatype Lexeme = Lexeme(kind: T.Kind, start: nat, end: nat)

  datatype ErrorInfo = ErrorInfo(token: Lexeme, message: string)

  /** How a reading method ends: with its return value, or with the exception of
      `readValue`. */
  datatype Outcome = Returned(successful: bool) | Thrown

  class Reader {
    var document: string
    var current: nat
    var errors: seq<ErrorInfo>
    /** The values under construction; the last one is `currentValue()`. A value is
        written back to its parent when it is popped. */
    var nodes: seq<Value>
    const toDouble: string -> Option<nat>

    ghost predicate Valid()
      reads this
    {
      current <= |document|
    }

    constructor (toDouble: string -> Option<nat>)
      ensures Valid() && errors == [] && nodes == [] && this.toDouble == toDouble
    {
      document, current, errors, nodes := "", 0, [], [];
      this.toDouble := toDouble;
    }

    ghost function Rest(): (s: string)
      requires Valid()
      reads this
    {
      document[current..]
    }

    // Characters.

    method GetNextChar() returns (c: char)
      requires Valid()
      modifies this`current
      ensures Valid()
      ensures if old(Rest()) == "" then c == '\0' && current == old(current)
              else c == old(Rest())[0] && current == old(current) + 1 && Rest() == old(Rest())[1..]
    {
      if current == |document| {
        return '\0';
      }
      c := document[current];
      current := current + 1;
    }

    method SkipSpaces()
      requires Valid()
      modifies this`current
      ensures Valid() && old(current) <= current && Rest() == T.SkipSpaces(old(Rest()))
    {
      while current != |document|
        invariant Valid() && old(current) <= current
        invariant T.SkipSpaces(Rest()) == T.SkipSpaces(old(Rest()))
        decreases |document| - current
      {
        var c := document[current];
        if c == ' ' || c == '\t' || c == '\r' || c == '\n' {
          assert Rest()[1..] == document[current + 1..];
          current := current + 1;
        } else {
          break;
        }
      }
    }

    method Match(pattern: string) returns (ok: bool)
      requires Valid()
      modifies this`current
      ensures Valid() && old(current) <= current && (ok, Rest()) == T.ScanWord(old(Rest()), pattern)
    {
      if |document| - current < |pattern| {
        return false;
      }
      var index := |pattern|;
      while index > 0
        invariant 0 <= index <= |pattern|
        invariant Rest()[index..|pattern|] == pattern[index..]
      {
        index := index - 1;
        if document[current + index] != pattern[index] {
          assert Rest()[..|pattern|][index] != pattern[index];
          return false;
        }
      }
      current := current + |pattern|;
      return true;
    }

    method ReadCStyleComment() returns (ok: bool)
      requires Valid()
      modifies this`current
      ensures Valid() && old(current) <= current && (ok, Rest()) == T.ScanCStyle(old(Rest()))
    {
      while current + 1 < |document|
        invariant Valid() && old(current) <= current
        invariant T.ScanCStyle(Rest()) == T.ScanCStyle(old(Rest()))
        decreases |document| - current
      {
        ghost var before := Rest();
        var c := GetNextChar();
        if c == '*' && document[current] == '/' {
          c := GetNextChar();
          assert before[2..] == Rest();
          return true;
        }
      }
      var c := GetNextChar();
      ok := c == '/';
    }

    method ReadCppStyleComment()
      requires Valid()
      modifies this`current
      ensures Valid() && old(current) <= current && Rest() == T.ScanCppStyle(old(Rest()))
    {
      while current != |document|
        invariant Valid() && old(current) <= current
        invariant T.ScanCppStyle(Rest()) == T.ScanCppStyle(old(Rest()))
        decreases |document| - current
      {
        ghost var before := Rest();
        var c := GetNextChar();
        if c == '\n' {
          return;
        }
        if c == '\r' {
          if current != |document| && document[current] == '\n' {
            c := GetNextChar();
            assert before[2..] == Rest();
          }
          return;
        }
      }
    }

    method ReadComment() returns (ok: bool)
      requires Valid()
      modifies this`current
      ensures Valid() && old(current) <= current && (ok, Rest()) == T.ScanComment(old(Rest()))
    {
      var c := GetNextChar();
      ok := false;
      if c == '*' {
        ok := ReadCStyleComment();
      } else if c == '/' {
        ReadCppStyleComment();
        ok := true;
      }
    }

    ghost predicate IsPeeked(c: char, next: nat)
      reads this
    {
      && Valid()
      && if Rest() == "" then c == '\0' && next == current
         else c == Rest()[0] && next == current + 1
    }

    /** Reads at `p` for `readNumber`: the position moves there, and the character there
        is passed when there is one. */
    method Peek(p: nat) returns (c: char, next: nat)
      requires p <= |document|
      modifies this`current
      ensures Valid() && current == p && IsPeeked(c, next)
    {
      current := p;
      if p < |document| {
        c, next := document[p], p + 1;
      } else {
        c, next := '\0', p;
      }
    }

    /** One of the three digit loops of `readNumber`. */
    method PeekPastDigits(first: char, p: nat) returns (c: char, next: nat)
      requires p <= |document| && current <= p
      requires Number.IsDigit(first) || IsPeeked(first, p)
      modifies this`current
      ensures IsPeeked(c, next) && old(current) <= current && current <= next
      ensures Rest() == if Number.IsDigit(first) then T.SkipDigits(document[p..]) else old(Rest())
      ensures !Number.IsDigit(first) ==> c == first && next == p
    {
      c, next := first, p;
      while '0' <= c <= '9'
        invariant next <= |document| && old(current) <= current <= next && document == old(document)
        invariant Number.IsDigit(c) ==>
                    Number.IsDigit(first) && T.SkipDigits(document[next..]) == T.SkipDigits(document[p..])
        invariant !Number.IsDigit(c) ==>
                    && IsPeeked(c, next)
                    && Rest() == if Number.IsDigit(first) then T.SkipDigits(document[p..]) else old(Rest())
        invariant !Number.IsDigit(first) ==> c == first && next == p
        decreases |document| - next, if Number.IsDigit(c) then 1 else 0
      {
        assert next < |document| ==> document[next..][1..] == document[next + 1..];
        c, next := Peek(next);
      }
    }

    method PeekPastPeeked(first: char, p: nat) returns (c: char, next: nat)
      requires IsPeeked(first, p)
      modifies this`current
      ensures IsPeeked(c, next) && old(current) <= current
      ensures Rest() == T.SkipDigits(old(Rest()))
    {
      assert Rest() != "" ==> Rest()[1..] == document[p..];
      c, next := PeekPastDigits(first, p);
    }

    /** The fraction, if there is one. */
    method PeekPastFraction(first: char, p: nat) returns (c: char, next: nat)
      requires IsPeeked(first, p)
      modifies this`current
      ensures IsPeeked(c, next) && old(current) <= current
      ensures Rest() == T.FractionRest(old(Rest()))
    {
      c, next := first, p;
      if c == '.' {
        assert Rest()[1..] == document[p..];
        c, next := Peek(next);
        c, next := PeekPastPeeked(c, next);
      }
    }

    /** The exponent, if there is one. */
    method PeekPastExponent(first: char, p: nat)
      requires IsPeeked(first, p)
      modifies this`current
      ensures Valid() && old(current) <= current
      ensures Rest() == T.ExponentRest(old(Rest()))
    {
      var c, next := first, p;
      if c == 'e' || c == 'E' {
        assert Rest()[1..] == document[p..];
        c, next := Peek(next);
        if c == '+' || c == '-' {
          assert Rest()[1..] == document[next..];
          c, next := Peek(next);
        }
        c, next := PeekPastPeeked(c, next);
      }
    }

    method ReadNumber()
      requires Valid()
      modifies this`current
      ensures Valid() && old(current) <= current && Rest() == T.NumberRest(old(Rest()))
    {
      var c, p := PeekPastDigits('0', current);
      c, p := PeekPastFraction(c, p);
      PeekPastExponent(c, p);
    }

    method ReadString() returns (ok: bool)
      requires Valid()
      modifies this`current
      ensures Valid() && old(current) <= current && (ok, Rest()) == Str.ScanString(old(Rest()))
    {
      var c := '\0';
      while current != |document|
        invariant Valid() && old(current) <= current && c != '"'
        invariant Str.ScanString(Rest()) == Str.ScanString(old(Rest()))
        decreases |document| - current
      {
        ghost var before := Rest();
        c := GetNextChar();
        if c == '\\' {
          var escaped := GetNextChar();
          assert Rest() == if |before| == 1 then "" else before[2..];
        } else if c == '"' {
          return true;
        }
      }
      return false;
    }

    // Tokens.

    /** `lexeme` stands for the token `t` of the text from position `from` on. */
    ghost predicate Lexed(lexeme: Lexeme, t: T.Token, from: nat)
      reads this
    {
      && Valid() && from <= lexeme.start <= lexeme.end == current
      && lexeme.kind == t.kind && document[lexeme.start..lexeme.end] == t.text && Rest() == t.rest
    }

    /** The switch of `readToken`, after the first character. */
    method ReadTokenAfter(c: char) returns (kind: T.Kind)
      requires Valid() && c != '\0'
      modifies this`current
      ensures Valid() && old(current) <= current && (kind, Rest()) == T.KindAt(c, old(Rest()))
    {
      var ok := true;
      match c {
        case '{' => kind := T.ObjectBegin;
        case '}' => kind := T.ObjectEnd;
        case '[' => kind := T.ArrayBegin;
        case ']' => kind := T.ArrayEnd;
        case '"' => kind := T.StringToken; ok := ReadString();
        case '/' => kind := T.CommentToken; ok := ReadComment();
        case 't' => kind := T.TrueToken; ok := Match("rue");
        case 'f' => kind := T.FalseToken; ok := Match("alse");
        case 'n' => kind := T.NullToken; ok := Match("ull");
        case ',' => kind := T.ArraySeparator;
        case ':' => kind := T.MemberSeparator;
        case _ =>
          if '0' <= c <= '9' || c == '-' {
            kind := T.NumberToken;
            ReadNumber();
          } else {
            kind, ok := T.ErrorToken, false;
          }
      }
      if !ok {
        kind := T.ErrorToken;
      }
    }

    method ReadToken() returns (token: Lexeme, ok: bool)
      requires Valid()
      modifies this`current
      ensures Lexed(token, T.ReadToken(old(Rest())), old(current))
      ensures ok <==> token.kind != T.ErrorToken
    {
      T.SpacesBeforeToken(Rest());
      SkipSpaces();
      var start := current;
      ghost var before := Rest();
      var c := GetNextChar();
      var kind := T.EndOfStream;
      if c != '\0' {
        kind := ReadTokenAfter(c);
      }
      token, ok := Lexeme(kind, start, current), kind != T.ErrorToken;
      TokenIs(before, kind, Rest());
      assert document[start..current] == before[..|before| - |Rest()|];
    }

    static lemma TokenIs(s: string, kind: T.Kind, rest: string)
      requires s == "" ==> kind == T.EndOfStream && rest == ""
      requires s != "" ==> !T.IsSpace(s[0]) && (kind, rest) == T.KindAt(s[0], s[1..])
      ensures |rest| <= |s| && T.ReadToken(s) == T.Token(kind, s[..|s| - |rest|], rest)
    {
      if s != "" {
        T.PlainToken(s[0], s[1..]);
        assert s == [s[0]] + s[1..];
      }
    }

    method SkipCommentTokens() returns (token: Lexeme, ok: bool)
      requires Valid()
      modifies this`current
      ensures Lexed(token, T.ReadPastComments(old(Rest())), old(current))
      ensures ok <==> token.kind != T.ErrorToken
    {
      ghost var before := Rest();
      token, ok := ReadToken();
      while token.kind == T.CommentToken
        invariant Lexed(token, T.ReadToken(before), old(current))
        invariant ok <==> token.kind != T.ErrorToken
        invariant T.ReadPastComments(before) == T.ReadPastComments(old(Rest()))
        decreases |before|
      {
        before := Rest();
        token, ok := ReadToken();
      }
    }

    // Errors.

    method AddError(message: string, token: Lexeme) returns (ok: bool)
      modifies this`errors
      ensures !ok && errors == old(errors) + [ErrorInfo(token, message)]
    {
      errors := errors + [ErrorInfo(token, message)];
      ok := false;
    }

    /** Skips tokens until the one given, or the end; no error of its own is kept. */
    method RecoverFromError(skipUntil: T.Kind) returns (ok: bool)
      requires Valid()
      modifies this`current, this`errors
      ensures Valid() && !ok && old(current) <= current && errors == old(errors)
      ensures Rest() == T.SkipTo(old(Rest()), skipUntil)
    {
      var errorCount := |errors|;
      ok := false;
      while true
        invariant Valid() && old(current) <= current && errors == old(errors)
        invariant T.SkipTo(Rest(), skipUntil) == T.SkipTo(old(Rest()), skipUntil)
        decreases |document| - current
      {
        ghost var before := Rest();
        var skip, read := ReadToken();
        if !read {
          errors := errors[..errorCount];
        }
        if skip.kind == skipUntil || skip.kind == T.EndOfStream {
          break;
        }
        assert |Rest()| < |before|;
      }
      errors := errors[..errorCount];
    }

    method AddErrorAndRecover(message: string, token: Lexeme, skipUntil: T.Kind) returns (ok: bool)
      requires Valid()
      modifies this`current, this`errors
      ensures Valid() && !ok && old(current) <= current && errors == old(errors) + [ErrorInfo(token, message)]
      ensures Rest() == T.SkipTo(old(Rest()), skipUntil)
    {
      ok := AddError(message, token);
      ok := RecoverFromError(skipUntil);
    }

    // Decoding.

    /** One more hexadecimal digit of a number. */
    static method AddDigit(unicode: nat, c: char) returns (isDigit: bool, sum: nat)
      ensures isDigit <==> HexValue(c).Some?
      ensures isDigit ==> sum == unicode * 16 + HexValue(c).value
    {
      isDigit, sum := true, unicode;
      if '0' <= c <= '9' {
        sum := unicode * 16 + (c as int - '0' as int);
      } else if 'a' <= c <= 'f' {
        sum := unicode * 16 + (c as int - 'a' as int + 10);
      } else if 'A' <= c <= 'F' {
        sum := unicode * 16 + (c as int - 'A' as int + 10);
      } else {
        isDigit := false;
      }
    }

    static lemma FoldAt(acc: nat, digits: string, i: nat)
      requires i < |digits|
      ensures Str.HexFold(acc, digits[i..])
           == if HexValue(digits[i]).None? then None
              else Str.HexFold(acc * 16 + HexValue(digits[i]).value, digits[i + 1..])
    {
      assert digits[i..][1..] == digits[i + 1..];
    }

    method DecodeUnicodeEscapeSequence(token: Lexeme, start: nat, end: nat) returns (ok: bool, next: nat, unicode: nat)
      requires start <= end <= |document|
      modifies this`errors
      ensures start <= next <= end
      ensures if ok then next == start + 4 && errors == old(errors)
                         && Str.DecodeUnicodeEscapeSequence(document[start..end]) == Some(unicode)
              else old(errors) < errors && Str.DecodeUnicodeEscapeSequence(document[start..end]) == None
    {
      next, unicode := start, 0;
      if end - start < 4 {
        ok := AddError("Bad unicode escape sequence in string: four digits expected.", token);
        return;
      }
      ghost var digits := document[start..end][..4];
      assert digits == document[start..start + 4];
      for index := 0 to 4
        invariant next == start + index && errors == old(errors)
        invariant Str.HexFold(unicode, digits[index..]) == Str.HexFold(0, digits)
      {
        var c := document[next];
        next := next + 1;
        FoldAt(unicode, digits, index);
        var isDigit;
        isDigit, unicode := AddDigit(unicode, c);
        if !isDigit {
          ok := AddError("Bad unicode escape sequence in string: hexadecimal digit expected.", token);
          return;
        }
      }
      ok := true;
    }

    method DecodeUnicodeCodePoint(token: Lexeme, start: nat, end: nat) returns (ok: bool, next: nat, unicode: nat)
      requires start <= end <= |document|
      modifies this`errors
      ensures start <= next <= end
      ensures if ok then errors == old(errors)
                         && Str.DecodeUnicodeCodePoint(document[start..end]) == Some((unicode, document[next..end]))
              else old(errors) < errors && Str.DecodeUnicodeCodePoint(document[start..end]) == None
    {
      ghost var s := document[start..end];
      ok, next, unicode := DecodeUnicodeEscapeSequence(token, start, end);
      if !ok {
        return;
      }
      assert document[next..end] == s[4..];
      if 0xD800 <= unicode <= 0xDBFF {
        if end - next < 6 {
          ok := AddError("additional six characters expected to parse unicode surrogate pair.", token);
          return;
        }
        assert document[next] == s[4] && document[next + 1] == s[5];
        if document[next] == '\\' && document[next + 1] == 'u' {
          assert document[next + 2..end] == s[6..];
          var surrogatePair;
          ok, next, surrogatePair := DecodeUnicodeEscapeSequence(token, next + 2, end);
          if ok {
            assert document[next..end] == s[10..];
            unicode := 0x10000 + unicode % 1024 * 1024 + surrogatePair % 1024;
          }
        } else {
          ok := AddError("expecting another \\u token to begin the second half of a unicode surrogate pair", token);
        }
      }
    }

    /** One escape sequence, from after its backslash. */
    method DecodeEscape(token: Lexeme, start: nat, end: nat) returns (ok: bool, next: nat, piece: string)
      requires start <= end <= |document|
      modifies this`errors
      ensures start <= next <= end
      ensures if ok then start < next && errors == old(errors)
                         && Str.Unescape("\\" + document[start..end])
                              == Str.Prepend(piece, Str.Unescape(document[next..end]))
              else old(errors) < errors && Str.Unescape("\\" + document[start..end]) == None
    {
      ghost var s := "\\" + document[start..end];
      next, piece := start, "";
      if start == end {
        ok := AddError("Empty escape sequence in string", token);
        return;
      }
      var escape := document[start];
      next := start + 1;
      assert s[1] == escape && s[2..] == document[next..end];
      ok := true;
      match escape {
        case '"' => piece := "\"";
        case '/' => piece := "/";
        case '\\' => piece := "\\";
        case 'b' => piece := "\U{0008}";
        case 'f' => piece := "\U{000C}";
        case 'n' => piece := "\n";
        case 'r' => piece := "\r";
        case 't' => piece := "\t";
        case 'u' =>
          var unicode;
          ok, next, unicode := DecodeUnicodeCodePoint(token, next, end);
          if ok {
            piece := Utf8.Encode(unicode);
          }
        case _ => ok := AddError("Bad escape sequence in string", token);
      }
    }

    static lemma PrependTwice(a: string, b: string, tail: Option<string>)
      ensures Str.Prepend(a, Str.Prepend(b, tail)) == Str.Prepend(a + b, tail)
    {
      if tail.Some? { assert a + (b + tail.value) == a + b + tail.value; }
    }

    static lemma PrependNothing(tail: Option<string>)
      ensures Str.Prepend("", tail) == tail
    {
      if tail.Some? { assert "" + tail.value == tail.value; }
    }

    method DecodeString(token: Lexeme) returns (ok: bool, decoded: string)
      requires token.start + 2 <= token.end <= |document|
      modifies this`errors
      ensures if ok then errors == old(errors)
                         && Str.Unescape(document[token.start + 1..token.end - 1]) == Some(decoded)
              else old(errors) < errors && Str.Unescape(document[token.start + 1..token.end - 1]) == None
    {
      decoded := "";
      var position, end := token.start + 1, token.end - 1;
      ghost var result := Str.Unescape(document[position..end]);
      PrependNothing(result);
      while position != end
        invariant token.start < position <= end && errors == old(errors)
        invariant result == Str.Prepend(decoded, Str.Unescape(document[position..end]))
        decreases end - position
      {
        ghost var s := document[position..end];
        var c := document[position];
        position := position + 1;
        assert s[0] == c && s[1..] == document[position..end];
        if c == '"' {
          break;
        }
        var piece := [c];
        if c == '\\' {
          assert s == "\\" + document[position..end];
          ok, position, piece := DecodeEscape(token, position, end);
          if !ok {
            return;
          }
        }
        PrependTwice(decoded, piece, Str.Unescape(document[position..end]));
        decoded := decoded + piece;
      }
      assert decoded + "" == decoded;
      ok := true;
    }

    method DecodeNumber(token: Lexeme) returns (ok: bool, decoded: Value)
      requires token.start < token.end <= |document|
      modifies this`errors
      ensures if ok then errors == old(errors)
                         && Text.DecodeNumberToken(document[token.start..token.end], toDouble) == Some(decoded)
              else old(errors) < errors && Text.DecodeNumberToken(document[token.start..token.end], toDouble) == None
    {
      var text := document[token.start..token.end];
      var integer := Number.DecodeNumber(text);
      if integer.Some? {
        return true, integer.value;
      }
      decoded := Null;
      match toDouble(text) {
        case None => ok := AddError("'" + text + "' is not a number.", token);
        case Some(bits) => ok, decoded := true, Real(bits);
      }
    }

    // Values.

    /** The outcome and the state that the result `r` calls for, above the nodes `below`
        and after the errors `before`. */
    ghost predicate Agrees(outcome: Outcome, r: Text.ReadResult, below: seq<Value>, before: seq<ErrorInfo>)
      reads this
    {
      && Valid()
      && match outcome
         case Thrown => r.TooDeep?
         case Returned(true) => r.Parsed? && Rest() == r.rest && nodes == below + [r.value] && errors == before
         case Returned(false) => r.Rejected? && |nodes| == |below| + 1 && nodes[..|below|] == below && before < errors
    }

    /** The nodes below the current value. */
    ghost function Below(): seq<Value>
      requires nodes != []
      reads this
    {
      nodes[..|nodes| - 1]
    }

    method SetCurrentValue(v: Value)
      requires nodes != []
      modifies this`nodes
      ensures nodes == old(Below()) + [v]
    {
      nodes := nodes[..|nodes| - 1] + [v];
    }

    method ReadValue() returns (outcome: Outcome)
      requires Valid() && nodes != []
      modifies this`current, this`errors, this`nodes
      ensures old(current) <= current
      ensures Agrees(outcome, Text.ReadValue(old(Rest()), old(|nodes|), toDouble), old(Below()), old(errors))
      decreases |document| - current, 1
    {
      if |nodes| > Text.STACK_LIMIT {
        return Thrown;
      }
      ghost var before := Rest();
      var token, read := SkipCommentTokens();
      var ok;
      if token.kind == T.EndOfStream {
        ok := AddError("Syntax error: value, object or array expected.", token);
        outcome := Returned(ok);
      } else {
        outcome := ReadValueAt(token, T.ReadPastComments(before));
      }
    }

    method ReadLiteral(v: Value) returns (outcome: Outcome)
      requires Valid() && nodes != []
      modifies this`nodes
      ensures Agrees(outcome, Text.Parsed(v, Rest()), old(Below()), errors)
    {
      SetCurrentValue(v);
      outcome := Returned(true);
    }

    method ReadNumberValue(token: Lexeme, ghost t: T.Token) returns (outcome: Outcome)
      requires Lexed(token, t, 0) && nodes != [] && t.text != ""
      modifies this`errors, this`nodes
      ensures Agrees(outcome, Text.Reading(Text.DecodeNumberToken(t.text, toDouble), t.rest), old(Below()), old(errors))
    {
      var ok, decoded := DecodeNumber(token);
      if ok {
        SetCurrentValue(decoded);
      }
      outcome := Returned(ok);
    }

    static lemma InnerText(s: string, start: nat, end: nat)
      requires start + 2 <= end <= |s|
      ensures s[start + 1..end - 1] == s[start..end][1..end - start - 1]
    {
      var a, b := s[start + 1..end - 1], s[start..end][1..end - start - 1];
      assert |a| == |b|;
      forall i | 0 <= i < |a| ensures a[i] == b[i] {
        assert s[start..end][i + 1] == s[start + 1 + i];
      }
    }

    /** `decodeString` of a token just read. */
    method DecodeStringToken(token: Lexeme, ghost t: T.Token) returns (ok: bool, decoded: string)
      requires Lexed(token, t, 0) && |t.text| >= 2
      modifies this`errors
      ensures if ok then errors == old(errors) && Str.Unescape(t.text[1..|t.text| - 1]) == Some(decoded)
              else old(errors) < errors && Str.Unescape(t.text[1..|t.text| - 1]) == None
    {
      InnerText(document, token.start, token.end);
      ok, decoded := DecodeString(token);
    }

    method ReadStringValue(token: Lexeme, ghost t: T.Token) returns (outcome: Outcome)
      requires Lexed(token, t, 0) && nodes != [] && |t.text| >= 2
      modifies this`errors, this`nodes
      ensures Agrees(outcome, Text.Reading(Text.DecodeStringToken(t.text), t.rest), old(Below()), old(errors))
    {
      var ok, decoded := DecodeStringToken(token, t);
      if ok {
        SetCurrentValue(Value.Str(decoded));
      }
      outcome := Returned(ok);
    }

    /** The switch of `readValue`. */
    method ReadValueAt(token: Lexeme, ghost t: T.Token) returns (outcome: Outcome)
      requires Lexed(token, t, 0) && nodes != []
      requires t.kind == T.StringToken ==> |t.text| >= 2
      requires t.kind == T.NumberToken ==> t.text != ""
      modifies this`current, this`errors, this`nodes
      ensures old(current) <= current
      ensures Agrees(outcome, Text.ReadFrom(t, old(|nodes|), toDouble), old(Below()), old(errors))
      decreases |document| - current, 3
    {
      match token.kind {
        case ObjectBegin => outcome := ReadObject();
        case ArrayBegin => outcome := ReadArray();
        case NumberToken => outcome := ReadNumberValue(token, t);
        case StringToken => outcome := ReadStringValue(token, t);
        case TrueToken => outcome := ReadLiteral(Bool(true));
        case FalseToken => outcome := ReadLiteral(Bool(false));
        case NullToken => outcome := ReadLiteral(Null);
        case _ =>
          var ok := AddError("Syntax error: value, object or array expected.", token);
          outcome := Returned(ok);
      }
    }

    method ReadArray() returns (outcome: Outcome)
      requires Valid() && nodes != []
      modifies this`current, this`errors, this`nodes
      ensures old(current) <= current
      ensures Agrees(outcome, Text.ReadArray(old(Rest()), old(|nodes|), toDouble), old(Below()), old(errors))
      decreases |document| - current, 2, 2
    {
      SetCurrentValue(Array([]));
      SkipSpaces();
      if current != |document| && document[current] == ']' {
        ghost var inside := Rest();
        assert inside == [']'] + inside[1..];
        T.PunctuationToken(']', inside[1..]);
        var endArray, read := ReadToken();
        return Returned(true);
      }
      outcome := ReadItems();
    }

    /** The loop of `readArray`, from an array that is the current value. */
    method ReadItems() returns (outcome: Outcome)
      requires Valid() && nodes != [] && nodes[|nodes| - 1].Array?
      modifies this`current, this`errors, this`nodes
      ensures old(current) <= current
      ensures Agrees(outcome, Text.ReadItems(old(Rest()), old(nodes[|nodes| - 1].items), old(|nodes|), toDouble),
                     old(Below()), old(errors))
      decreases |document| - current, 2, 1
    {
      ghost var below, n := Below(), |nodes|;
      while true
        invariant Valid() && old(current) <= current && errors == old(errors)
        invariant |nodes| == n && Below() == below && nodes[n - 1].Array?
        invariant Text.ReadItems(Rest(), nodes[n - 1].items, n, toDouble)
               == Text.ReadItems(old(Rest()), old(nodes[|nodes| - 1].items), n, toDouble)
        decreases |document| - current
      {
        var step := ReadItem();
        if step.Some? {
          return step.value;
        }
      }
    }

    /** What follows an item: the end of the array, a comma, or an error. */
    method AfterItem() returns (step: Option<Outcome>)
      requires Valid()
      modifies this`current, this`errors
      ensures Valid() && old(current) <= current
      ensures var t := T.ReadPastComments(old(Rest()));
        match step
        case Some(outcome) =>
          if t.kind == T.ArrayEnd then outcome == Returned(true) && Rest() == t.rest && errors == old(errors)
          else outcome == Returned(false) && t.kind != T.ArraySeparator && old(errors) < errors
        case None => t.kind == T.ArraySeparator && old(current) < current && Rest() == t.rest && errors == old(errors)
    {
      var token, read := SkipCommentTokens();
      if !read || (token.kind != T.ArraySeparator && token.kind != T.ArrayEnd) {
        var ok := AddErrorAndRecover("Missing ',' or ']' in array declaration", token, T.ArrayEnd);
        return Some(Returned(ok));
      }
      if token.kind == T.ArrayEnd {
        return Some(Returned(true));
      }
      return None;
    }

    /** One turn of that loop; None when it goes on. */
    method ReadItem() returns (step: Option<Outcome>)
      requires Valid() && nodes != [] && nodes[|nodes| - 1].Array?
      modifies this`current, this`errors, this`nodes
      ensures old(current) <= current
      ensures var r := Text.ReadItems(old(Rest()), old(nodes[|nodes| - 1].items), old(|nodes|), toDouble);
        match step
        case Some(outcome) => Agrees(outcome, r, old(Below()), old(errors))
        case None =>
          && Valid() && old(current) < current && errors == old(errors)
          && |nodes| == old(|nodes|) && Below() == old(Below()) && nodes[|nodes| - 1].Array?
          && Text.ReadItems(Rest(), nodes[|nodes| - 1].items, |nodes|, toDouble) == r
      decreases |document| - current, 2, 0
    {
      ghost var n, below := |nodes|, Below();
      var items := nodes[|nodes| - 1].items;
      nodes := nodes + [Null];
      var outcome := ReadValue();
      if outcome.Thrown? {
        return Some(outcome);
      }
      var value := nodes[|nodes| - 1];
      nodes := nodes[..|nodes| - 1];
      SetCurrentValue(Array(items + [value]));
      if !outcome.successful {
        var ok := RecoverFromError(T.ArrayEnd);
        return Some(Returned(ok));
      }
      step := AfterItem();
    }

    method ReadObject() returns (outcome: Outcome)
      requires Valid() && nodes != []
      modifies this`current, this`errors, this`nodes
      ensures old(current) <= current
      ensures Agrees(outcome, Text.ReadMembers(old(Rest()), [], "", old(|nodes|), toDouble), old(Below()), old(errors))
      decreases |document| - current, 2, 2
    {
      var name := "";
      SetCurrentValue(Object([]));
      ghost var below, n := Below(), |nodes|;
      while true
        invariant Valid() && old(current) <= current && errors == old(errors)
        invariant |nodes| == n && Below() == below && nodes[n - 1].Object?
        invariant Text.ReadMembers(Rest(), nodes[n - 1].members, name, n, toDouble)
               == Text.ReadMembers(old(Rest()), [], "", n, toDouble)
        decreases |document| - current
      {
        var step;
        step, name := ReadNamedMember(name);
        if step.Some? {
          return step.value;
        }
      }
    }

    /** How a turn of the object loop ends: with an outcome that agrees with `r`, or
        with the same `r` still to be read. */
    ghost predicate Progress(step: Option<Outcome>, r: Text.ReadResult, name: string, from: nat, below: seq<Value>,
                             before: seq<ErrorInfo>)
      reads this
    {
      match step
      case Some(outcome) => Agrees(outcome, r, below, before)
      case None =>
        && Valid() && from < current && errors == before
        && |nodes| == |below| + 1 && Below() == below && nodes[|below|].Object?
        && Text.ReadMembers(Rest(), nodes[|below|].members, name, |nodes|, toDouble) == r
    }

    /** One turn of the loop of `readObject`, up to the name. */
    method ReadNamedMember(lastName: string) returns (step: Option<Outcome>, name: string)
      requires Valid() && nodes != [] && nodes[|nodes| - 1].Object?
      modifies this`current, this`errors, this`nodes
      ensures old(current) <= current
      ensures Progress(step, Text.ReadMembers(old(Rest()), old(nodes[|nodes| - 1].members), lastName,
                                              old(|nodes|), toDouble),
                       name, old(current), old(Below()), old(errors))
      decreases |document| - current, 2, 1
    {
      name := "";
      ghost var t := T.ReadPastComments(Rest());
      var token, read := SkipCommentTokens();
      if token.kind == T.ObjectEnd && lastName == "" {
        assert nodes == Below() + [nodes[|nodes| - 1]];
        return Some(Returned(true)), name;
      }
      if token.kind != T.StringToken {
        var ok := AddErrorAndRecover("Missing '}' or object member name", token, T.ObjectEnd);
        return Some(Returned(ok)), name;
      }
      var ok;
      ok, name := DecodeStringToken(token, t);
      if !ok {
        ok := RecoverFromError(T.ObjectEnd);
        return Some(Returned(ok)), name;
      }
      step := ReadColon(name);
    }

    method ReadColon(name: string) returns (step: Option<Outcome>)
      requires Valid() && nodes != [] && nodes[|nodes| - 1].Object?
      modifies this`current, this`errors, this`nodes
      ensures old(current) <= current
      ensures Progress(step, Text.ReadColon(old(Rest()), old(nodes[|nodes| - 1].members), name, old(|nodes|), toDouble),
                       name, old(current), old(Below()), old(errors))
      decreases |document| - current, 2, 1
    {
      var colon, read := ReadToken();
      if !read || colon.kind != T.MemberSeparator {
        var ok := AddErrorAndRecover("Missing ':' after object member name", colon, T.ObjectEnd);
        return Some(Returned(ok));
      }
      step := ReadMember(name);
    }

    method AfterMember(ghost name: string) returns (step: Option<Outcome>)
      requires Valid() && nodes != [] && nodes[|nodes| - 1].Object?
      modifies this`current, this`errors
      ensures old(current) <= current
      ensures Progress(step, Text.AfterMember(old(Rest()), nodes[|nodes| - 1].members, name, |nodes|, toDouble),
                       name, old(current), Below(), old(errors))
    {
      assert nodes == Below() + [nodes[|nodes| - 1]];
      var comma, read := ReadToken();
      if !read || (comma.kind != T.ObjectEnd && comma.kind != T.ArraySeparator && comma.kind != T.CommentToken) {
        var ok := AddErrorAndRecover("Missing ',' or '}' in object declaration", comma, T.ObjectEnd);
        return Some(Returned(ok));
      }
      if comma.kind == T.CommentToken {
        comma, read := SkipCommentTokens();
      }
      if comma.kind == T.ObjectEnd {
        return Some(Returned(true));
      }
      return None;
    }

    /** The member's value, and what follows it. */
    method ReadMember(name: string) returns (step: Option<Outcome>)
      requires Valid() && nodes != [] && nodes[|nodes| - 1].Object?
      modifies this`current, this`errors, this`nodes
      ensures old(current) <= current
      ensures Progress(step, Text.ReadMember(old(Rest()), old(nodes[|nodes| - 1].members), name,
                                             old(|nodes|), toDouble),
                       name, old(current), old(Below()), old(errors))
      decreases |document| - current, 2, 0
    {
      var members := nodes[|nodes| - 1].members;
      nodes := nodes + [Lookup(members, name)];
      var outcome := ReadValue();
      if outcome.Thrown? {
        return Some(outcome);
      }
      var value := nodes[|nodes| - 1];
      nodes := nodes[..|nodes| - 1];
      SetCurrentValue(Object(Put(members, name, value)));
      if !outcome.successful {
        var ok := RecoverFromError(T.ObjectEnd);
        return Some(Returned(ok));
      }
      step := AfterMember(name);
    }

    /** `parse`: true exactly when no error is recorded; the root is then the value, and
        it is the only node left. */
    method Parse(text: string, oldRoot: Value) returns (outcome: Outcome, root: Value)
      modifies this`document, this`current, this`errors, this`nodes
      ensures Valid() && document == text
      ensures outcome.Thrown? <==> Text.ParseDocument(text, toDouble).TooDeep?
      ensures outcome == Returned(true) <==> Text.ParseDocument(text, toDouble).Parsed?
      ensures outcome == Returned(true) ==> root == Text.ParseDocument(text, toDouble).value
      ensures outcome.Returned? ==> nodes == [root] && (outcome.successful <==> errors == [])
    {
      document, current, errors, nodes, root := text, 0, [], [oldRoot], oldRoot;
      assert Rest() == text;
      outcome := ReadValue();
      if outcome.Thrown? {
        return;
      }
      root := nodes[0];
      var token, read := SkipCommentTokens();
    }
  }
}
