/** What `Json::Reader` makes of a text and what `Json::FastWriter` makes of a value
    (src/jsoncpp.cpp), and that the one undoes the other. */
module JsonText {
  import opened Wrappers
  import opened Utf8
  import opened JsonString
  import opened JsonNumber
  import opened JsonValue
  import opened JsonToken

  // Reading.

  /** TooDeep is the exception that `readValue` throws. */
  datatype ReadResult = Parsed(value: Value, rest: string) | Rejected | TooDeep

  const STACK_LIMIT := 1000

  /** `readValue` with `h` values on the stack of nodes; `toDouble` reads the number
      tokens that are no 64-bit integers. */
  function ReadValue(s: string, h: nat, toDouble: string -> Option<nat>): (r: ReadResult)
    ensures r.Parsed? ==> |r.rest| < |s|
    decreases |s|, 1
  {
    if h > STACK_LIMIT then TooDeep
    else
      var t := ReadPastComments(s);
      if t.kind == EndOfStream then Rejected else ReadFrom(t, h, toDouble)
  }

  function Reading(value: Option<Value>, rest: string): (r: ReadResult)
    ensures r.Parsed? ==> r.rest == rest
  {
    match value
    case None => Rejected
    case Some(v) => Parsed(v, rest)
  }

  function DecodeNumberToken(text: string, toDouble: string -> Option<nat>): Option<Value>
    requires text != ""
  {
    match DecodeInteger(text)
    case Some(v) => Some(v)
    case None =>
      match toDouble(text)
      case None => None
      case Some(bits) => Some(Real(bits))
  }

  function DecodeStringToken(text: string): Option<Value>
    requires |text| >= 2
  {
    match Unescape(text[1..|text| - 1])
    case None => None
    case Some(s) => Some(Str(s))
  }

  function ReadFrom(t: Token, h: nat, toDouble: string -> Option<nat>): (r: ReadResult)
    requires t.kind == StringToken ==> |t.text| >= 2
    requires t.kind == NumberToken ==> t.text != ""
    ensures r.Parsed? ==> |r.rest| <= |t.rest|
    decreases |t.rest|, 3
  {
    match t.kind
    case ObjectBegin => ReadMembers(t.rest, [], "", h, toDouble)
    case ArrayBegin => ReadArray(t.rest, h, toDouble)
    case NumberToken => Reading(DecodeNumberToken(t.text, toDouble), t.rest)
    case StringToken => Reading(DecodeStringToken(t.text), t.rest)
    case TrueToken => Parsed(Bool(true), t.rest)
    case FalseToken => Parsed(Bool(false), t.rest)
    case NullToken => Parsed(Null, t.rest)
    case _ => Rejected
  }

  function ReadArray(s: string, h: nat, toDouble: string -> Option<nat>): (r: ReadResult)
    ensures r.Parsed? ==> |r.rest| <= |s|
    decreases |s|, 2, 1
  {
    var inside := SkipSpaces(s);
    if inside != "" && inside[0] == ']' then Parsed(Array([]), inside[1..])
    else ReadItems(inside, [], h, toDouble)
  }

  /** The loop of `readArray`. */
  function ReadItems(s: string, items: seq<Value>, h: nat, toDouble: string -> Option<nat>): (r: ReadResult)
    ensures r.Parsed? ==> |r.rest| < |s|
    decreases |s|, 2, 0
  {
    match ReadValue(s, h + 1, toDouble)
    case Rejected => Rejected
    case TooDeep => TooDeep
    case Parsed(v, rest) =>
      var t := ReadPastComments(rest);
      if t.kind == ArrayEnd then Parsed(Array(items + [v]), t.rest)
      else if t.kind == ArraySeparator then ReadItems(t.rest, items + [v], h, toDouble)
      else Rejected
  }

  /** The loop of `readObject`; `name` is the name read last. */
  function ReadMembers(s: string, members: seq<Member>, name: string, h: nat, toDouble: string -> Option<nat>)
    : (r: ReadResult)
    ensures r.Parsed? ==> |r.rest| <= |s|
    decreases |s|, 0
  {
    var t := ReadPastComments(s);
    if t.kind == ObjectEnd && name == "" then Parsed(Object(members), t.rest)
    else if t.kind != StringToken then Rejected
    else
      match Unescape(t.text[1..|t.text| - 1])
      case None => Rejected
      case Some(newName) => ReadColon(t.rest, members, newName, h, toDouble)
  }

  /** A member from after its name. */
  function ReadColon(s: string, members: seq<Member>, name: string, h: nat, toDouble: string -> Option<nat>)
    : (r: ReadResult)
    ensures r.Parsed? ==> |r.rest| < |s|
    decreases |s|, 0
  {
    var colon := ReadToken(s);
    if colon.kind != MemberSeparator then Rejected else ReadMember(colon.rest, members, name, h, toDouble)
  }

  /** A member from after its colon. */
  function ReadMember(s: string, members: seq<Member>, name: string, h: nat, toDouble: string -> Option<nat>)
    : (r: ReadResult)
    ensures r.Parsed? ==> |r.rest| < |s|
    decreases |s|, 2
  {
    match ReadValue(s, h + 1, toDouble)
    case Rejected => Rejected
    case TooDeep => TooDeep
    case Parsed(v, rest) => AfterMember(rest, Put(members, name, v), name, h, toDouble)
  }

  /** After a member: a comment must end in a brace to close the object; without one, a
      comma must follow. */
  function AfterMember(s: string, members: seq<Member>, name: string, h: nat, toDouble: string -> Option<nat>)
    : (r: ReadResult)
    ensures r.Parsed? ==> |r.rest| <= |s|
    decreases |s|, 1
  {
    var comma := ReadToken(s);
    if comma.kind == ObjectEnd then Parsed(Object(members), comma.rest)
    else if comma.kind == ArraySeparator then ReadMembers(comma.rest, members, name, h, toDouble)
    else if comma.kind == CommentToken then
      var t := ReadPastComments(comma.rest);
      if t.kind == ObjectEnd then Parsed(Object(members), t.rest)
      else ReadMembers(t.rest, members, name, h, toDouble)
    else Rejected
  }

  // Writing.

  /** A value that jsoncpp can hold. */
  predicate Representable(v: Value)
    decreases v
  {
    match v
    case Int(i) => -(MAX_LARGEST_INT + 1) <= i <= MAX_LARGEST_INT
    case UInt(u) => u <= MAX_LARGEST_UINT
    case Str(s) => IsBytes(s)
    case Array(items) => forall i :: 0 <= i < |items| ==> Representable(items[i])
    case Object(members) =>
      && Sorted(members)
      && forall i :: 0 <= i < |members| ==> IsBytes(members[i].name) && Representable(members[i].value)
    case _ => true
  }

  /** `writeValue`; `realText` prints the reals. */
  function Write(v: Value, realText: nat -> string): string
    requires Representable(v)
    decreases v, 1, 0
  {
    match v
    case Null => "null"
    case Bool(b) => if b then "true" else "false"
    case Int(i) => IntText(i)
    case UInt(u) => IntText(u)
    case Real(bits) => realText(bits)
    case Str(s) => Quote(s)
    case Array(_) => "[" + ItemsText(v, 0, realText)
    case Object(_) => "{" + MembersText(v, 0, realText)
  }

  function Comma(k: nat): string {
    if k > 0 then "," else ""
  }

  /** What the array loop still has to append from index `k`, with the closing bracket. */
  function ItemsText(v: Value, k: nat, realText: nat -> string): string
    requires v.Array? && Representable(v) && k <= |v.items|
    decreases v, 0, |v.items| - k
  {
    if k == |v.items| then "]"
    else Comma(k) + (Write(v.items[k], realText) + ItemsText(v, k + 1, realText))
  }

  function MembersText(v: Value, k: nat, realText: nat -> string): string
    requires v.Object? && Representable(v) && k <= |v.members|
    decreases v, 0, |v.members| - k
  {
    if k == |v.members| then "}"
    else
      var m := v.members[k];
      Comma(k) + (Quote(m.name) + (":" + (Write(m.value, realText) + MembersText(v, k + 1, realText))))
  }

  // One step of the reader.

  lemma ScalarIsRead(s: string, t: Token, h: nat, toDouble: string -> Option<nat>)
    requires ReadPastComments(s) == t && t.kind != EndOfStream
    ensures ReadValue(s, h, toDouble) == if h > STACK_LIMIT then TooDeep else ReadFrom(t, h, toDouble)
  {
  }

  lemma ArrayIsRead(s: string, h: nat, toDouble: string -> Option<nat>)
    requires h <= STACK_LIMIT && s != "" && !IsSpace(s[0])
    ensures ReadValue("[" + s, h, toDouble)
         == if s[0] == ']' then Parsed(Array([]), s[1..]) else ReadItems(s, [], h, toDouble)
  {
    PunctuationToken('[', s);
    ScalarIsRead("[" + s, Token(ArrayBegin, "[", s), h, toDouble);
    assert ReadFrom(Token(ArrayBegin, "[", s), h, toDouble) == ReadArray(s, h, toDouble);
    assert SkipSpaces(s) == s;
  }

  lemma ObjectIsRead(s: string, h: nat, toDouble: string -> Option<nat>)
    requires h <= STACK_LIMIT
    ensures ReadValue("{" + s, h, toDouble) == ReadMembers(s, [], "", h, toDouble)
  {
    PunctuationToken('{', s);
    ScalarIsRead("{" + s, Token(ObjectBegin, "{", s), h, toDouble);
  }

  lemma LastItem(s: string, items: seq<Value>, h: nat, toDouble: string -> Option<nat>, v: Value, rest: string)
    requires ReadValue(s, h + 1, toDouble) == Parsed(v, "]" + rest)
    ensures ReadItems(s, items, h, toDouble) == Parsed(Array(items + [v]), rest)
  {
    PunctuationToken(']', rest);
  }

  lemma NextItem(s: string, items: seq<Value>, h: nat, toDouble: string -> Option<nat>, v: Value, rest: string)
    requires ReadValue(s, h + 1, toDouble) == Parsed(v, "," + rest)
    ensures ReadItems(s, items, h, toDouble) == ReadItems(rest, items + [v], h, toDouble)
  {
    PunctuationToken(',', rest);
  }

  lemma NoMembers(rest: string, h: nat, toDouble: string -> Option<nat>)
    ensures ReadMembers("}" + rest, [], "", h, toDouble) == Parsed(Object([]), rest)
  {
    PunctuationToken('}', rest);
  }

  lemma QuoteDecodes(key: string)
    requires IsBytes(key)
    ensures |Quote(key)| >= 2 && Unescape(Quote(key)[1..|Quote(key)| - 1]) == Some(Repaired(key))
  {
    QuoteIs(key);
    assert Quote(key)[1..|Quote(key)| - 1] == Escape(key);
    UnescapeEscape(key);
  }

  /** A written name and colon: what remains is to read the value. */
  lemma MemberIsRead(key: string, s: string, members: seq<Member>, name: string, h: nat,
      toDouble: string -> Option<nat>)
    requires IsBytes(key)
    ensures ReadMembers(Quote(key) + (":" + s), members, name, h, toDouble)
         == ReadMember(s, members, Repaired(key), h, toDouble)
  {
    QuotedToken(key, ":" + s);
    QuoteDecodes(key);
    PunctuationToken(':', s);
  }

  lemma LastMember(members: seq<Member>, name: string, h: nat, toDouble: string -> Option<nat>, rest: string)
    ensures AfterMember("}" + rest, members, name, h, toDouble) == Parsed(Object(members), rest)
  {
    PunctuationToken('}', rest);
  }

  lemma NextMember(members: seq<Member>, name: string, h: nat, toDouble: string -> Option<nat>, rest: string)
    ensures AfterMember("," + rest, members, name, h, toDouble) == ReadMembers(rest, members, name, h, toDouble)
  {
    PunctuationToken(',', rest);
  }

  // Reading what was written.

  predicate NoReals(v: Value)
    decreases v
  {
    match v
    case Real(_) => false
    case Array(items) => forall i :: 0 <= i < |items| ==> NoReals(items[i])
    case Object(members) => forall i :: 0 <= i < |members| ==> NoReals(members[i].value)
    case _ => true
  }

  function Max(a: nat, b: nat): nat {
    if a < b then b else a
  }

  /** The nesting depth; one for a value without children. */
  function Depth(v: Value): (d: nat)
    ensures d > 0
    decreases v, 1, 0
  {
    match v
    case Array(_) => 1 + ItemsDepth(v, 0)
    case Object(_) => 1 + MembersDepth(v, 0)
    case _ => 1
  }

  function ItemsDepth(v: Value, k: nat): nat
    requires v.Array? && k <= |v.items|
    decreases v, 0, |v.items| - k
  {
    if k == |v.items| then 0 else Max(Depth(v.items[k]), ItemsDepth(v, k + 1))
  }

  function MembersDepth(v: Value, k: nat): nat
    requires v.Object? && k <= |v.members|
    decreases v, 0, |v.members| - k
  {
    if k == |v.members| then 0 else Max(Depth(v.members[k].value), MembersDepth(v, k + 1))
  }

  /** The value that comes back: integers with the reader's tags, strings as UTF-8. */
  function Reread(v: Value): Value
    requires Representable(v)
    decreases v, 1, 0
  {
    match v
    case Int(i) => Tagged(i)
    case UInt(u) => Tagged(u)
    case Str(s) => Str(Repaired(s))
    case Array(_) => Array(RereadItems(v, 0))
    case Object(_) => Object(RereadMembers(v, 0, []))
    case _ => v
  }

  function RereadItems(v: Value, k: nat): seq<Value>
    requires v.Array? && Representable(v) && k <= |v.items|
    decreases v, 0, |v.items| - k
  {
    if k == |v.items| then [] else [Reread(v.items[k])] + RereadItems(v, k + 1)
  }

  function RereadMembers(v: Value, k: nat, done: seq<Member>): seq<Member>
    requires v.Object? && Representable(v) && k <= |v.members|
    decreases v, 0, |v.members| - k
  {
    if k == |v.members| then done
    else RereadMembers(v, k + 1, Put(done, Repaired(v.members[k].name), Reread(v.members[k].value)))
  }

  /** The result of reading a text of depth `d` at height `h`. */
  function AtDepth(h: nat, d: nat, v: Value, rest: string): ReadResult {
    if h + d <= STACK_LIMIT + 1 then Parsed(v, rest) else TooDeep
  }

  predicate BeginsValue(s: string) {
    s != "" && !IsSpace(s[0]) && s[0] != ']'
  }

  lemma WrittenBegins(v: Value, realText: nat -> string, rest: string)
    requires Representable(v) && NoReals(v)
    ensures BeginsValue(Write(v, realText) + rest)
  {
    match v
    case Str(s) => QuoteIs(s);
    case Array(_) => assert Write(v, realText)[0] == '[';
    case Object(_) => assert Write(v, realText)[0] == '{';
    case _ =>
  }

  lemma TooDeepAnyway(s: string, h: nat, toDouble: string -> Option<nat>)
    requires h > STACK_LIMIT
    ensures ReadValue(s, h, toDouble) == TooDeep
  {
  }

  lemma ReadInteger(n: int, rest: string, h: nat, toDouble: string -> Option<nat>)
    requires -(MAX_LARGEST_INT + 1) <= n <= MAX_LARGEST_UINT && EndsNumber(rest)
    ensures ReadValue(IntText(n) + rest, h, toDouble) == AtDepth(h, 1, Tagged(n), rest)
  {
    IntegerToken(n, rest);
    IntTextDecodes(n);
    ScalarIsRead(IntText(n) + rest, Token(NumberToken, IntText(n), rest), h, toDouble);
  }

  lemma ReadQuoted(s: string, rest: string, h: nat, toDouble: string -> Option<nat>)
    requires IsBytes(s)
    ensures ReadValue(Quote(s) + rest, h, toDouble) == AtDepth(h, 1, Str(Repaired(s)), rest)
  {
    QuotedToken(s, rest);
    QuoteDecodes(s);
    ScalarIsRead(Quote(s) + rest, Token(StringToken, Quote(s), rest), h, toDouble);
  }

  lemma ReadWrittenScalar(v: Value, rest: string, h: nat, toDouble: string -> Option<nat>, realText: nat -> string)
    requires Representable(v) && NoReals(v) && EndsNumber(rest) && !v.Array? && !v.Object?
    ensures ReadValue(Write(v, realText) + rest, h, toDouble) == AtDepth(h, 1, Reread(v), rest)
  {
    match v
    case Null =>
      WordToken('n', "ull", rest);
      assert ['n'] + "ull" == "null";
      ScalarIsRead("null" + rest, Token(NullToken, "null", rest), h, toDouble);
    case Bool(b) =>
      if b {
        WordToken('t', "rue", rest);
        assert ['t'] + "rue" == "true";
        ScalarIsRead("true" + rest, Token(TrueToken, "true", rest), h, toDouble);
      } else {
        WordToken('f', "alse", rest);
        assert ['f'] + "alse" == "false";
        ScalarIsRead("false" + rest, Token(FalseToken, "false", rest), h, toDouble);
      }
    case Int(i) => ReadInteger(i, rest, h, toDouble);
    case UInt(u) => ReadInteger(u, rest, h, toDouble);
    case Str(s) => ReadQuoted(s, rest, h, toDouble);
  }

  /** The reader takes back everything the writer writes: it gives the value, up to the
      tags of integers and the repair of strings, and throws exactly when the value is
      nested too deeply. */
  lemma {:induction false} ReadWritten(v: Value, rest: string, h: nat, toDouble: string -> Option<nat>,
      realText: nat -> string)
    requires Representable(v) && NoReals(v) && EndsNumber(rest)
    ensures ReadValue(Write(v, realText) + rest, h, toDouble) == AtDepth(h, Depth(v), Reread(v), rest)
    decreases v, 1, 0
  {
    match v
    case Array(_) =>
      if h <= STACK_LIMIT { ReadWrittenArray(v, rest, h, toDouble, realText); }
      else { TooDeepAnyway(Write(v, realText) + rest, h, toDouble); }
    case Object(_) =>
      if h <= STACK_LIMIT { ReadWrittenObject(v, rest, h, toDouble, realText); }
      else { TooDeepAnyway(Write(v, realText) + rest, h, toDouble); }
    case _ => ReadWrittenScalar(v, rest, h, toDouble, realText);
  }

  lemma Regroup(a: string, b: string, c: string, d: string)
    ensures a + (b + c) + d == a + (b + (c + d))
  {
  }

  lemma Regroup5(a: string, b: string, c: string, d: string, e: string, f: string)
    ensures a + (b + (c + (d + e))) + f == a + (b + (c + (d + (e + f))))
  {
    Regroup(a, b, c + (d + e), f);
    Regroup(c, d, e, f);
  }

  lemma DropEmpty(s: string)
    ensures "" + s == s
  {
  }

  lemma ItemsTextIs(v: Value, k: nat, realText: nat -> string, rest: string)
    requires v.Array? && Representable(v) && k < |v.items|
    ensures ItemsText(v, k, realText) + rest
         == Comma(k) + (Write(v.items[k], realText) + (ItemsText(v, k + 1, realText) + rest))
  {
    Regroup(Comma(k), Write(v.items[k], realText), ItemsText(v, k + 1, realText), rest);
  }

  lemma LastItemAtDepth(s: string, items: seq<Value>, h: nat, toDouble: string -> Option<nat>, v: Value, d: nat,
      rest: string)
    requires ReadValue(s, h + 1, toDouble) == AtDepth(h + 1, d, v, "]" + rest)
    ensures ReadItems(s, items, h, toDouble) == AtDepth(h + 1, Max(d, 0), Array(items + [v]), rest)
  {
    if h + 1 + d <= STACK_LIMIT + 1 { LastItem(s, items, h, toDouble, v, rest); }
  }

  lemma NextItemAtDepth(s: string, items: seq<Value>, h: nat, toDouble: string -> Option<nat>, v: Value, d: nat,
      next: string, result: Value, e: nat, rest: string)
    requires ReadValue(s, h + 1, toDouble) == AtDepth(h + 1, d, v, "," + next)
    requires ReadItems(next, items + [v], h, toDouble) == AtDepth(h + 1, e, result, rest)
    ensures ReadItems(s, items, h, toDouble) == AtDepth(h + 1, Max(d, e), result, rest)
  {
    if h + 1 + d <= STACK_LIMIT + 1 { NextItem(s, items, h, toDouble, v, next); }
  }

  lemma ItemEnds(v: Value, k: nat, realText: nat -> string, rest: string)
    requires v.Array? && Representable(v) && 0 < k <= |v.items|
    ensures EndsNumber(ItemsText(v, k, realText) + rest)
    ensures k == |v.items| ==> ItemsText(v, k, realText) + rest == "]" + rest
  {
    if k < |v.items| { ItemsTextIs(v, k, realText, rest); }
  }

  lemma {:induction false} ReadWrittenItems(v: Value, k: nat, done: seq<Value>, rest: string, h: nat,
      toDouble: string -> Option<nat>, realText: nat -> string)
    requires v.Array? && Representable(v) && NoReals(v) && k < |v.items|
    ensures ReadItems(Write(v.items[k], realText) + (ItemsText(v, k + 1, realText) + rest), done, h, toDouble)
         == AtDepth(h + 1, ItemsDepth(v, k), Array(done + RereadItems(v, k)), rest)
    decreases v, 0, |v.items| - k
  {
    var after := ItemsText(v, k + 1, realText) + rest;
    var text, item, d := Write(v.items[k], realText) + after, Reread(v.items[k]), Depth(v.items[k]);
    ItemEnds(v, k + 1, realText, rest);
    ReadWritten(v.items[k], after, h + 1, toDouble, realText);
    if k + 1 == |v.items| {
      assert RereadItems(v, k) == [item];
      LastItemAtDepth(text, done, h, toDouble, item, d, rest);
    } else {
      var next := Write(v.items[k + 1], realText) + (ItemsText(v, k + 2, realText) + rest);
      ItemsTextIs(v, k + 1, realText, rest);
      ReadWrittenItems(v, k + 1, done + [item], rest, h, toDouble, realText);
      assert done + [item] + RereadItems(v, k + 1) == done + RereadItems(v, k);
      NextItemAtDepth(text, done, h, toDouble, item, d, next,
                      Array(done + RereadItems(v, k)), ItemsDepth(v, k + 1), rest);
    }
  }

  lemma FirstItemText(v: Value, realText: nat -> string, rest: string)
    requires v.Array? && Representable(v) && v.items != []
    ensures ItemsText(v, 0, realText) + rest == Write(v.items[0], realText) + (ItemsText(v, 1, realText) + rest)
  {
    ItemsTextIs(v, 0, realText, rest);
    DropEmpty(Write(v.items[0], realText) + (ItemsText(v, 1, realText) + rest));
  }

  lemma BeginsWithItem(v: Value, realText: nat -> string, rest: string)
    requires v.Array? && Representable(v) && NoReals(v) && v.items != []
    ensures var text := ItemsText(v, 0, realText) + rest;
      text == Write(v.items[0], realText) + (ItemsText(v, 1, realText) + rest) && BeginsValue(text)
  {
    FirstItemText(v, realText, rest);
    WrittenBegins(v.items[0], realText, ItemsText(v, 1, realText) + rest);
  }

  lemma {:induction false} ReadWrittenArray(v: Value, rest: string, h: nat, toDouble: string -> Option<nat>,
      realText: nat -> string)
    requires v.Array? && Representable(v) && NoReals(v) && h <= STACK_LIMIT
    ensures ReadValue(Write(v, realText) + rest, h, toDouble) == AtDepth(h, Depth(v), Reread(v), rest)
    decreases v, 0, |v.items| + 1
  {
    var text := ItemsText(v, 0, realText) + rest;
    assert Write(v, realText) + rest == "[" + text;
    if v.items == [] {
      ArrayIsRead(text, h, toDouble);
    } else {
      BeginsWithItem(v, realText, rest);
      ArrayIsRead(text, h, toDouble);
      ReadWrittenItems(v, 0, [], rest, h, toDouble, realText);
      assert [] + RereadItems(v, 0) == RereadItems(v, 0);
    }
  }

  /** The text of the members from `k`, without the comma before them. */
  function MemberText(v: Value, k: nat, realText: nat -> string, rest: string): string
    requires v.Object? && Representable(v) && k < |v.members|
  {
    Quote(v.members[k].name) + (":" + (Write(v.members[k].value, realText) + (MembersText(v, k + 1, realText) + rest)))
  }

  lemma MembersTextIs(v: Value, k: nat, realText: nat -> string, rest: string)
    requires v.Object? && Representable(v) && k < |v.members|
    ensures MembersText(v, k, realText) + rest == Comma(k) + MemberText(v, k, realText, rest)
  {
    Regroup5(Comma(k), Quote(v.members[k].name), ":", Write(v.members[k].value, realText),
             MembersText(v, k + 1, realText), rest);
  }

  lemma {:induction false} ReadWrittenObject(v: Value, rest: string, h: nat, toDouble: string -> Option<nat>,
      realText: nat -> string)
    requires v.Object? && Representable(v) && NoReals(v) && h <= STACK_LIMIT
    ensures ReadValue(Write(v, realText) + rest, h, toDouble) == AtDepth(h, Depth(v), Reread(v), rest)
    decreases v, 0, |v.members| + 1
  {
    var text := MembersText(v, 0, realText) + rest;
    assert Write(v, realText) + rest == "{" + text;
    ObjectIsRead(text, h, toDouble);
    if v.members == [] {
      NoMembers(rest, h, toDouble);
    } else {
      MembersTextIs(v, 0, realText, rest);
      DropEmpty(MemberText(v, 0, realText, rest));
      ReadWrittenMembers(v, 0, [], "", rest, h, toDouble, realText);
    }
  }

  lemma MemberEnds(v: Value, k: nat, realText: nat -> string, rest: string)
    requires v.Object? && Representable(v) && 0 < k <= |v.members|
    ensures EndsNumber(MembersText(v, k, realText) + rest)
    ensures k == |v.members| ==> MembersText(v, k, realText) + rest == "}" + rest
  {
    if k < |v.members| { MembersTextIs(v, k, realText, rest); }
  }

  lemma MemberAtDepth(key: string, s: string, members: seq<Member>, name: string, h: nat,
      toDouble: string -> Option<nat>,
      v: Value, d: nat, after: string, result: Value, e: nat, rest: string)
    requires IsBytes(key) && ReadValue(s, h + 1, toDouble) == AtDepth(h + 1, d, v, after)
    requires AfterMember(after, Put(members, Repaired(key), v), Repaired(key), h, toDouble)
          == AtDepth(h + 1, e, result, rest)
    ensures ReadMembers(Quote(key) + (":" + s), members, name, h, toDouble) == AtDepth(h + 1, Max(d, e), result, rest)
  {
    MemberIsRead(key, s, members, name, h, toDouble);
  }

  lemma {:induction false} ReadWrittenMembers(v: Value, k: nat, done: seq<Member>, name: string, rest: string, h: nat,
      toDouble: string -> Option<nat>, realText: nat -> string)
    requires v.Object? && Representable(v) && NoReals(v) && k < |v.members| && h <= STACK_LIMIT
    ensures ReadMembers(MemberText(v, k, realText, rest), done, name, h, toDouble)
         == AtDepth(h + 1, MembersDepth(v, k), Object(RereadMembers(v, k, done)), rest)
    decreases v, 0, |v.members| - k
  {
    var m := v.members[k];
    var after := MembersText(v, k + 1, realText) + rest;
    var next, key := Put(done, Repaired(m.name), Reread(m.value)), Repaired(m.name);
    var result, e := Object(RereadMembers(v, k + 1, next)), MembersDepth(v, k + 1);
    MemberEnds(v, k + 1, realText, rest);
    ReadWritten(m.value, after, h + 1, toDouble, realText);
    if k + 1 == |v.members| {
      LastMember(next, key, h, toDouble, rest);
    } else {
      MembersTextIs(v, k + 1, realText, rest);
      NextMember(next, key, h, toDouble, MemberText(v, k + 1, realText, rest));
      ReadWrittenMembers(v, k + 1, next, key, rest, h, toDouble, realText);
    }
    MemberAtDepth(m.name, Write(m.value, realText) + after, done, name, h, toDouble,
                  Reread(m.value), Depth(m.value), after, result, e, rest);
  }

  // The value that comes back.

  predicate IsInteger(v: Value) {
    v.Int? || v.UInt?
  }

  function IntegerOf(v: Value): int
    requires IsInteger(v)
  {
    if v.Int? then v.i else v.u
  }

  /** Equal values, with integers compared by value whatever their tag. */
  predicate SameValue(v: Value, w: Value)
    decreases v
  {
    match v
    case Array(items) =>
      && w.Array? && |items| == |w.items|
      && forall i :: 0 <= i < |items| ==> SameValue(items[i], w.items[i])
    case Object(members) =>
      && w.Object? && |members| == |w.members|
      && forall i :: 0 <= i < |members| ==>
           members[i].name == w.members[i].name && SameValue(members[i].value, w.members[i].value)
    case _ => v == w || (IsInteger(v) && IsInteger(w) && IntegerOf(v) == IntegerOf(w))
  }

  /** Every string and every name is UTF-8. */
  predicate AllUtf8(v: Value)
    requires Representable(v)
    decreases v
  {
    match v
    case Str(s) => WellFormed(s)
    case Array(items) => forall i :: 0 <= i < |items| ==> AllUtf8(items[i])
    case Object(members) =>
      forall i :: 0 <= i < |members| ==> WellFormed(members[i].name) && AllUtf8(members[i].value)
    case _ => true
  }

  lemma {:induction false} ItemReread(v: Value, k: nat, i: nat)
    requires v.Array? && Representable(v) && k <= |v.items|
    ensures |RereadItems(v, k)| == |v.items| - k
    ensures k <= i < |v.items| ==> RereadItems(v, k)[i - k] == Reread(v.items[i])
    decreases |v.items| - k
  {
    if k < |v.items| { ItemReread(v, k + 1, i); }
  }

  predicate NamesUtf8(members: seq<Member>) {
    forall m :: m in members ==> WellFormed(m.name)
  }

  lemma {:induction false} RereadNamesUtf8(v: Value, k: nat, done: seq<Member>)
    requires v.Object? && Representable(v) && k <= |v.members| && NamesUtf8(done)
    ensures NamesUtf8(RereadMembers(v, k, done))
    decreases |v.members| - k
  {
    if k < |v.members| {
      var name, value := Repaired(v.members[k].name), Reread(v.members[k].value);
      RepairedIsWellFormed(v.members[k].name);
      forall m | m in Put(done, name, value) ensures WellFormed(m.name) {
        PutMembers(done, name, value, m);
      }
      RereadNamesUtf8(v, k + 1, Put(done, name, value));
    }
  }

  /** `done` holds the first `k` members as they come back. */
  ghost predicate IsRereadPrefix(v: Value, k: nat, done: seq<Member>)
    requires v.Object? && Representable(v) && k <= |v.members|
  {
    |done| == k && forall i :: 0 <= i < k ==> done[i] == Member(v.members[i].name, Reread(v.members[i].value))
  }

  /** Names in UTF-8 come back as they are, so every member lands at its own place. */
  lemma {:induction false} MembersReread(v: Value, k: nat, done: seq<Member>)
    requires v.Object? && Representable(v) && NamesUtf8(v.members)
    requires k <= |v.members| && IsRereadPrefix(v, k, done)
    ensures IsRereadPrefix(v, |v.members|, RereadMembers(v, k, done))
    decreases |v.members| - k
  {
    if k < |v.members| {
      var m := v.members[k];
      assert m in v.members;
      RepairedOfWellFormed(m.name);
      PutLast(done, m.name, Reread(m.value));
      MembersReread(v, k + 1, done + [Member(m.name, Reread(m.value))]);
    }
  }

  lemma ItemsAgree(v: Value)
    requires v.Array? && Representable(v)
    requires forall i :: 0 <= i < |v.items| ==> (SameValue(v.items[i], Reread(v.items[i])) <==> AllUtf8(v.items[i]))
    ensures SameValue(v, Reread(v)) <==> AllUtf8(v)
  {
    ItemReread(v, 0, 0);
    forall i | 0 <= i < |v.items| ensures Reread(v).items[i] == Reread(v.items[i]) {
      ItemReread(v, 0, i);
    }
  }

  lemma NamesAgree(v: Value, w: Value)
    requires v.Object? && w.Object? && Representable(v) && NamesUtf8(v.members)
    requires IsRereadPrefix(v, |v.members|, w.members)
    requires forall i :: 0 <= i < |v.members| ==>
               (SameValue(v.members[i].value, Reread(v.members[i].value)) <==> AllUtf8(v.members[i].value))
    ensures SameValue(v, w) <==> AllUtf8(v)
  {
    assert forall i :: 0 <= i < |v.members| ==> v.members[i] in v.members;
  }

  lemma NamesDiffer(v: Value)
    requires v.Object? && Representable(v) && !NamesUtf8(v.members)
    ensures !SameValue(v, Reread(v)) && !AllUtf8(v)
  {
    RereadNamesUtf8(v, 0, []);
    var m :| m in v.members && !WellFormed(m.name);
    var i :| 0 <= i < |v.members| && v.members[i] == m;
    var w := RereadMembers(v, 0, []);
    if i < |w| { assert w[i] in w; }
  }

  /** What comes back is the same value iff all of its text was UTF-8. */
  lemma {:induction false} RereadIsSame(v: Value)
    requires Representable(v)
    ensures SameValue(v, Reread(v)) <==> AllUtf8(v)
    decreases v
  {
    match v
    case Str(s) =>
      RepairedIsWellFormed(s);
      if WellFormed(s) { RepairedOfWellFormed(s); }
    case Array(items) =>
      forall i | 0 <= i < |items| ensures SameValue(items[i], Reread(items[i])) <==> AllUtf8(items[i]) {
        RereadIsSame(items[i]);
      }
      ItemsAgree(v);
    case Object(members) =>
      if NamesUtf8(members) {
        MembersReread(v, 0, []);
        forall i | 0 <= i < |members|
          ensures SameValue(members[i].value, Reread(members[i].value)) <==> AllUtf8(members[i].value)
        {
          RereadIsSame(members[i].value);
        }
        NamesAgree(v, Reread(v));
      } else {
        NamesDiffer(v);
      }
    case _ =>
  }

  /** `FastWriter::write`, with its final line feed. */
  function WriteDocument(v: Value, realText: nat -> string): string
    requires Representable(v)
  {
    Write(v, realText) + "\n"
  }

  /** `Reader::parse`: the root is the first value on the stack. */
  function ParseDocument(s: string, toDouble: string -> Option<nat>): ReadResult {
    ReadValue(s, 1, toDouble)
  }

  /** Parsing what was written gives the value back exactly when its text is UTF-8 and
      it is nested at most a thousand deep. */
  lemma RoundTrip(v: Value, toDouble: string -> Option<nat>, realText: nat -> string)
    requires Representable(v) && NoReals(v)
    ensures ParseDocument(WriteDocument(v, realText), toDouble)
         == if Depth(v) <= 1000 then Parsed(Reread(v), "\n") else TooDeep
    ensures var r := ParseDocument(WriteDocument(v, realText), toDouble);
      r.Parsed? && SameValue(v, r.value) <==> Depth(v) <= 1000 && AllUtf8(v)
  {
    ReadWritten(v, "\n", 1, toDouble, realText);
    RereadIsSame(v);
  }
}
