/** What the reader builds can be written and read again (src/jsoncpp.cpp). */
module JsonReparse {
  import opened Wrappers
  import opened Utf8
  import opened JsonString
  import opened JsonNumber
  import opened JsonValue
  import opened JsonToken
  import opened JsonText

  // Every scan leaves an end of the bytes it was given.

  lemma {:induction false} SkipDigitsBytes(s: string)
    requires IsBytes(s)
    ensures IsBytes(SkipDigits(s))
  {
    if s != "" && IsDigit(s[0]) { SkipDigitsBytes(s[1..]); }
  }

  lemma NumberRestBytes(s: string)
    requires IsBytes(s)
    ensures IsBytes(NumberRest(s))
  {
    SkipDigitsBytes(s);
    var whole := SkipDigits(s);
    if whole != "" { SkipDigitsBytes(whole[1..]); }
    var fraction := if whole != "" && whole[0] == '.' then SkipDigits(whole[1..]) else whole;
    if fraction != "" {
      var exponent := fraction[1..];
      SkipDigitsBytes(exponent);
      if exponent != "" { SkipDigitsBytes(exponent[1..]); }
    }
  }

  lemma {:induction false} ScanCStyleBytes(s: string)
    requires IsBytes(s)
    ensures IsBytes(ScanCStyle(s).1)
  {
    if |s| >= 2 && !(s[0] == '*' && s[1] == '/') { ScanCStyleBytes(s[1..]); }
  }

  lemma {:induction false} ScanCppStyleBytes(s: string)
    requires IsBytes(s)
    ensures IsBytes(ScanCppStyle(s))
  {
    if s != "" && s[0] != '\n' && s[0] != '\r' { ScanCppStyleBytes(s[1..]); }
  }

  lemma {:induction false} ScanStringBytes(s: string)
    requires IsBytes(s)
    ensures IsBytes(ScanString(s).1)
    decreases |s|
  {
    if s != "" {
      if s[0] == '\\' {
        ScanStringBytes(if |s| == 1 then "" else s[2..]);
      } else if s[0] != '"' {
        ScanStringBytes(s[1..]);
      }
    }
  }

  lemma ScanCommentBytes(s: string)
    requires IsBytes(s)
    ensures IsBytes(ScanComment(s).1)
  {
    if s != "" {
      ScanCStyleBytes(s[1..]);
      ScanCppStyleBytes(s[1..]);
    }
  }

  lemma KindAtBytes(c: char, s: string)
    requires IsBytes(s)
    ensures IsBytes(KindAt(c, s).1)
  {
    ScanStringBytes(s);
    NumberRestBytes(s);
    ScanCommentBytes(s);
  }

  lemma {:induction false} ReadTokenBytes(s: string)
    requires IsBytes(s)
    ensures IsBytes(ReadToken(s).text) && IsBytes(ReadToken(s).rest)
    decreases |s|
  {
    if s != "" {
      if IsSpace(s[0]) { ReadTokenBytes(s[1..]); } else { KindAtBytes(s[0], s[1..]); }
      assert ReadToken(s) == TokenAt(s);
    }
  }

  lemma {:induction false} ReadPastCommentsBytes(s: string)
    requires IsBytes(s)
    ensures IsBytes(ReadPastComments(s).text) && IsBytes(ReadPastComments(s).rest)
    decreases |s|
  {
    ReadTokenBytes(s);
    var t := ReadToken(s);
    if t.kind == CommentToken { ReadPastCommentsBytes(t.rest); }
  }

  lemma {:induction false} SkipSpacesBytes(s: string)
    requires IsBytes(s)
    ensures IsBytes(SkipSpaces(s))
  {
    if s != "" && IsSpace(s[0]) { SkipSpacesBytes(s[1..]); }
  }

  // Every value that is decoded can be held.

  lemma CodePointBytes(s: string)
    requires IsBytes(s) && DecodeUnicodeCodePoint(s).Some?
    ensures IsBytes(DecodeUnicodeCodePoint(s).value.1)
  {
  }

  lemma {:induction false} UnescapeBytes(s: string)
    requires IsBytes(s)
    ensures Unescape(s).Some? ==> IsBytes(Unescape(s).value)
    decreases |s|
  {
    if Unescape(s).Some? && s != "" && s[0] != '"' {
      if s[0] != '\\' {
        UnescapeBytes(s[1..]);
      } else if s[1] == 'u' {
        CodePointBytes(s[2..]);
        UnescapeBytes(DecodeUnicodeCodePoint(s[2..]).value.1);
      } else {
        UnescapeBytes(s[2..]);
      }
    }
  }

  lemma NumberRepresentable(text: string, toDouble: string -> Option<nat>)
    requires text != "" && DecodeNumberToken(text, toDouble).Some?
    ensures Representable(DecodeNumberToken(text, toDouble).value)
  {
    DecodeIsExact(text);
  }

  lemma StringRepresentable(text: string)
    requires |text| >= 2 && IsBytes(text) && DecodeStringToken(text).Some?
    ensures Representable(DecodeStringToken(text).value)
  {
    UnescapeBytes(text[1..|text| - 1]);
  }

  predicate MembersRepresentable(members: seq<Member>) {
    Sorted(members) && forall m :: m in members ==> IsBytes(m.name) && Representable(m.value)
  }

  lemma PutRepresentable(members: seq<Member>, name: string, value: Value)
    requires MembersRepresentable(members) && IsBytes(name) && Representable(value)
    ensures MembersRepresentable(Put(members, name, value))
  {
    PutSorted(members, name, value);
    forall m | m in Put(members, name, value) ensures IsBytes(m.name) && Representable(m.value) {
      PutMembers(members, name, value, m);
    }
  }

  ghost predicate ItemsFit(items: seq<Value>, d: int) {
    forall v :: v in items ==> Depth(v) <= d
  }

  ghost predicate MembersFit(members: seq<Member>, d: int) {
    forall m :: m in members ==> Depth(m.value) <= d
  }

  lemma PutFits(members: seq<Member>, name: string, value: Value, d: int)
    requires MembersFit(members, d) && Depth(value) <= d
    ensures MembersFit(Put(members, name, value), d)
  {
    forall m | m in Put(members, name, value) ensures Depth(m.value) <= d {
      PutMembers(members, name, value, m);
    }
  }

  lemma {:induction false} ArrayFits(v: Value, k: nat, d: nat)
    requires v.Array? && k <= |v.items| && ItemsFit(v.items, d)
    ensures ItemsDepth(v, k) <= d
    decreases |v.items| - k
  {
    if k < |v.items| { ArrayFits(v, k + 1, d); }
  }

  lemma {:induction false} ObjectFits(v: Value, k: nat, d: nat)
    requires v.Object? && k <= |v.members| && MembersFit(v.members, d)
    ensures MembersDepth(v, k) <= d
    decreases |v.members| - k
  {
    if k < |v.members| { ObjectFits(v, k + 1, d); }
  }

  /** A value read at height `h`: it can be held, and it is no deeper than the stack. */
  ghost predicate IsGood(r: ReadResult, h: nat) {
    r.Parsed? ==> Representable(r.value) && h + Depth(r.value) <= STACK_LIMIT + 1 && IsBytes(r.rest)
  }

  ghost predicate GoodItems(items: seq<Value>, h: nat) {
    h <= STACK_LIMIT && ItemsFit(items, STACK_LIMIT - h) && forall v :: v in items ==> Representable(v)
  }

  ghost predicate GoodMembers(members: seq<Member>, h: nat) {
    h <= STACK_LIMIT && MembersFit(members, STACK_LIMIT - h) && MembersRepresentable(members)
  }

  lemma ArrayIsGood(items: seq<Value>, rest: string, h: nat)
    requires GoodItems(items, h) && IsBytes(rest)
    ensures IsGood(Parsed(Array(items), rest), h)
  {
    assert forall i :: 0 <= i < |items| ==> items[i] in items;
    ArrayFits(Array(items), 0, STACK_LIMIT - h);
  }

  lemma ObjectIsGood(members: seq<Member>, rest: string, h: nat)
    requires GoodMembers(members, h) && IsBytes(rest)
    ensures IsGood(Parsed(Object(members), rest), h)
  {
    assert forall i :: 0 <= i < |members| ==> members[i] in members;
    ObjectFits(Object(members), 0, STACK_LIMIT - h);
  }

  lemma ScalarIsGood(value: Option<Value>, rest: string, h: nat)
    requires h <= STACK_LIMIT && IsBytes(rest)
    requires value.Some? ==> Representable(value.value) && Depth(value.value) == 1
    ensures IsGood(Reading(value, rest), h)
  {
  }

  /** On any bytes, whatever is read can be held by jsoncpp, its objects are sorted
      without duplicates, and it is nested no deeper than the stack allows. */
  lemma {:induction false} ReadValueGood(s: string, h: nat, toDouble: string -> Option<nat>)
    requires IsBytes(s)
    ensures IsGood(ReadValue(s, h, toDouble), h)
    decreases |s|, 1
  {
    if h <= STACK_LIMIT {
      ReadPastCommentsBytes(s);
      var t := ReadPastComments(s);
      if t.kind != EndOfStream { ReadFromGood(t, h, toDouble); }
    }
  }

  lemma {:induction false} ReadFromGood(t: Token, h: nat, toDouble: string -> Option<nat>)
    requires t.kind == StringToken ==> |t.text| >= 2
    requires t.kind == NumberToken ==> t.text != ""
    requires IsBytes(t.text) && IsBytes(t.rest) && h <= STACK_LIMIT
    ensures IsGood(ReadFrom(t, h, toDouble), h)
    decreases |t.rest|, 3
  {
    match t.kind
    case ObjectBegin => ReadMembersGood(t.rest, [], "", h, toDouble);
    case ArrayBegin => ReadArrayGood(t.rest, h, toDouble);
    case NumberToken =>
      if DecodeNumberToken(t.text, toDouble).Some? { NumberRepresentable(t.text, toDouble); }
      ScalarIsGood(DecodeNumberToken(t.text, toDouble), t.rest, h);
    case StringToken =>
      if DecodeStringToken(t.text).Some? { StringRepresentable(t.text); }
      ScalarIsGood(DecodeStringToken(t.text), t.rest, h);
    case _ =>
  }

  lemma {:induction false} ReadArrayGood(s: string, h: nat, toDouble: string -> Option<nat>)
    requires IsBytes(s) && h <= STACK_LIMIT
    ensures IsGood(ReadArray(s, h, toDouble), h)
    decreases |s|, 2, 1
  {
    SkipSpacesBytes(s);
    var inside := SkipSpaces(s);
    if inside != "" && inside[0] == ']' {
      ArrayIsGood([], inside[1..], h);
    } else {
      ReadItemsGood(inside, [], h, toDouble);
    }
  }

  lemma {:induction false} ReadItemsGood(s: string, items: seq<Value>, h: nat, toDouble: string -> Option<nat>)
    requires IsBytes(s) && GoodItems(items, h)
    ensures IsGood(ReadItems(s, items, h, toDouble), h)
    decreases |s|, 2, 0
  {
    ReadValueGood(s, h + 1, toDouble);
    match ReadValue(s, h + 1, toDouble)
    case Parsed(v, rest) =>
      ReadPastCommentsBytes(rest);
      var t := ReadPastComments(rest);
      if t.kind == ArrayEnd {
        ArrayIsGood(items + [v], t.rest, h);
      } else if t.kind == ArraySeparator {
        ReadItemsGood(t.rest, items + [v], h, toDouble);
      }
    case _ =>
  }

  lemma {:induction false} ReadMembersGood(s: string, members: seq<Member>, name: string, h: nat,
      toDouble: string -> Option<nat>)
    requires IsBytes(s) && GoodMembers(members, h)
    ensures IsGood(ReadMembers(s, members, name, h, toDouble), h)
    decreases |s|, 0
  {
    ReadPastCommentsBytes(s);
    var t := ReadPastComments(s);
    if t.kind == ObjectEnd && name == "" {
      ObjectIsGood(members, t.rest, h);
    } else if t.kind == StringToken && Unescape(t.text[1..|t.text| - 1]).Some? {
      UnescapeBytes(t.text[1..|t.text| - 1]);
      ReadColonGood(t.rest, members, Unescape(t.text[1..|t.text| - 1]).value, h, toDouble);
    }
  }

  lemma {:induction false} ReadColonGood(s: string, members: seq<Member>, name: string, h: nat,
      toDouble: string -> Option<nat>)
    requires IsBytes(s) && IsBytes(name) && GoodMembers(members, h)
    ensures IsGood(ReadColon(s, members, name, h, toDouble), h)
    decreases |s|, 0
  {
    ReadTokenBytes(s);
    var colon := ReadToken(s);
    if colon.kind == MemberSeparator { ReadMemberGood(colon.rest, members, name, h, toDouble); }
  }

  lemma {:induction false} ReadMemberGood(s: string, members: seq<Member>, name: string, h: nat,
      toDouble: string -> Option<nat>)
    requires IsBytes(s) && IsBytes(name) && GoodMembers(members, h)
    ensures IsGood(ReadMember(s, members, name, h, toDouble), h)
    decreases |s|, 2
  {
    ReadValueGood(s, h + 1, toDouble);
    match ReadValue(s, h + 1, toDouble)
    case Parsed(v, rest) =>
      PutRepresentable(members, name, v);
      PutFits(members, name, v, STACK_LIMIT - h);
      AfterMemberGood(rest, Put(members, name, v), name, h, toDouble);
    case _ =>
  }

  lemma {:induction false} AfterMemberGood(s: string, members: seq<Member>, name: string, h: nat,
      toDouble: string -> Option<nat>)
    requires IsBytes(s) && GoodMembers(members, h)
    ensures IsGood(AfterMember(s, members, name, h, toDouble), h)
    decreases |s|, 1
  {
    ReadTokenBytes(s);
    var comma := ReadToken(s);
    if comma.kind == ObjectEnd {
      ObjectIsGood(members, comma.rest, h);
    } else if comma.kind == ArraySeparator {
      ReadMembersGood(comma.rest, members, name, h, toDouble);
    } else if comma.kind == CommentToken {
      ReadPastCommentsBytes(comma.rest);
      var t := ReadPastComments(comma.rest);
      if t.kind == ObjectEnd {
        ObjectIsGood(members, t.rest, h);
      } else {
        ReadMembersGood(t.rest, members, name, h, toDouble);
      }
    }
  }

  /** Whatever the reader accepts, the writer writes and the reader accepts again: the
      second reading gives the same value iff the first text decoded to UTF-8. */
  lemma AcceptedIsReparsed(s: string, toDouble: string -> Option<nat>, realText: nat -> string)
    requires IsBytes(s) && ParseDocument(s, toDouble).Parsed? && NoReals(ParseDocument(s, toDouble).value)
    ensures var v := ParseDocument(s, toDouble).value;
      && Representable(v)
      && ParseDocument(WriteDocument(v, realText), toDouble) == Parsed(Reread(v), "\n")
      && (SameValue(v, Reread(v)) <==> AllUtf8(v))
  {
    ReadValueGood(s, 1, toDouble);
    RoundTrip(ParseDocument(s, toDouble).value, toDouble, realText);
    RereadIsSame(ParseDocument(s, toDouble).value);
  }

  /** Equal values are written alike: the text does not show the tags of integers. */
  lemma {:induction false} SameText(v: Value, w: Value, realText: nat -> string)
    requires Representable(v) && Representable(w) && SameValue(v, w)
    ensures Write(v, realText) == Write(w, realText)
    decreases v, 1, 0
  {
    match v
    case Array(_) => SameItemsText(v, w, 0, realText);
    case Object(_) => SameMembersText(v, w, 0, realText);
    case _ =>
  }

  lemma {:induction false} SameItemsText(v: Value, w: Value, k: nat, realText: nat -> string)
    requires Representable(v) && Representable(w) && SameValue(v, w) && v.Array? && k <= |v.items|
    ensures ItemsText(v, k, realText) == ItemsText(w, k, realText)
    decreases v, 0, |v.items| - k
  {
    if k < |v.items| {
      SameText(v.items[k], w.items[k], realText);
      SameItemsText(v, w, k + 1, realText);
    }
  }

  lemma {:induction false} SameMembersText(v: Value, w: Value, k: nat, realText: nat -> string)
    requires Representable(v) && Representable(w) && SameValue(v, w) && v.Object? && k <= |v.members|
    ensures MembersText(v, k, realText) == MembersText(w, k, realText)
    decreases v, 0, |v.members| - k
  {
    if k < |v.members| {
      SameText(v.members[k].value, w.members[k].value, realText);
      SameMembersText(v, w, k + 1, realText);
    }
  }
}
