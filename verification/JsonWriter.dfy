/** `Json::FastWriter` (src/jsoncpp.cpp) with its default settings. */
module JsonWriter {
  import opened JsonValue
  import opened Sequences
  import Number = JsonNumber
  import Str = JsonString
  import Text = JsonText

  /** A member is found under its own name. */
  lemma {:induction false} LookupAt(members: seq<Member>, i: nat)
    requires Sorted(members) && i < |members|
    ensures Lookup(members, members[i].name) == members[i].value
  {
    NameLessTotal(members[0].name, members[i].name);
    if i > 0 {
      assert NameLess(members[0].name, members[i].name);
      LookupAt(members[1..], i - 1);
    }
  }

  class FastWriter {
    var document: string
    const realText: nat -> string

    constructor (realText: nat -> string)
      ensures document == "" && this.realText == realText
    {
      document := "";
      this.realText := realText;
    }

    method Write(root: Value) returns (text: string)
      requires Text.Representable(root)
      modifies this
      ensures text == document == Text.WriteDocument(root, realText)
    {
      document := "";
      WriteValue(root);
      document := document + "\n";
      text := document;
    }

    method WriteValue(value: Value)
      requires Text.Representable(value)
      modifies this
      ensures document == old(document) + Text.Write(value, realText)
      decreases value, 2
    {
      match value {
        case Null => document := document + "null";
        case Bool(b) => document := document + if b then "true" else "false";
        case Int(i) =>
          var text := Number.ValueToString(i);
          document := document + text;
        case UInt(u) =>
          var text := Number.ValueToString(u);
          document := document + text;
        case Real(bits) => document := document + realText(bits);
        case Str(s) =>
          var text := Str.ValueToQuotedString(s);
          document := document + text;
        case Array(_) => WriteArray(value);
        case Object(_) => WriteObject(value);
      }
    }

    static lemma NoComma(a: string)
      ensures a + "" == a
    {
    }

    method WriteArray(value: Value)
      requires value.Array? && Text.Representable(value)
      modifies this
      ensures document == old(document) + Text.Write(value, realText)
      decreases value, 0
    {
      ghost var result := document + Text.Write(value, realText);
      Regroup(document, "[", Text.ItemsText(value, 0, realText));
      document := document + "[";
      var size := |value.items|;
      for index := 0 to size
        invariant document + Text.ItemsText(value, index, realText) == result
      {
        ghost var tail := Text.ItemsText(value, index + 1, realText);
        ghost var item := Text.Write(value.items[index], realText);
        Regroup(document, Text.Comma(index), item + tail);
        if index > 0 {
          document := document + ",";
        }
        NoComma(document);
        Regroup(document, item, tail);
        WriteValue(value.items[index]);
      }
      document := document + "]";
    }

    method WriteObject(value: Value)
      requires value.Object? && Text.Representable(value)
      modifies this
      ensures document == old(document) + Text.Write(value, realText)
      decreases value, 1
    {
      ghost var result := document + Text.Write(value, realText);
      Regroup(document, "{", Text.MembersText(value, 0, realText));
      document := document + "{";
      var size := |value.members|;
      for it := 0 to size
        invariant document + Text.MembersText(value, it, realText) == result
      {
        WriteMember(value, it);
      }
      document := document + "}";
    }

    /** One member: its name, and the value looked up under that name. */
    method WriteMember(value: Value, it: nat)
      requires value.Object? && Text.Representable(value) && it < |value.members|
      modifies this
      ensures document + Text.MembersText(value, it + 1, realText)
           == old(document) + Text.MembersText(value, it, realText)
      decreases value, 0
    {
      ghost var rest := Text.MembersText(value, it + 1, realText);
      ghost var body := Text.Write(value.members[it].value, realText);
      var name := value.members[it].name;
      NoComma(document);
      Regroup(document, Text.Comma(it), Str.Quote(name) + (":" + (body + rest)));
      if it > 0 {
        document := document + ",";
      }
      var text := Str.ValueToQuotedString(name);
      Regroup(document, text, ":" + (body + rest));
      document := document + text;
      Regroup(document, ":", body + rest);
      document := document + ":";
      LookupAt(value.members, it);
      Regroup(document, body, rest);
      WriteValue(Lookup(value.members, name));
    }
  }
}
