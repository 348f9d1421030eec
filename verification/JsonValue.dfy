/** The values of `Json::Value` that the reader and the writer exchange. */
module JsonValue {

  /** Integers carry the tag that jsoncpp gives them; a real is named by its bits. An
      object is its `std::map` in iteration order. */
  datatype Value =
    | Null
    | Bool(b: bool)
    | Int(i: int)
    | UInt(u: nat)
    | Real(bits: nat)
    | Str(s: string)
    | Array(items: seq<Value>)
    | Object(members: seq<Member>)

  datatype Member = Member(name: string, value: Value)

  const MAX_INT: nat := 0x7FFF_FFFF
  const MAX_LARGEST_INT: nat := 0x7FFF_FFFF_FFFF_FFFF
  const MAX_LARGEST_UINT: nat := 0xFFFF_FFFF_FFFF_FFFF

  /** `CZString::operator<`: byte by byte, a proper prefix first. */
  predicate NameLess(a: string, b: string) {
    if b == "" then false
    else if a == "" then true
    else if a[0] != b[0] then a[0] < b[0]
    else NameLess(a[1..], b[1..])
  }

  lemma {:induction false} NameLessTransitive(a: string, b: string, c: string)
    requires NameLess(a, b) && NameLess(b, c)
    ensures NameLess(a, c)
  {
    if a != "" && a[0] == b[0] == c[0] {
      NameLessTransitive(a[1..], b[1..], c[1..]);
    }
  }

  /** Exactly one of the three holds for any two names. */
  lemma {:induction false} NameLessTotal(a: string, b: string)
    ensures NameLess(a, b) || a == b || NameLess(b, a)
    ensures NameLess(a, b) ==> a != b && !NameLess(b, a)
  {
    if a != "" && b != "" && a[0] == b[0] {
      NameLessTotal(a[1..], b[1..]);
      assert a == [a[0]] + a[1..] && b == [b[0]] + b[1..];
    }
  }

  /** Where two names differ first. */
  predicate DiffersAt(a: string, b: string, k: nat) {
    k <= |a| && k < |b| && a[..k] == b[..k] && (k == |a| || a[k] < b[k])
  }

  lemma {:induction false} NameLessAt(a: string, b: string) returns (k: nat)
    requires NameLess(a, b)
    ensures DiffersAt(a, b, k)
  {
    k := 0;
    if a != "" && a[0] == b[0] {
      k := NameLessAt(a[1..], b[1..]);
      assert a[..k + 1] == [a[0]] + a[1..][..k] && b[..k + 1] == [b[0]] + b[1..][..k];
      k := k + 1;
    }
  }

  lemma {:induction false} DiffersIsLess(a: string, b: string, k: nat)
    requires DiffersAt(a, b, k)
    ensures NameLess(a, b)
  {
    if k > 0 {
      assert a[0] == a[..k][0] == b[..k][0] == b[0];
      assert a[1..][..k - 1] == a[..k][1..] && b[1..][..k - 1] == b[..k][1..];
      DiffersIsLess(a[1..], b[1..], k - 1);
    }
  }

  /** A name is less if and only if it is a proper beginning of the other one, or holds the
      smaller character where they first differ. */
  lemma NameLessIff(a: string, b: string)
    ensures NameLess(a, b) <==> exists k :: DiffersAt(a, b, k)
  {
    if NameLess(a, b) {
      var k := NameLessAt(a, b);
    }
    if k :| DiffersAt(a, b, k) {
      DiffersIsLess(a, b, k);
    }
  }

  /** `object[name] = value`: found by `lower_bound`, else inserted there. */
  function Put(members: seq<Member>, name: string, value: Value): (r: seq<Member>)
    ensures |members| <= |r| <= |members| + 1
  {
    if members == [] then [Member(name, value)]
    else if NameLess(members[0].name, name) then [members[0]] + Put(members[1..], name, value)
    else if members[0].name == name then [Member(name, value)] + members[1..]
    else [Member(name, value)] + members
  }

  /** The value `object[name]` refers to, null when it is new. */
  function Lookup(members: seq<Member>, name: string): Value {
    if members == [] then Null
    else if NameLess(members[0].name, name) then Lookup(members[1..], name)
    else if members[0].name == name then members[0].value
    else Null
  }

  /** Strictly increasing names, as in a `std::map`. */
  predicate Sorted(members: seq<Member>) {
    forall i, j :: 0 <= i < j < |members| ==> NameLess(members[i].name, members[j].name)
  }

  /** A name beyond all others is added at the end. */
  lemma {:induction false} PutLast(members: seq<Member>, name: string, value: Value)
    requires forall i :: 0 <= i < |members| ==> NameLess(members[i].name, name)
    ensures Put(members, name, value) == members + [Member(name, value)]
  {
    if members != [] {
      PutLast(members[1..], name, value);
      assert members == [members[0]] + members[1..];
    }
  }

  lemma {:induction false} PutMembers(members: seq<Member>, name: string, value: Value, m: Member)
    requires m in Put(members, name, value)
    ensures m == Member(name, value) || m in members
  {
    if members != [] && NameLess(members[0].name, name) && m != members[0] {
      PutMembers(members[1..], name, value, m);
    }
  }

  lemma ConsSorted(m: Member, members: seq<Member>)
    requires Sorted(members) && forall n :: n in members ==> NameLess(m.name, n.name)
    ensures Sorted([m] + members)
  {
  }

  /** Adding a member keeps the order. */
  lemma {:induction false} PutSorted(members: seq<Member>, name: string, value: Value)
    requires Sorted(members)
    ensures Sorted(Put(members, name, value))
  {
    if members != [] {
      var rest := members[1..];
      NameLessTotal(members[0].name, name);
      if NameLess(members[0].name, name) {
        PutSorted(rest, name, value);
        forall m | m in Put(rest, name, value) ensures NameLess(members[0].name, m.name) {
          PutMembers(rest, name, value, m);
        }
        ConsSorted(members[0], Put(rest, name, value));
      } else if members[0].name == name {
        ConsSorted(Member(name, value), rest);
      } else {
        forall m | m in members ensures NameLess(name, m.name) {
          if m != members[0] { NameLessTransitive(name, members[0].name, m.name); }
        }
        ConsSorted(Member(name, value), members);
      }
    }
  }

  /** Setting a member changes what is found under its own name only. */
  lemma {:induction false} PutLookup(members: seq<Member>, name: string, value: Value, other: string)
    ensures Lookup(Put(members, name, value), other) == if other == name then value else Lookup(members, other)
  {
    NameLessTotal(name, other);
    if members != [] {
      NameLessTotal(members[0].name, name);
      NameLessTotal(members[0].name, other);
      if NameLess(members[0].name, name) {
        PutLookup(members[1..], name, value, other);
      } else if NameLess(other, name) && NameLess(name, members[0].name) {
        NameLessTransitive(other, name, members[0].name);
      }
    }
  }
}
