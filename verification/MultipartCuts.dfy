/** What the parser of httplib makes of a body that is cut within its opening line
    (include/httplib.h). */
module MultipartCuts {
  import opened Http
  import opened Sequences
  import opened Multipart
  import opened MultipartFraming

  // The chunks that are not forgotten.

  predicate HasOpening(chunk: string, s: string)
    requires s != ""
  {
    Find(chunk, s) < |chunk|
  }

  /** The chunks from the first one on that holds an opening line whole, that one from its
      opening line on. */
  function Kept(chunks: seq<string>, s: string): (r: seq<string>)
    requires s != ""
    ensures r != [] ==> OccursAt(r[0], s, 0)
  {
    if chunks == [] then []
    else if !HasOpening(chunks[0], s) then Kept(chunks[1..], s)
    else
      var k := Find(chunks[0], s);
      assert chunks[0][k..][0..|s|] == chunks[0][k..k + |s|];
      [chunks[0][k..]] + chunks[1..]
  }

  predicate SomeHasOpening(chunks: seq<string>, s: string)
    requires s != ""
  {
    exists j :: 0 <= j < |chunks| && HasOpening(chunks[j], s)
  }

  lemma {:induction false} KeptIff(chunks: seq<string>, s: string)
    requires s != ""
    ensures Kept(chunks, s) != [] <==> SomeHasOpening(chunks, s)
    decreases |chunks|
  {
    if chunks != [] {
      KeptIff(chunks[1..], s);
      assert forall j :: 1 <= j < |chunks| ==> chunks[j] == chunks[1..][j - 1];
    }
  }

  lemma SameStart(chunk: string, s: string)
    requires s != "" && HasOpening(chunk, s)
    ensures var k := Find(chunk, s);
      Find(chunk[k..], s) == 0 && chunk[k..][0..] == chunk[k..]
  {
    var k := Find(chunk, s);
    assert chunk[k..][0..|s|] == chunk[k..k + |s|];
    assert OccursAt(chunk[k..], s, 0);
  }

  /** Starting within a chunk is starting with the rest of it. */
  lemma OpenedInside(chunk: string, rest: seq<string>, setup: Setup)
    requires HasOpening(chunk, Opening(setup.boundary))
    ensures var k := Find(chunk, Opening(setup.boundary));
      Feed(Fresh(), [chunk] + rest, setup) == Feed(Fresh(), [chunk[k..]] + rest, setup)
  {
    var s := Opening(setup.boundary);
    var k := Find(chunk, s);
    SameStart(chunk, s);
    assert "" + chunk == chunk && "" + chunk[k..] == chunk[k..];
    Opened(Fresh().(buf := chunk), setup);
    Opened(Fresh().(buf := chunk[k..]), setup);
    assert ([chunk] + rest)[1..] == rest && ([chunk[k..]] + rest)[1..] == rest;
  }

  /** The parser does with any chunks what it does with those that are kept. */
  lemma {:induction false} OnlyKeptCount(chunks: seq<string>, setup: Setup)
    ensures Feed(Fresh(), chunks, setup) == Feed(Fresh(), Kept(chunks, Opening(setup.boundary)), setup)
    decreases |chunks|
  {
    var s := Opening(setup.boundary);
    if chunks != [] {
      var chunk, rest := chunks[0], chunks[1..];
      assert chunks == [chunk] + rest;
      if HasOpening(chunk, s) {
        OpenedInside(chunk, rest, setup);
      } else {
        assert "" + chunk == chunk;
        NotOpened(Fresh().(buf := chunk), setup);
        OnlyKeptCount(rest, setup);
      }
    }
  }

  // The text of the kept chunks.

  lemma JoinFirst(chunk: string, rest: seq<string>)
    ensures Join([chunk] + rest) == chunk + Join(rest)
  {
    assert ([chunk] + rest)[1..] == rest;
  }

  lemma KeptInside(chunk: string, rest: seq<string>, s: string)
    requires s != "" && HasOpening(chunk, s)
    ensures var p, text := Find(chunk, s), chunk + Join(rest);
      && text[p..] == Join([chunk[p..]] + rest) && OccursAt(text, s, p)
      && (p == 0 <==> OccursAt(chunk, s, 0))
  {
    var p, text := Find(chunk, s), chunk + Join(rest);
    JoinFirst(chunk[p..], rest);
    assert text[p..] == chunk[p..] + Join(rest);
    assert text[p..p + |s|] == chunk[p..p + |s|];
  }

  lemma Shift(a: string, b: string, s: string, q: nat)
    requires q <= |b|
    ensures (a + b)[|a| + q..] == b[q..]
    ensures OccursAt(b, s, q) ==> OccursAt(a + b, s, |a| + q)
  {
    if OccursAt(b, s, q) { assert (a + b)[|a| + q..|a| + q + |s|] == b[q..q + |s|]; }
  }

  /** The first chunk that is not empty. */
  function Lead(chunks: seq<string>): string {
    if chunks == [] then "" else if chunks[0] == "" then Lead(chunks[1..]) else chunks[0]
  }

  /** It is an end of the whole text that starts with an opening line, and the whole text
      if and only if the first chunk that is not empty holds the opening line at its
      start. */
  lemma {:induction false} KeptIsSuffix(chunks: seq<string>, s: string) returns (p: nat)
    requires s != ""
    ensures p <= |Join(chunks)| && Join(chunks)[p..] == Join(Kept(chunks, s))
    ensures Kept(chunks, s) != [] ==> OccursAt(Join(chunks), s, p)
    ensures Kept(chunks, s) != [] && p == 0 <==> OccursAt(Lead(chunks), s, 0)
    decreases |chunks|
  {
    p := 0;
    if chunks != [] {
      var chunk, rest := chunks[0], chunks[1..];
      if HasOpening(chunk, s) {
        p := Find(chunk, s);
        KeptInside(chunk, rest, s);
      } else {
        var q := KeptIsSuffix(rest, s);
        p := |chunk| + q;
        Shift(chunk, Join(rest), s, q);
        assert !OccursAt(chunk, s, 0);
      }
    }
  }

  // Items of which the first ones are lost.

  /** The case of the items from `k` on. */
  function From(c: Case, k: nat): Case
    requires k <= |c.items| == |c.forms|
  {
    Case(c.items[k..], c.forms[k..], c.setup)
  }

  lemma FromIsProper(c: Case, k: nat)
    requires IsProper(c) && k <= |c.items|
    ensures IsProper(From(c, k))
  {
    var d := From(c, k);
    forall j | 0 <= j < |d.items| ensures IsProperItem(d.items[j], d.forms[j], d.setup) {
      assert IsProperItem(c.items[k + j], c.forms[k + j], c.setup);
    }
  }

  lemma SameItem(items: seq<Item>, j: nat, others: seq<Item>, i: nat, boundary: string)
    requires j < |items| && i < |others| && items[j] == others[i]
    requires Serialized(items, j + 1, boundary) == Serialized(others, i + 1, boundary)
    ensures Serialized(items, j, boundary) == Serialized(others, i, boundary)
  {
  }

  lemma OneItem(items: seq<Item>, j: nat, boundary: string)
    requires j < |items|
    ensures |Serialized(items, j + 1, boundary)| < |Serialized(items, j, boundary)|
  {
    assert |CRLF| == 2;
  }

  lemma {:induction false} SerializedFrom(items: seq<Item>, k: nat, j: nat, boundary: string)
    requires k <= j <= |items|
    ensures Serialized(items[k..], j - k, boundary) == Serialized(items, j, boundary)
    decreases |items| - j
  {
    if j < |items| {
      SerializedFrom(items, k, j + 1, boundary);
      SameItem(items, j, items[k..], j - k, boundary);
    }
  }

  ghost predicate BeginsItem(c: Case, text: string) {
    exists k :: 0 <= k < |c.items| && text == Serialized(c.items, k, c.setup.boundary)
  }

  /** An opening line stands only where an item begins, not within a header or a content. */
  ghost predicate OpensItemsOnly(c: Case) {
    var text := Serialized(c.items, 0, c.setup.boundary);
    forall p: nat :: OccursAt(text, Opening(c.setup.boundary), p) ==> BeginsItem(c, text[p..])
  }

  lemma BodyOpens(c: Case)
    requires IsProper(c) && c.items != []
    ensures OccursAt(Serialized(c.items, 0, c.setup.boundary), Opening(c.setup.boundary), 0)
  {
    SerializedIsTail(c, 1);
    SerializedIsPart(c, 0);
    var s := Opening(c.setup.boundary);
    assert (s + PartText(c, 0))[0..|s|] == s;
  }

  lemma {:induction false} LeadStarts(chunks: seq<string>)
    ensures Lead(chunks) <= Join(chunks)
  {
    if chunks != [] { LeadStarts(chunks[1..]); }
  }

  /** The opening line stands at the start of the first chunk exactly when it fits in. */
  lemma LeadIsLongEnough(c: Case, chunks: seq<string>)
    requires IsProper(c) && c.items != [] && Join(chunks) == Serialized(c.items, 0, c.setup.boundary)
    ensures var s := Opening(c.setup.boundary);
      OccursAt(Lead(chunks), s, 0) <==> |Lead(chunks)| >= |s|
  {
    var s := Opening(c.setup.boundary);
    BodyOpens(c);
    LeadStarts(chunks);
    if |Lead(chunks)| >= |s| { assert Lead(chunks)[0..|s|] == Join(chunks)[0..|s|]; }
  }

  lemma {:induction false} ShorterEachTime(items: seq<Item>, j: nat, k: nat, boundary: string)
    requires j <= k <= |items|
    ensures j < k ==> |Serialized(items, k, boundary)| < |Serialized(items, j, boundary)|
    decreases k - j
  {
    if j < k {
      OneItem(items, j, boundary);
      ShorterEachTime(items, j + 1, k, boundary);
    }
  }

  /** The item with which an end of the body begins. */
  lemma WhichItem(c: Case, p: nat) returns (k: nat)
    requires p <= |Serialized(c.items, 0, c.setup.boundary)|
    requires BeginsItem(c, Serialized(c.items, 0, c.setup.boundary)[p..])
    ensures k < |c.items| && Serialized(c.items, 0, c.setup.boundary)[p..] == Serialized(c.items, k, c.setup.boundary)
    ensures k == 0 <==> p == 0
  {
    var text := Serialized(c.items, 0, c.setup.boundary);
    k :| 0 <= k < |c.items| && text[p..] == Serialized(c.items, k, c.setup.boundary);
    ShorterEachTime(c.items, 0, k, c.setup.boundary);
  }

  /** The parser has passed on the items from `k` on, and is valid if there are any. */
  ghost predicate HasRead(r: (bool, Machine), c: Case, k: nat)
    requires k <= |c.items| == |c.forms|
  {
    r.0 && Collected(r.1.log) == Parts(From(c, k), |c.items| - k) && (r.1.valid <==> k < |c.items|)
  }

  lemma NothingIsRead(c: Case)
    requires IsProper(c)
    ensures HasRead(Feed(Fresh(), [], c.setup), c, |c.items|)
  {
  }

  lemma KeptIsParsed(c: Case, k: nat, kept: seq<string>)
    requires IsProper(c) && k < |c.items| && kept != [] && Join(kept) == Serialized(c.items, k, c.setup.boundary)
    requires |kept[0]| >= |Opening(c.setup.boundary)|
    ensures HasRead(Feed(Fresh(), kept, c.setup), c, k)
  {
    FromIsProper(c, k);
    SerializedFrom(c.items, k, k, c.setup.boundary);
    ChunksAgree(From(c, k), kept);
  }

  /** However a body with items is cut: no chunk is refused. If some chunk holds an opening
      line whole, the parser ends valid and has passed on the items from the first such one
      on; otherwise nothing is passed on and it does not end valid. All items are passed on
      if and only if the first chunk that is not empty holds the first opening line. */
  lemma ItemsFromFirstWhole(c: Case, chunks: seq<string>) returns (k: nat)
    requires IsProper(c) && c.items != [] && OpensItemsOnly(c)
    requires Join(chunks) == Serialized(c.items, 0, c.setup.boundary)
    ensures k <= |c.items| && HasRead(Feed(Fresh(), chunks, c.setup), c, k)
    ensures k < |c.items| <==> SomeHasOpening(chunks, Opening(c.setup.boundary))
    ensures k == 0 <==> |Lead(chunks)| >= |Opening(c.setup.boundary)|
  {
    var s := Opening(c.setup.boundary);
    var kept := Kept(chunks, s);
    var p := KeptIsSuffix(chunks, s);
    OnlyKeptCount(chunks, c.setup);
    LeadIsLongEnough(c, chunks);
    KeptIff(chunks, s);
    if kept == [] {
      k := |c.items|;
      NothingIsRead(c);
    } else {
      k := WhichItem(c, p);
      KeptIsParsed(c, k, kept);
    }
  }
}
