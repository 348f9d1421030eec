/** Multipart bodies, and that the parser of httplib takes them apart in the same way
    however they are cut (include/httplib.h; section 5.1.1 of RFC 2046). */
module MultipartFraming {
  import opened Wrappers
  import opened Http
  import opened Sequences
  import opened Multipart

  // Writing.

  datatype Item = Item(name: string, filename: string, contentType: string, content: string)

  function HeaderOf(item: Item): (lines: seq<string>)
    ensures lines != []
  {
    ["Content-Disposition: form-data; name=\"" + item.name + "\""
      + if item.filename != "" then "; filename=\"" + item.filename + "\"" else ""]
    + if item.contentType != "" then ["Content-Type: " + item.contentType] else []
  }

  /** Header lines with the empty line that ends them. */
  function LinesText(lines: seq<string>): string {
    if lines == [] then CRLF else lines[0] + (CRLF + LinesText(lines[1..]))
  }

  // Finding.

  predicate IsFree(text: string, s: string) {
    forall j :: 0 <= j < |text| ==> !OccursAt(text, s, j)
  }

  /** A delimiter that starts with the only CR in it. */
  predicate HasOneCR(s: string) {
    s != "" && s[0] == '\r' && forall j :: 1 <= j < |s| ==> s[j] != '\r'
  }

  lemma NotAcrossCR(t: string, s: string, j: nat, p: nat)
    requires HasOneCR(s) && j < p < j + |s| && p < |t| && t[p] == '\r'
    ensures !OccursAt(t, s, j)
  {
    if j + |s| <= |t| { assert t[j..j + |s|][p - j] == t[p]; }
  }

  /** After text that is free of it, such a delimiter is found where it stands. */
  lemma FirstIsAtEnd(a: string, s: string, x: string, j: nat)
    requires IsFree(a, s) && HasOneCR(s)
    ensures OccursAt(a + (s + x), s, |a|)
    ensures j < |a| ==> !OccursAt(a + (s + x), s, j)
  {
    var t := a + (s + x);
    assert t[|a|..|a| + |s|] == s;
    if j + |s| <= |a| {
      assert t[j..j + |s|] == a[j..j + |s|];
      assert !OccursAt(a, s, j);
    } else if j < |a| {
      NotAcrossCR(t, s, j, |a|);
    }
  }

  /** What the parser finds in a part `buf` of such a text. */
  lemma FoundInBuffer(buf: string, future: string, a: string, s: string, x: string)
    requires IsFree(a, s) && HasOneCR(s) && buf + future == a + (s + x)
    ensures Find(buf, s) == if |a| + |s| <= |buf| then |a| else |buf|
  {
    var k := Find(buf, s);
    var t := a + (s + x);
    FirstIsAtEnd(a, s, x, k);
    if k < |buf| {
      assert t[k..k + |s|] == buf[k..k + |s|];
      assert OccursAt(t, s, k);
      if k > |a| {
        assert buf[|a|..|a| + |s|] == t[|a|..|a| + |s|];
        assert OccursAt(buf, s, |a|);
      }
    } else if |a| + |s| <= |buf| {
      assert buf[|a|..|a| + |s|] == t[|a|..|a| + |s|];
      assert OccursAt(buf, s, |a|);
    }
  }

  lemma RestIsFree(a: string, s: string, k: nat)
    requires IsFree(a, s) && k <= |a|
    ensures IsFree(a[k..], s)
  {
    forall j | 0 <= j < |a[k..]| ensures !OccursAt(a[k..], s, j) {
      if OccursAt(a[k..], s, j) {
        assert a[k + j..k + j + |s|] == a[k..][j..j + |s|];
        assert OccursAt(a, s, k + j);
      }
    }
  }

  /** What is left of both sides once the buffer has lost its first `k` characters. */
  lemma Behind(buf: string, future: string, a: string, x: string)
    requires buf + future == a + x && |a| <= |buf|
    ensures buf[..|a|] == a && buf[|a|..] + future == x
  {
    assert (buf + future)[|a|..] == x;
    assert (buf + future)[..|a|] == a;
  }

  // What the callbacks have been told.

  datatype Part = Part(form: Form, content: string)

  function Extend(parts: seq<Part>, e: Event): seq<Part> {
    match e
    case Header(form) => parts + [Part(form, "")]
    case Content(text) =>
      if parts == [] then []
      else
        var n := |parts| - 1;
        parts[..n] + [Part(parts[n].form, parts[n].content + text)]
  }

  /** The parts that a log of callbacks makes. */
  function Collected(log: seq<Event>): seq<Part> {
    if log == [] then [] else Extend(Collected(log[..|log| - 1]), log[|log| - 1])
  }

  lemma CollectedMore(log: seq<Event>, e: Event)
    ensures Collected(log + [e]) == Extend(Collected(log), e)
  {
    assert (log + [e])[..|log|] == log;
  }

  lemma ExtendLast(parts: seq<Part>, form: Form, a: string, b: string)
    ensures Extend(parts + [Part(form, a)], Content(b)) == parts + [Part(form, a + b)]
  {
    assert (parts + [Part(form, a)])[..|parts|] == parts;
  }

  // The body that is read.

  /** What a header says, line by line. */
  function Fold(form: Form, lines: seq<string>, setup: Setup): Option<Form>
    decreases |lines|
  {
    if lines == [] then Some(form)
    else
      match setup.parseLine(form, lines[0])
      case None => None
      case Some(next) => Fold(next, lines[1..], setup)
  }

  /** The items of a body, what their headers say, and the setup of the parser. */
  datatype Case = Case(items: seq<Item>, forms: seq<Form>, setup: Setup)

  predicate IsLine(line: string) {
    line != "" && IsFree(line, "\r\n") && |line| < 8192
  }

  ghost predicate AreLines(lines: seq<string>) {
    forall i :: 0 <= i < |lines| ==> IsLine(lines[i])
  }

  ghost predicate IsProperItem(item: Item, form: Form, setup: Setup) {
    && AreLines(HeaderOf(item)) && Fold(EMPTY_FORM, HeaderOf(item), setup) == Some(form)
    && IsFree(item.content, Delimiter(setup.boundary))
  }

  /** A boundary without CR, contents without the delimiter, header
      lines that are short and understood, and callbacks that accept. */
  ghost predicate IsProper(c: Case) {
    && |c.forms| == |c.items| && '\r' !in c.setup.boundary
    && (forall k :: 0 <= k < |c.items| ==> IsProperItem(c.items[k], c.forms[k], c.setup))
    && forall e :: c.setup.accepts(e)
  }

  lemma DelimiterHasOneCR(boundary: string)
    requires '\r' !in boundary
    ensures HasOneCR(Delimiter(boundary)) && HasOneCR(CRLF)
  {
    var d := Delimiter(boundary);
    forall j | 1 <= j < |d| ensures d[j] != '\r' {
      if j >= 4 { assert d[j] == boundary[j - 4]; }
    }
  }

  /** The text after the delimiter that ends item `k - 1`. */
  function Tail(c: Case, k: nat): string
    requires k <= |c.items|
    decreases |c.items| - k
  {
    if k == |c.items| then "--" + CRLF else CRLF + PartText(c, k)
  }

  function PartText(c: Case, k: nat): string
    requires k < |c.items|
    decreases |c.items| - k, 0
  {
    LinesText(HeaderOf(c.items[k])) + (c.items[k].content + (Delimiter(c.setup.boundary) + Tail(c, k + 1)))
  }

  function Parts(c: Case, k: nat): (parts: seq<Part>)
    requires k <= |c.items| && |c.forms| == |c.items|
    ensures |parts| == k
  {
    if k == 0 then [] else Parts(c, k - 1) + [Part(c.forms[k - 1], c.items[k - 1].content)]
  }

  /** How far the parser has come: before the header of item `k`, in it with `lines`
      still to come, in the content with `rest` still to come, behind the delimiter before
      item `k`, or at the end. */
  datatype Place =
    | AtStart(k: nat)
    | AtHeader(k: nat, lines: seq<string>)
    | AtContent(k: nat, rest: string)
    | AtBoundary(k: nat)
    | AtEnd

  /** Besides the `parts` the log holds `content` but for the `rest`. */
  ghost predicate HasPassed(log: seq<Event>, parts: seq<Part>, form: Form, content: string, rest: string) {
    && |rest| <= |content| && content[|content| - |rest|..] == rest
    && Collected(log) == parts + [Part(form, content[..|content| - |rest|])]
  }

  function AfterHeader(c: Case, k: nat): string
    requires k < |c.items|
  {
    c.items[k].content + (Delimiter(c.setup.boundary) + Tail(c, k + 1))
  }

  /** The machine `m`, with `future` still to be fed, is at that place of the body. */
  ghost predicate At(m: Machine, place: Place, future: string, c: Case)
    requires |c.forms| == |c.items|
  {
    var text := m.buf + future;
    match place
    case AtStart(k) =>
      k < |c.items| && m.phase == 1 && text == PartText(c, k) && Collected(m.log) == Parts(c, k)
    case AtHeader(k, lines) =>
      && k < |c.items| && m.phase == 2 && Collected(m.log) == Parts(c, k)
      && text == LinesText(lines) + AfterHeader(c, k)
      && AreLines(lines) && Fold(m.form, lines, c.setup) == Some(c.forms[k])
    case AtContent(k, rest) =>
      && k < |c.items| && m.phase == 3 && text == rest + (Delimiter(c.setup.boundary) + Tail(c, k + 1))
      && HasPassed(m.log, Parts(c, k), c.forms[k], c.items[k].content, rest)
    case AtBoundary(k) =>
      k <= |c.items| && m.phase == 4 && text == Tail(c, k) && Collected(m.log) == Parts(c, k)
    case AtEnd =>
      && m.valid && Collected(m.log) == Parts(c, |c.items|)
      && ((m.phase == 4 && text in {"", "\n", CRLF}) || (m.phase == 1 && text == ""))
  }

  // One turn of the loop.

  /** The result of a turn or of a whole `parse`: the machine is at the place `next`, and
      it has come to the end if nothing more is to be fed. */
  ghost predicate Arrives(ok: bool, m: Machine, next: Place, future: string, c: Case)
    requires |c.forms| == |c.items|
  {
    ok && At(m, next, future, c) && (future == "" ==> next.AtEnd?)
  }

  ghost predicate Moves(r: Move, next: Place, future: string, c: Case)
    requires |c.forms| == |c.items|
  {
    match r
    case Go(m) => At(m, next, future, c)
    case Return(ok, m) => Arrives(ok, m, next, future, c)
  }

  lemma LinesAndRest(line: string, lines: seq<string>, after: string)
    ensures LinesText([line] + lines) + after == line + (CRLF + (LinesText(lines) + after))
  {
    assert ([line] + lines)[1..] == lines;
    assert line + (CRLF + LinesText(lines)) + after == line + (CRLF + (LinesText(lines) + after));
  }

  lemma FindEmptyLine(m: Machine, k: nat, future: string, c: Case)
    requires IsProper(c) && At(m, AtHeader(k, []), future, c)
    ensures Find(m.buf, CRLF) == if 2 <= |m.buf| then 0 else |m.buf|
    ensures 2 <= |m.buf| ==> m.buf[2..] + future == AfterHeader(c, k)
    ensures |m.buf| < 2 ==> future != ""
  {
    DelimiterHasOneCR(c.setup.boundary);
    assert CRLF + AfterHeader(c, k) == "" + (CRLF + AfterHeader(c, k));
    FoundInBuffer(m.buf, future, "", CRLF, AfterHeader(c, k));
    if 2 <= |m.buf| { Behind(m.buf, future, CRLF, AfterHeader(c, k)); }
    assert |m.buf + future| >= 2;
  }

  lemma FindLine(m: Machine, k: nat, lines: seq<string>, future: string, c: Case)
    requires IsProper(c) && lines != [] && At(m, AtHeader(k, lines), future, c)
    ensures Find(m.buf, CRLF) == if |lines[0]| + 2 <= |m.buf| then |lines[0]| else |m.buf|
    ensures |lines[0]| + 2 <= |m.buf| ==>
      m.buf[..|lines[0]|] == lines[0] && m.buf[|lines[0]| + 2..] + future == LinesText(lines[1..]) + AfterHeader(c, k)
    ensures |m.buf| < |lines[0]| + 2 ==> future != ""
  {
    var a, x := lines[0], LinesText(lines[1..]) + AfterHeader(c, k);
    assert lines == [a] + lines[1..];
    LinesAndRest(a, lines[1..], AfterHeader(c, k));
    DelimiterHasOneCR(c.setup.boundary);
    assert IsLine(a);
    FoundInBuffer(m.buf, future, a, CRLF, x);
    if |a| + 2 <= |m.buf| {
      Regroup(a, CRLF, x);
      Behind(m.buf, future, a + CRLF, x);
      assert (a + CRLF)[..|a|] == a && m.buf[..|a| + 2][..|a|] == m.buf[..|a|];
    }
    assert |m.buf + future| >= |a| + 2;
  }

  lemma HeaderIsRead(m: Machine, k: nat, future: string, c: Case)
    requires IsProper(c) && At(m, AtHeader(k, []), future, c) && 2 <= |m.buf|
    requires m.buf[2..] + future == AfterHeader(c, k)
    ensures At(Log(m, Header(m.form)).(buf := m.buf[2..], phase := 3), AtContent(k, c.items[k].content), future, c)
  {
    CollectedMore(m.log, Header(m.form));
    assert c.items[k].content[..0] == "";
  }

  lemma LinesWait(m: Machine, setup: Setup)
    requires Find(m.buf, CRLF) == |m.buf|
    ensures HeaderLines(m, setup) == Return(true, m)
  {
  }

  lemma LinesEnd(m: Machine, setup: Setup)
    requires Find(m.buf, CRLF) == 0 && m.buf != "" && setup.accepts(Header(m.form))
    ensures HeaderLines(m, setup) == Go(Log(m, Header(m.form)).(buf := m.buf[2..], phase := 3))
  {
  }

  lemma LineTaken(m: Machine, setup: Setup, pos: nat, form: Form)
    requires Find(m.buf, CRLF) == pos && 0 < pos < |m.buf| && setup.parseLine(m.form, m.buf[..pos]) == Some(form)
    ensures HeaderLines(m, setup) == HeaderLines(m.(form := form, buf := m.buf[pos + 2..]), setup)
  {
  }

  /** The place behind a line. */
  lemma NextLine(m: Machine, k: nat, lines: seq<string>, form: Form, rest: string, future: string, c: Case)
    requires IsProper(c) && lines != [] && At(m, AtHeader(k, lines), future, c)
    requires rest + future == LinesText(lines[1..]) + AfterHeader(c, k)
    requires c.setup.parseLine(m.form, lines[0]) == Some(form)
    ensures At(m.(form := form, buf := rest), AtHeader(k, lines[1..]), future, c)
  {
  }

  lemma LineIsUnderstood(m: Machine, k: nat, lines: seq<string>, future: string, c: Case) returns (form: Form)
    requires IsProper(c) && lines != [] && At(m, AtHeader(k, lines), future, c)
    ensures lines[0] != "" && c.setup.parseLine(m.form, lines[0]) == Some(form)
  {
    assert IsLine(lines[0]);
    form := c.setup.parseLine(m.form, lines[0]).value;
  }

  lemma EmptyLineKeeps(m: Machine, k: nat, future: string, c: Case) returns (next: Place)
    requires IsProper(c) && At(m, AtHeader(k, []), future, c)
    ensures Moves(HeaderLines(m, c.setup), next, future, c)
  {
    FindEmptyLine(m, k, future, c);
    if 2 <= |m.buf| {
      HeaderIsRead(m, k, future, c);
      LinesEnd(m, c.setup);
      next := AtContent(k, c.items[k].content);
    } else {
      LinesWait(m, c.setup);
      next := AtHeader(k, []);
    }
  }

  /** One line, if all of it is in the buffer. */
  lemma LineKeeps(m: Machine, k: nat, lines: seq<string>, future: string, c: Case) returns (isThere: bool, n: Machine)
    requires IsProper(c) && lines != [] && At(m, AtHeader(k, lines), future, c)
    ensures isThere ==> HeaderLines(m, c.setup) == HeaderLines(n, c.setup) && At(n, AtHeader(k, lines[1..]), future, c)
    ensures !isThere ==> HeaderLines(m, c.setup) == Return(true, m) && future != ""
  {
    var pos := |lines[0]|;
    FindLine(m, k, lines, future, c);
    isThere, n := pos + 2 <= |m.buf|, m;
    if isThere {
      var form := LineIsUnderstood(m, k, lines, future, c);
      LineTaken(m, c.setup, pos, form);
      NextLine(m, k, lines, form, m.buf[pos + 2..], future, c);
      n := m.(form := form, buf := m.buf[pos + 2..]);
    } else {
      LinesWait(m, c.setup);
    }
  }

  lemma {:induction false} HeaderLinesKeep(m: Machine, k: nat, lines: seq<string>, future: string, c: Case)
    returns (next: Place)
    requires IsProper(c) && At(m, AtHeader(k, lines), future, c)
    ensures Moves(HeaderLines(m, c.setup), next, future, c)
    decreases |lines|
  {
    if lines == [] {
      next := EmptyLineKeeps(m, k, future, c);
    } else {
      var isThere, n := LineKeeps(m, k, lines, future, c);
      if isThere {
        next := HeaderLinesKeep(n, k, lines[1..], future, c);
      } else {
        next := AtHeader(k, lines);
      }
    }
  }

  lemma HeadersKeep(m: Machine, k: nat, lines: seq<string>, future: string, c: Case) returns (next: Place)
    requires IsProper(c) && At(m, AtHeader(k, lines), future, c)
    ensures Moves(Headers(m, c.setup), next, future, c)
  {
    if lines == [] {
      FindEmptyLine(m, k, future, c);
    } else {
      FindLine(m, k, lines, future, c);
      assert IsLine(lines[0]);
    }
    next := HeaderLinesKeep(m, k, lines, future, c);
  }

  lemma StartKeeps(m: Machine, k: nat, future: string, c: Case)
    requires IsProper(c) && At(m, AtStart(k), future, c)
    ensures At(m.(form := EMPTY_FORM, phase := 2), AtHeader(k, HeaderOf(c.items[k])), future, c)
  {
    assert IsProperItem(c.items[k], c.forms[k], c.setup);
  }

  /** What can be left of the last line end when the parser drops the rest of its buffer. */
  lemma EndOfText(buf: string, future: string)
    requires |buf| >= 2 && buf[2..] + future == CRLF
    ensures "" + future in {"", "\n", CRLF}
  {
    assert "" + future == future == CRLF[|buf| - 2..];
    if |buf| == 2 {
      assert CRLF[0..] == CRLF;
    } else if |buf| == 3 {
      assert CRLF[1..] == "\n";
    } else {
      assert CRLF[2..] == "";
    }
  }

  lemma BoundaryKeeps(m: Machine, k: nat, future: string, c: Case) returns (next: Place)
    requires IsProper(c) && At(m, AtBoundary(k), future, c)
    ensures Moves(Boundary(m), next, future, c)
  {
    next := AtBoundary(k);
    var mark := if k == |c.items| then "--" else CRLF;
    var x := if k == |c.items| then CRLF else PartText(c, k);
    assert m.buf + future == mark + x;
    if |m.buf| < 2 {
      assert |m.buf + future| >= 2;
    } else {
      Behind(m.buf, future, mark, x);
      if k == |c.items| {
        next := AtEnd;
        EndOfText(m.buf, future);
      } else {
        next := AtStart(k);
      }
    }
  }

  lemma EndKeeps(m: Machine, future: string, c: Case)
    requires IsProper(c) && At(m, AtEnd, future, c) && m.buf != ""
    ensures Moves(Boundary(m), AtEnd, future, c)
  {
    if |m.buf| >= 2 {
      assert future == "" && m.buf == CRLF;
    }
  }

  // The content.

  lemma SplitBuffer(buf: string, future: string, a: string, s: string, x: string)
    requires buf + future == a + (s + x) && |a| + |s| <= |buf|
    ensures buf[..|a|] == a && buf[|a| + |s|..] + future == x
  {
    Regroup(a, s, x);
    Behind(buf, future, a + s, x);
    assert (a + s)[..|a|] == a && buf[..|a| + |s|][..|a|] == buf[..|a|];
  }

  lemma StartOfBuffer(buf: string, future: string, a: string, y: string, len: nat)
    requires buf + future == a + y && len <= |a| && len <= |buf|
    ensures buf[..len] == a[..len] && buf[len..] + future == a[len..] + y
  {
    assert buf[..len] == (buf + future)[..len] && a[..len] == (a + y)[..len];
    assert buf[len..] + future == (buf + future)[len..] && a[len..] + y == (a + y)[len..];
  }

  lemma SliceOn(content: string, n: nat, len: nat)
    requires n + len <= |content|
    ensures content[..n] + content[n..][..len] == content[..n + len] && content[n..][len..] == content[n + len..]
  {
  }

  /** What is logged of a content once `len` more characters of it are passed on. */
  lemma ContentLogged(log: seq<Event>, parts: seq<Part>, form: Form, content: string, rest: string, len: nat)
    requires len <= |rest| && HasPassed(log, parts, form, content, rest)
    ensures HasPassed(log + [Content(rest[..len])], parts, form, content, rest[len..])
  {
    var n := |content| - |rest|;
    SliceOn(content, n, len);
    CollectedMore(log, Content(rest[..len]));
    ExtendLast(parts, form, content[..n], rest[..len]);
  }

  lemma AllLogged(log: seq<Event>, parts: seq<Part>, form: Form, content: string, rest: string)
    requires HasPassed(log, parts, form, content, rest)
    ensures Collected(log + [Content(rest)]) == parts + [Part(form, content)]
  {
    ContentLogged(log, parts, form, content, rest, |rest|);
    assert rest[..|rest|] == rest && content[..|content|] == content;
  }

  /** The last piece of a content. */
  lemma ContentEnds(m: Machine, k: nat, rest: string, d: string, future: string, c: Case)
    requires |c.forms| == |c.items| && At(m, AtContent(k, rest), future, c) && d == Delimiter(c.setup.boundary)
    requires |rest| + |d| <= |m.buf|
    ensures var passed := Log(m, Content(m.buf[..|rest|]));
      At(passed.(buf := m.buf[|rest| + |d|..], phase := 4), AtBoundary(k + 1), future, c)
  {
    SplitBuffer(m.buf, future, rest, d, Tail(c, k + 1));
    AllLogged(m.log, Parts(c, k), c.forms[k], c.items[k].content, rest);
  }

  /** A piece of a content, with more to come. */
  lemma ContentGoesOn(m: Machine, k: nat, rest: string, len: nat, future: string, c: Case)
    requires |c.forms| == |c.items| && At(m, AtContent(k, rest), future, c) && len <= |rest| && len <= |m.buf|
    ensures At(Log(m, Content(m.buf[..len])).(buf := m.buf[len..]), AtContent(k, rest[len..]), future, c)
  {
    StartOfBuffer(m.buf, future, rest, Delimiter(c.setup.boundary) + Tail(c, k + 1), len);
    ContentLogged(m.log, Parts(c, k), c.forms[k], c.items[k].content, rest, len);
  }

  lemma LongEnough(buf: string, future: string, a: string, s: string, x: string)
    requires buf + future == a + (s + x)
    ensures |buf| < |a| + |s| ==> future != ""
  {
    assert |buf + future| == |a| + |s| + |x|;
  }

  lemma FindDelimiter(m: Machine, k: nat, rest: string, d: string, future: string, c: Case)
    requires IsProper(c) && At(m, AtContent(k, rest), future, c) && d == Delimiter(c.setup.boundary)
    ensures Find(m.buf, d) == if |rest| + |d| <= |m.buf| then |rest| else |m.buf|
    ensures |m.buf| < |rest| + |d| ==> future != ""
  {
    var content := c.items[k].content;
    assert IsProperItem(c.items[k], c.forms[k], c.setup);
    RestIsFree(content, d, |content| - |rest|);
    DelimiterHasOneCR(c.setup.boundary);
    FoundInBuffer(m.buf, future, rest, d, Tail(c, k + 1));
    LongEnough(m.buf, future, rest, d, Tail(c, k + 1));
  }

  lemma BodyFinds(m: Machine, setup: Setup, d: string, pos: nat)
    requires d == Delimiter(setup.boundary) && Find(m.buf, d) == pos && pos + |d| <= |m.buf|
    requires forall e :: setup.accepts(e)
    ensures Body(m, setup) == Go(Log(m, Content(m.buf[..pos])).(buf := m.buf[pos + |d|..], phase := 4))
  {
  }

  lemma BodyWaits(m: Machine, setup: Setup, d: string)
    requires d == Delimiter(setup.boundary) && Find(m.buf, d) == |m.buf|
    requires forall e :: setup.accepts(e)
    ensures Body(m, setup)
         == if |m.buf| <= |d| then Return(true, m)
            else Return(true, Log(m, Content(m.buf[..|m.buf| - |d|])).(buf := m.buf[|m.buf| - |d|..]))
  {
  }

  /** The content ends within the buffer. */
  lemma ContentIsWhole(m: Machine, k: nat, rest: string, d: string, future: string, c: Case)
    requires IsProper(c) && At(m, AtContent(k, rest), future, c) && d == Delimiter(c.setup.boundary)
    requires Find(m.buf, d) == |rest| && |rest| + |d| <= |m.buf|
    ensures Moves(Body(m, c.setup), AtBoundary(k + 1), future, c)
  {
    var pos := |rest|;
    ContentEnds(m, k, rest, d, future, c);
    BodyFinds(m, c.setup, d, pos);
    assert Body(m, c.setup).Go?;
  }

  /** The content goes on beyond the buffer. */
  lemma ContentWaits(m: Machine, k: nat, rest: string, d: string, future: string, c: Case) returns (next: Place)
    requires IsProper(c) && At(m, AtContent(k, rest), future, c) && d == Delimiter(c.setup.boundary)
    requires Find(m.buf, d) == |m.buf| < |rest| + |d| && future != ""
    ensures Moves(Body(m, c.setup), next, future, c)
  {
    next := AtContent(k, rest);
    BodyWaits(m, c.setup, d);
    if |d| < |m.buf| {
      ContentGoesOn(m, k, rest, |m.buf| - |d|, future, c);
      next := AtContent(k, rest[|m.buf| - |d|..]);
    }
  }

  lemma ContentKeeps(m: Machine, k: nat, rest: string, future: string, c: Case) returns (next: Place)
    requires IsProper(c) && At(m, AtContent(k, rest), future, c)
    ensures Moves(Body(m, c.setup), next, future, c)
  {
    var d := Delimiter(c.setup.boundary);
    FindDelimiter(m, k, rest, d, future, c);
    if |rest| + |d| <= |m.buf| {
      ContentIsWhole(m, k, rest, d, future, c);
      next := AtBoundary(k + 1);
    } else {
      next := ContentWaits(m, k, rest, d, future, c);
    }
  }

  // The whole loop.

  lemma TurnKeeps(m: Machine, place: Place, future: string, c: Case) returns (next: Place)
    requires IsProper(c) && At(m, place, future, c) && m.buf != ""
    ensures Moves(Turn(m, c.setup), next, future, c)
  {
    match place
    case AtStart(k) =>
      StartKeeps(m, k, future, c);
      next := AtHeader(k, HeaderOf(c.items[k]));
    case AtHeader(k, lines) => next := HeadersKeep(m, k, lines, future, c);
    case AtContent(k, rest) => next := ContentKeeps(m, k, rest, future, c);
    case AtBoundary(k) => next := BoundaryKeeps(m, k, future, c);
    case AtEnd =>
      if m.phase == 4 {
        EndKeeps(m, future, c);
      }
      next := AtEnd;
  }

  lemma NotEmptyBeforeEnd(m: Machine, place: Place, future: string, c: Case)
    requires IsProper(c) && At(m, place, future, c) && m.buf == ""
    ensures future == "" ==> place.AtEnd?
  {
    match place
    case AtHeader(k, lines) => if lines == [] { assert LinesText(lines) == CRLF; }
    case _ =>
  }

  lemma {:induction false} RunKeeps(m: Machine, place: Place, future: string, c: Case) returns (next: Place)
    requires IsProper(c) && At(m, place, future, c)
    ensures Arrives(Run(m, c.setup).0, Run(m, c.setup).1, next, future, c)
    decreases |m.buf|, if m.phase == 1 then 1 else 0
  {
    next := place;
    if m.buf == "" {
      NotEmptyBeforeEnd(m, place, future, c);
    } else {
      next := TurnKeeps(m, place, future, c);
      match Turn(m, c.setup)
      case Go(n) => next := RunKeeps(n, next, future, c);
      case Return(_, _) =>
    }
  }

  lemma SamePlace(m: Machine, fed: Machine, place: Place, all: string, future: string, c: Case)
    requires IsProper(c) && At(m, place, all, c) && fed == m.(buf := fed.buf) && fed.buf + future == m.buf + all
    ensures At(fed, place, future, c)
  {
  }

  lemma {:induction false} FeedKeeps(m: Machine, place: Place, chunks: seq<string>, c: Case) returns (next: Place)
    requires IsProper(c) && At(m, place, Join(chunks), c) && (chunks == [] ==> place.AtEnd?)
    ensures Feed(m, chunks, c.setup).0 && At(Feed(m, chunks, c.setup).1, next, "", c) && next.AtEnd?
    decreases |chunks|
  {
    if chunks == [] {
      next := place;
    } else {
      var fed, future := m.(buf := m.buf + chunks[0]), Join(chunks[1..]);
      Regroup(m.buf, chunks[0], future);
      SamePlace(m, fed, place, Join(chunks), future, c);
      next := RunKeeps(fed, place, future, c);
      next := FeedKeeps(Run(fed, c.setup).1, next, chunks[1..], c);
    }
  }

  // The body that is written.

  function ItemBegin(item: Item, boundary: string): string {
    "--" + boundary + CRLF
    + ("Content-Disposition: form-data; name=\"" + item.name + "\""
       + if item.filename != "" then "; filename=\"" + item.filename + "\"" else "") + CRLF
    + (if item.contentType != "" then "Content-Type: " + item.contentType + CRLF else "")
    + CRLF
  }

  /** `serialize_multipart_formdata` for the items from `k` on. */
  function Serialized(items: seq<Item>, k: nat, boundary: string): string
    requires k <= |items|
    decreases |items| - k
  {
    if k == |items| then "--" + boundary + "--" + CRLF
    else ItemBegin(items[k], boundary) + items[k].content + CRLF + Serialized(items, k + 1, boundary)
  }

  method SerializeBegin(item: Item, boundary: string) returns (body: string)
    ensures body == ItemBegin(item, boundary)
  {
    body := "--" + boundary + CRLF;
    var line := "Content-Disposition: form-data; name=\"" + item.name + "\"";
    if item.filename != "" {
      line := line + "; filename=\"" + item.filename + "\"";
    } else {
      assert line == line + "";
    }
    body := body + line;
    body := body + CRLF;
    if item.contentType != "" {
      body := body + ("Content-Type: " + item.contentType + CRLF);
    } else {
      assert body == body + "";
    }
    body := body + CRLF;
  }

  method Serialize(items: seq<Item>, boundary: string) returns (body: string)
    ensures body == Serialized(items, 0, boundary)
  {
    body := "";
    for k := 0 to |items|
      invariant body + Serialized(items, k, boundary) == Serialized(items, 0, boundary)
    {
      var begin := SerializeBegin(items[k], boundary);
      Regroup(body, begin + items[k].content + CRLF, Serialized(items, k + 1, boundary));
      body := body + (begin + items[k].content + CRLF);
    }
    body := body + ("--" + boundary + "--" + CRLF);
  }

  lemma BeginIsLines(item: Item, boundary: string)
    ensures ItemBegin(item, boundary) == Opening(boundary) + LinesText(HeaderOf(item))
  {
    var lines := HeaderOf(item);
    var first := lines[0];
    if item.contentType != "" {
      var second := "Content-Type: " + item.contentType;
      assert lines[1..] == [second] && [second][1..] == [];
      assert LinesText([second]) == second + (CRLF + CRLF);
      assert ItemBegin(item, boundary) == Opening(boundary) + (first + (CRLF + (second + (CRLF + CRLF))));
    } else {
      assert lines[1..] == [];
      assert ItemBegin(item, boundary) == Opening(boundary) + (first + (CRLF + CRLF));
    }
  }

  lemma AfterCRLF(b: string, text: string)
    ensures CRLF + (Opening(b) + text) == Delimiter(b) + (CRLF + text)
  {
    assert CRLF + ("--" + b + CRLF + text) == CRLF + "--" + b + (CRLF + text);
  }

  lemma FourParts(a: string, b: string, c: string, d: string, e: string)
    ensures (a + b) + c + d + e == a + (b + (c + (d + e)))
  {
  }

  lemma SerializedIsPart(c: Case, k: nat)
    requires k < |c.items|
    requires CRLF + Serialized(c.items, k + 1, c.setup.boundary) == Delimiter(c.setup.boundary) + Tail(c, k + 1)
    ensures Serialized(c.items, k, c.setup.boundary) == Opening(c.setup.boundary) + PartText(c, k)
  {
    var b, item := c.setup.boundary, c.items[k];
    BeginIsLines(item, b);
    FourParts(Opening(b), LinesText(HeaderOf(item)), item.content, CRLF, Serialized(c.items, k + 1, b));
  }

  lemma {:induction false} SerializedIsTail(c: Case, k: nat)
    requires k <= |c.items|
    ensures CRLF + Serialized(c.items, k, c.setup.boundary) == Delimiter(c.setup.boundary) + Tail(c, k)
    decreases |c.items| - k
  {
    var b := c.setup.boundary;
    if k == |c.items| {
      assert CRLF + ("--" + b + "--" + CRLF) == CRLF + "--" + b + ("--" + CRLF);
    } else {
      SerializedIsTail(c, k + 1);
      SerializedIsPart(c, k);
      AfterCRLF(b, PartText(c, k));
    }
  }

  // The theorem.

  /** The opening line is taken whole. */
  lemma OpeningIsTaken(buf: string, future: string, c: Case)
    requires IsProper(c) && c.items != [] && |buf| >= |Opening(c.setup.boundary)|
    requires buf + future == Opening(c.setup.boundary) + PartText(c, 0)
    ensures var m := Fresh().(buf := buf[|Opening(c.setup.boundary)|..], phase := 1);
      Turn(Fresh().(buf := buf), c.setup) == Go(m) && At(m, AtStart(0), future, c)
  {
    var s := Opening(c.setup.boundary);
    Behind(buf, future, s, PartText(c, 0));
    assert OccursAt(buf, s, 0) by { assert buf[0..|s|] == buf[..|s|]; }
    assert Find(buf, s) == 0;
    assert buf[0..] == buf;
  }

  /** The first chunk brings the parser behind the opening line. */
  lemma FirstChunk(c: Case, buf: string, future: string) returns (m: Machine)
    requires IsProper(c) && c.items != [] && |buf| >= |Opening(c.setup.boundary)|
    requires buf + future == Opening(c.setup.boundary) + PartText(c, 0)
    ensures Parse(Fresh(), buf, c.setup) == Run(m, c.setup) && At(m, AtStart(0), future, c)
  {
    OpeningIsTaken(buf, future, c);
    m := Fresh().(buf := buf[|Opening(c.setup.boundary)|..], phase := 1);
    assert "" + buf == buf;
  }

  lemma ItemsAgree(c: Case, chunks: seq<string>)
    requires IsProper(c) && c.items != [] && chunks != []
    requires Join(chunks) == Serialized(c.items, 0, c.setup.boundary)
    requires |chunks[0]| >= |Opening(c.setup.boundary)|
    ensures var (ok, m) := Feed(Fresh(), chunks, c.setup);
      ok && m.valid && Collected(m.log) == Parts(c, |c.items|)
  {
    SerializedIsTail(c, 1);
    SerializedIsPart(c, 0);
    var future := Join(chunks[1..]);
    var m := FirstChunk(c, chunks[0], future);
    var next := RunKeeps(m, AtStart(0), future, c);
    var end := FeedKeeps(Run(m, c.setup).1, next, chunks[1..], c);
  }

  /** The last delimiter alone: an opening line can only stand at its end. */
  lemma OnlyAtEnd(boundary: string, p: nat)
    requires '\r' !in boundary && OccursAt("--" + boundary + "--" + CRLF, Opening(boundary), p)
    ensures p + |Opening(boundary)| == |"--" + boundary + "--" + CRLF|
  {
    var text, s := "--" + boundary + "--" + CRLF, Opening(boundary);
    var cr := |s| - 2;
    assert s[cr] == '\r';
    assert text[p + cr] == text[p..p + |s|][cr];
    assert forall i :: 0 <= i < |boundary| + 4 ==> text[i] != '\r';
  }

  ghost predicate OpensAtEnd(text: string, s: string) {
    forall p: nat :: OccursAt(text, s, p) ==> p + |s| == |text|
  }

  lemma LaterOpensAtEnd(buf: string, future: string, s: string)
    requires OpensAtEnd(buf + future, s)
    ensures OpensAtEnd(future, s) && OpensAtEnd(buf, s) && (s != "" && Find(buf, s) < |buf| ==> future == "")
  {
    var text := buf + future;
    forall p: nat | OccursAt(future, s, p) ensures p + |s| == |future| {
      assert text[|buf| + p..|buf| + p + |s|] == future[p..p + |s|];
      assert OccursAt(text, s, |buf| + p);
    }
    forall p: nat | OccursAt(buf, s, p) ensures p + |s| == |buf| && future == "" {
      assert text[p..p + |s|] == buf[p..p + |s|];
      assert OccursAt(text, s, p);
    }
  }

  /** A parser that has not met anything, or only an opening line with nothing behind it. */
  predicate IsIdle(m: Machine) {
    m.buf == "" && m.phase <= 1 && !m.valid && m.log == []
  }

  /** Text without an opening line is dropped. */
  lemma NotOpened(m: Machine, setup: Setup)
    requires m.phase == 0 && Find(m.buf, Opening(setup.boundary)) == |m.buf|
    ensures Run(m, setup) == (true, m.(buf := ""))
  {
    assert m.buf[|m.buf|..] == "";
  }

  /** Text before the opening line is dropped with it. */
  lemma Opened(m: Machine, setup: Setup)
    requires m.phase == 0 && Find(m.buf, Opening(setup.boundary)) < |m.buf|
    ensures var s := Opening(setup.boundary);
      Run(m, setup) == Run(m.(buf := m.buf[Find(m.buf, s)..][|s|..], phase := 1), setup)
  {
    var s := Opening(setup.boundary);
    var k := Find(m.buf, s);
    assert m.buf[k..][..|s|] == m.buf[k..k + |s|] == s;
  }

  lemma IdleGoesOn(m: Machine, chunk: string, future: string, setup: Setup)
    requires IsIdle(m) && OpensAtEnd(chunk + future, Opening(setup.boundary))
    requires m.phase == 1 ==> chunk == ""
    ensures var (ok, n) := Parse(m, chunk, setup);
      ok && IsIdle(n) && (n.phase == 1 ==> future == "" || m.phase == 1)
  {
    var s := Opening(setup.boundary);
    assert "" + chunk == chunk;
    LaterOpensAtEnd(chunk, future, s);
    if m.phase == 0 {
      var fed, k := m.(buf := chunk), Find(chunk, s);
      if k == |chunk| {
        NotOpened(fed, setup);
      } else {
        Opened(fed, setup);
        assert chunk[k..][|s|..] == "";
      }
    }
  }

  /** Without an opening line that something follows nothing is ever recognized. */
  lemma {:induction false} StaysIdle(m: Machine, chunks: seq<string>, setup: Setup)
    requires IsIdle(m) && OpensAtEnd(Join(chunks), Opening(setup.boundary)) && (m.phase == 1 ==> Join(chunks) == "")
    ensures Feed(m, chunks, setup).0 && IsIdle(Feed(m, chunks, setup).1)
    decreases |chunks|
  {
    if chunks != [] {
      LaterOpensAtEnd(chunks[0], Join(chunks[1..]), Opening(setup.boundary));
      IdleGoesOn(m, chunks[0], Join(chunks[1..]), setup);
      StaysIdle(Parse(m, chunks[0], setup).1, chunks[1..], setup);
    }
  }

  /** However a body is cut behind its opening line, the parser accepts every chunk and has
      passed on the forms and the whole contents of the items; it ends valid if and only if
      there are items. The body without items is only the last delimiter, which may be cut
      anywhere. */
  lemma ChunksAgree(c: Case, chunks: seq<string>)
    requires IsProper(c) && Join(chunks) == Serialized(c.items, 0, c.setup.boundary)
    requires c.items != [] ==> chunks != [] && |chunks[0]| >= |Opening(c.setup.boundary)|
    ensures var (ok, m) := Feed(Fresh(), chunks, c.setup);
      ok && Collected(m.log) == Parts(c, |c.items|) && (m.valid <==> c.items != [])
  {
    if c.items == [] {
      forall p: nat | OccursAt(Join(chunks), Opening(c.setup.boundary), p)
        ensures p + |Opening(c.setup.boundary)| == |Join(chunks)|
      {
        OnlyAtEnd(c.setup.boundary, p);
      }
      StaysIdle(Fresh(), chunks, c.setup);
    } else {
      ItemsAgree(c, chunks);
    }
  }

  /** A first chunk that ends within the opening line is forgotten: the parser is as it
      was, so the rest of the body is read as if it had not been sent. */
  lemma OpeningMustBeWhole(c: Case, chunk: string, chunks: seq<string>)
    requires |chunk| < |Opening(c.setup.boundary)|
    ensures Parse(Fresh(), chunk, c.setup) == (true, Fresh())
    ensures Feed(Fresh(), [chunk] + chunks, c.setup) == Feed(Fresh(), chunks, c.setup)
  {
    assert "" + chunk == chunk;
    assert Find(chunk, Opening(c.setup.boundary)) == |chunk|;
    assert chunk[|chunk|..] == "";
    assert ([chunk] + chunks)[1..] == chunks;
  }
}
