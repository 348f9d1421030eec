/** The multipart parser of httplib, `MultipartFormDataParser` (include/httplib.h), as a
    machine over the text that is buffered. */
module Multipart {
  import opened Wrappers
  import opened Http

  /** What the header lines of a part say. */
  datatype Form = Form(name: string, filename: string, contentType: string)

  /** The calls of the two callbacks. */
  datatype Event = Header(form: Form) | Content(text: string)

  datatype Machine = Machine(phase: nat, buf: string, form: Form, valid: bool, log: seq<Event>)

  /** The boundary, the meaning of a header line, and the answers of the callbacks. */
  datatype Setup = Setup(boundary: string, parseLine: (Form, string) -> Option<Form>, accepts: Event -> bool)

  function Opening(boundary: string): (s: string)
    ensures s != ""
  {
    "--" + boundary + CRLF
  }

  function Delimiter(boundary: string): (s: string)
    ensures |s| >= 4
  {
    CRLF + "--" + boundary
  }

  const EMPTY_FORM := Form("", "", "")

  // Finding.

  predicate OccursAt(text: string, s: string, k: nat) {
    k + |s| <= |text| && text[k..k + |s|] == s
  }

  function FindFrom(text: string, s: string, from: nat): (k: nat)
    requires s != "" && from <= |text| && forall j :: 0 <= j < from ==> !OccursAt(text, s, j)
    ensures from <= k <= |text| && (k < |text| ==> OccursAt(text, s, k))
    ensures forall j :: 0 <= j < k ==> !OccursAt(text, s, j)
    decreases |text| - from
  {
    if from == |text| || OccursAt(text, s, from) then from else FindFrom(text, s, from + 1)
  }

  /** `buf_find`: where `s` first occurs, or the length of the text. */
  function Find(text: string, s: string): (k: nat)
    requires s != ""
    ensures k <= |text| && (k < |text| ==> OccursAt(text, s, k))
    ensures forall j :: 0 <= j < k ==> !OccursAt(text, s, j)
  {
    FindFrom(text, s, 0)
  }

  // The loop of `parse`.

  /** One turn of the loop: it goes on, or `parse` returns. */
  datatype Move = Go(m: Machine) | Return(ok: bool, m: Machine)

  function Begins(text: string, s: string): bool {
    |s| <= |text| && text[..|s|] == s
  }

  function InitialBoundary(m: Machine, setup: Setup): Move {
    var s := Opening(setup.boundary);
    var found := m.(buf := m.buf[Find(m.buf, s)..]);
    if |s| > |found.buf| then Return(true, found)
    else if !Begins(found.buf, s) then Return(false, found)
    else Go(found.(buf := found.buf[|s|..], phase := 1))
  }

  function Log(m: Machine, e: Event): Machine {
    m.(log := m.log + [e])
  }

  /** The lines of a header, up to the empty one. */
  function HeaderLines(m: Machine, setup: Setup): (r: Move)
    ensures r.Go? ==> |r.m.buf| < |m.buf| && r.m.phase == 3
    decreases |m.buf|
  {
    var pos := Find(m.buf, CRLF);
    if pos == |m.buf| then Return(true, m)
    else if pos == 0 then
      if !setup.accepts(Header(m.form)) then Return(false, Log(m, Header(m.form)).(valid := false))
      else Go(Log(m, Header(m.form)).(buf := m.buf[2..], phase := 3))
    else
      match setup.parseLine(m.form, m.buf[..pos])
      case None => Return(false, m.(valid := false))
      case Some(form) => HeaderLines(m.(form := form, buf := m.buf[pos + 2..]), setup)
  }

  function Headers(m: Machine, setup: Setup): (r: Move)
    ensures r.Go? ==> |r.m.buf| < |m.buf|
  {
    if Find(m.buf, CRLF) > HEADER_MAX_LENGTH then Return(false, m) else HeaderLines(m, setup)
  }

  function Body(m: Machine, setup: Setup): (r: Move)
    ensures r.Go? ==> |r.m.buf| < |m.buf|
  {
    var d := Delimiter(setup.boundary);
    if |d| > |m.buf| then Return(true, m)
    else
      var pos := Find(m.buf, d);
      if pos < |m.buf| then
        if !setup.accepts(Content(m.buf[..pos])) then Return(false, Log(m, Content(m.buf[..pos])).(valid := false))
        else Go(Log(m, Content(m.buf[..pos])).(buf := m.buf[pos + |d|..], phase := 4))
      else
        var len := |m.buf| - |d|;
        if len == 0 then Return(true, m)
        else if !setup.accepts(Content(m.buf[..len])) then Return(false, Log(m, Content(m.buf[..len])).(valid := false))
        else Return(true, Log(m, Content(m.buf[..len])).(buf := m.buf[len..]))
  }

  function Boundary(m: Machine): (r: Move)
    ensures r.Go? ==> |r.m.buf| < |m.buf|
  {
    if |m.buf| < 2 then Return(true, m)
    else if Begins(m.buf, CRLF) then Go(m.(buf := m.buf[2..], phase := 1))
    else if Begins(m.buf, "--") then Go(m.(buf := "", valid := true))
    else Return(true, m)
  }

  function Turn(m: Machine, setup: Setup): (r: Move)
    requires m.buf != ""
    ensures r.Go? ==> |r.m.buf| < |m.buf| || (|r.m.buf| == |m.buf| && m.phase == 1 && r.m.phase == 2)
  {
    match m.phase
    case 0 => InitialBoundary(m, setup)
    case 1 => Go(m.(form := EMPTY_FORM, phase := 2))
    case 2 => Headers(m, setup)
    case 3 => Body(m, setup)
    case _ => Boundary(m)
  }

  /** The loop of `parse`. */
  function Run(m: Machine, setup: Setup): (bool, Machine)
    decreases |m.buf|, if m.phase == 1 then 1 else 0
  {
    if m.buf == "" then (true, m)
    else
      match Turn(m, setup)
      case Return(ok, n) => (ok, n)
      case Go(n) => Run(n, setup)
  }

  function Parse(m: Machine, chunk: string, setup: Setup): (bool, Machine) {
    Run(m.(buf := m.buf + chunk), setup)
  }

  function Fresh(): Machine {
    Machine(0, "", EMPTY_FORM, false, [])
  }

  /** The chunks one by one, as long as `parse` returns true. */
  function Feed(m: Machine, chunks: seq<string>, setup: Setup): (bool, Machine)
    decreases |chunks|
  {
    if chunks == [] then (true, m)
    else
      var (ok, n) := Parse(m, chunks[0], setup);
      if ok then Feed(n, chunks[1..], setup) else (false, n)
  }
}
