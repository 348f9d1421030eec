/** What the four states of the multipart parser do with what is buffered
    (include/httplib.h), spelled out. */
module MultipartTurns {
  import opened Wrappers
  import opened Multipart
  import opened MultipartFraming

  /** The string stands at `k` and nowhere before. */
  predicate IsFirstAt(text: string, s: string, k: nat) {
    OccursAt(text, s, k) && forall j :: 0 <= j < k ==> !OccursAt(text, s, j)
  }

  predicate IsNowhere(text: string, s: string) {
    forall j :: 0 <= j < |text| ==> !OccursAt(text, s, j)
  }

  lemma FindsFirst(text: string, s: string, k: nat)
    requires s != "" && IsFirstAt(text, s, k)
    ensures Find(text, s) == k < |text|
  {
  }

  lemma FindsNothing(text: string, s: string)
    requires s != "" && IsNowhere(text, s)
    ensures Find(text, s) == |text|
  {
  }

  /** Before the opening line: it is dropped with everything before it, and everything is
      dropped without it. */
  lemma OpeningIs(m: Machine, setup: Setup, s: string, k: nat)
    requires m.phase == 0 && m.buf != "" && s == "--" + setup.boundary + "\r\n"
    ensures IsFirstAt(m.buf, s, k) ==> Turn(m, setup) == Go(m.(buf := m.buf[k + |s|..], phase := 1))
    ensures IsNowhere(m.buf, s) ==> Turn(m, setup) == Return(true, m.(buf := ""))
  {
    if IsFirstAt(m.buf, s, k) {
      FindsFirst(m.buf, s, k);
      assert m.buf[k..][..|s|] == s && m.buf[k..][|s|..] == m.buf[k + |s|..];
    } else if IsNowhere(m.buf, s) {
      FindsNothing(m.buf, s);
      assert m.buf[|m.buf|..] == "";
    }
  }

  lemma EntryIs(m: Machine, setup: Setup)
    requires m.phase == 1 && m.buf != ""
    ensures Turn(m, setup) == Go(m.(form := Form("", "", ""), phase := 2))
  {
  }

  /** A header is refused unread exactly when more than 8192 characters are buffered and no
      line ends within the first 8192. */
  lemma LongHeaderIs(m: Machine, setup: Setup)
    requires m.phase == 2 && m.buf != ""
    ensures var tooLong := |m.buf| > 8192 && forall j :: 0 <= j <= 8192 ==> !OccursAt(m.buf, "\r\n", j);
      Turn(m, setup) == if tooLong then Return(false, m) else HeaderLines(m, setup)
  {
  }

  /** Lines that end in CRLF, followed by `rest`. */
  function Ended(lines: seq<string>, rest: string): string {
    if lines == [] then rest else lines[0] + ("\r\n" + Ended(lines[1..], rest))
  }

  ghost predicate ArePlain(lines: seq<string>) {
    forall i :: 0 <= i < |lines| ==> lines[i] != "" && IsNowhere(lines[i], "\r\n")
  }

  lemma LineIsFound(m: Machine, line: string, rest: string)
    requires line != "" && IsNowhere(line, "\r\n") && m.buf == line + ("\r\n" + rest)
    ensures Find(m.buf, "\r\n") == |line| && m.buf[..|line|] == line && m.buf[|line| + 2..] == rest
  {
    FoundInBuffer(m.buf, "", line, "\r\n", rest);
    assert m.buf + "" == m.buf;
  }

  /** The lines of a header are taken one by one, as far as they are understood. */
  lemma {:induction false} LinesAreTaken(m: Machine, setup: Setup, lines: seq<string>, rest: string, form: Form)
    requires ArePlain(lines) && m.buf == Ended(lines, rest) && Fold(m.form, lines, setup) == Some(form)
    ensures HeaderLines(m, setup) == HeaderLines(m.(form := form, buf := rest), setup)
    decreases |lines|
  {
    if lines != [] {
      LineIsFound(m, lines[0], Ended(lines[1..], rest));
      var next := setup.parseLine(m.form, lines[0]).value;
      LinesAreTaken(m.(form := next, buf := Ended(lines[1..], rest)), setup, lines[1..], rest, form);
    }
  }

  /** What then follows: the empty line, which reports the header; a line that is not
      understood; or less than a line, which waits. */
  lemma HeaderEndIs(m: Machine, setup: Setup, line: string, rest: string)
    ensures m.buf == "\r\n" + rest ==>
      HeaderLines(m, setup)
        == if setup.accepts(Header(m.form)) then Go(m.(buf := rest, phase := 3, log := m.log + [Header(m.form)]))
           else Return(false, m.(valid := false, log := m.log + [Header(m.form)]))
    ensures m.buf == line + ("\r\n" + rest) && ArePlain([line]) && setup.parseLine(m.form, line).None? ==>
      HeaderLines(m, setup) == Return(false, m.(valid := false))
    ensures IsNowhere(m.buf, "\r\n") ==> HeaderLines(m, setup) == Return(true, m)
  {
    if m.buf == "\r\n" + rest {
      assert OccursAt(m.buf, "\r\n", 0);
      assert m.buf[2..] == rest;
    }
    if m.buf == line + ("\r\n" + rest) && ArePlain([line]) {
      assert [line][0] == line;
      LineIsFound(m, line, rest);
    }
  }

  /** In a content: up to the delimiter it is passed on whole; without one, all but as much
      as a delimiter is long is passed on. */
  lemma ContentIs(m: Machine, setup: Setup, d: string, k: nat)
    requires m.phase == 3 && m.buf != "" && d == "\r\n--" + setup.boundary
    ensures IsFirstAt(m.buf, d, k) ==>
      var log := m.log + [Content(m.buf[..k])];
      Turn(m, setup)
        == if setup.accepts(Content(m.buf[..k])) then Go(m.(buf := m.buf[k + |d|..], phase := 4, log := log))
           else Return(false, m.(valid := false, log := log))
    ensures IsNowhere(m.buf, d) && |m.buf| <= |d| ==> Turn(m, setup) == Return(true, m)
    ensures IsNowhere(m.buf, d) && |m.buf| > |d| ==>
      var n := |m.buf| - |d|;
      var log := m.log + [Content(m.buf[..n])];
      Turn(m, setup)
        == if setup.accepts(Content(m.buf[..n])) then Return(true, m.(buf := m.buf[n..], log := log))
           else Return(false, m.(valid := false, log := log))
  {
    assert Delimiter(setup.boundary) == d;
    if IsFirstAt(m.buf, d, k) { FindsFirst(m.buf, d, k); }
    if IsNowhere(m.buf, d) { FindsNothing(m.buf, d); }
  }

  /** Behind a delimiter: a line end begins the next part, two dashes end the body and drop
      what follows, and anything else stays where it is. */
  lemma BehindDelimiterIs(m: Machine, setup: Setup)
    requires m.phase == 4 && m.buf != ""
    ensures Turn(m, setup)
         == if "\r\n" <= m.buf then Go(m.(buf := m.buf[2..], phase := 1))
            else if "--" <= m.buf then Go(m.(buf := "", valid := true))
            else Return(true, m)
  {
  }
}
