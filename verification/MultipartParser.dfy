/** `MultipartFormDataParser` (include/httplib.h): the object, with its buffer. */
module MultipartParser {
  import opened Http
  import opened Multipart

  class Parser {
    const setup: Setup
    var state: nat
    var isValid: bool
    var file: Form
    var buf: array<char>
    var spos: nat
    var epos: nat
    /** The calls of the callbacks so far. */
    var log: seq<Event>

    ghost predicate Valid()
      reads this
    {
      spos <= epos <= buf.Length
    }

    ghost function Contents(): (s: string)
      requires Valid()
      reads this, buf
      ensures |s| == epos - spos
    {
      buf[spos..epos]
    }

    ghost function Model(): Machine
      requires Valid()
      reads this, buf
    {
      Machine(state, Contents(), file, isValid, log)
    }

    constructor (setup: Setup)
      ensures Valid() && fresh(buf) && Model() == Fresh() && this.setup == setup
    {
      this.setup := setup;
      state, isValid, file, log, spos, epos := 0, false, EMPTY_FORM, [], 0, 0;
      buf := new char[0];
    }

    // The buffer.

    function BufSize(): nat
      requires Valid()
      reads this
    {
      epos - spos
    }

    method Resize(size: nat)
      requires Valid() && buf.Length <= size
      modifies this`buf
      ensures fresh(buf) && buf.Length == size && Valid()
      ensures buf[..old(buf.Length)] == old(buf[..])
    {
      var bigger := new char[size](_ => '\0');
      for i := 0 to buf.Length
        invariant buf == old(buf) && buf[..] == old(buf[..]) && bigger[..i] == buf[..i]
      {
        bigger[i] := buf[i];
      }
      buf := bigger;
    }

    /** Moves what is left to the front of the buffer. */
    method Shift()
      requires Valid()
      modifies this`spos, this`epos, buf
      ensures Valid() && spos == 0 && Contents() == old(Contents())
    {
      var remaining := BufSize();
      ghost var rest := Contents();
      if remaining > 0 && spos > 0 {
        for i := 0 to remaining
          invariant spos == old(spos) && epos == old(epos)
          invariant forall k :: 0 <= k < i ==> buf[k] == rest[k]
          invariant forall k :: i <= k < remaining ==> buf[spos + k] == rest[k]
        {
          buf[i] := buf[spos + i];
        }
      }
      spos, epos := 0, remaining;
    }

    method Append(data: string)
      requires Valid()
      modifies this`buf, this`spos, this`epos, buf
      ensures Valid() && (buf == old(buf) || fresh(buf))
      ensures Contents() == old(Contents()) + data
    {
      Shift();
      ghost var rest := Contents();
      var remaining, n := epos, |data|;
      if remaining + n > buf.Length {
        Resize(remaining + n);
      }
      for i := 0 to n
        invariant remaining + n <= buf.Length && epos == remaining && spos == 0 && (buf == old(buf) || fresh(buf))
        invariant forall k :: 0 <= k < remaining ==> buf[k] == rest[k]
        invariant forall k :: 0 <= k < i ==> buf[remaining + k] == data[k]
      {
        buf[epos + i] := data[i];
      }
      epos := epos + n;
      ghost var all := buf[..remaining + n];
      assert forall k :: 0 <= k < n ==> all[remaining + k] == data[k];
      assert all == rest + data;
    }

    method Erase(size: nat)
      requires Valid() && size <= BufSize()
      modifies this`spos
      ensures Valid() && Contents() == old(Contents())[size..]
    {
      spos := spos + size;
    }

    method BufHead(length: nat) returns (s: string)
      requires Valid() && length <= BufSize()
      ensures s == Contents()[..length]
    {
      s := buf[spos..spos + length];
    }

    method StartWith(from: nat, s: string) returns (ok: bool)
      requires Valid() && spos <= from <= epos
      ensures ok <==> OccursAt(Contents(), s, from - spos)
    {
      if epos - from < |s| {
        return false;
      }
      ghost var piece := Contents()[from - spos..from - spos + |s|];
      for i := 0 to |s|
        invariant piece[..i] == s[..i]
      {
        if buf[from + i] != s[i] {
          assert piece[i] != s[i];
          return false;
        }
      }
      return true;
    }

    static lemma NoStart(text: string, s: string, j: nat)
      requires s != "" && j < |text| && text[j] != s[0]
      ensures !OccursAt(text, s, j)
    {
      if j + |s| <= |text| { assert text[j..j + |s|][0] == text[j]; }
    }

    static lemma FindIs(text: string, s: string, k: nat)
      requires s != "" && k < |text| && OccursAt(text, s, k) && forall j :: 0 <= j < k ==> !OccursAt(text, s, j)
      ensures Find(text, s) == k
    {
    }

    static lemma FindIsLength(text: string, s: string)
      requires s != "" && forall j :: 0 <= j < |text| ==> !OccursAt(text, s, j)
      ensures Find(text, s) == |text|
    {
    }

    method BufFind(s: string) returns (k: nat)
      requires Valid() && s != ""
      ensures k == Find(Contents(), s)
    {
      var c := s[0];
      ghost var text := Contents();
      var off := spos;
      while off < epos
        invariant spos <= off <= epos
        invariant forall j :: 0 <= j < off - spos ==> !OccursAt(text, s, j)
        decreases epos - off
      {
        var pos := off;
        while pos < epos && buf[pos] != c
          invariant off <= pos <= epos
          invariant forall j :: off <= j < pos ==> buf[j] != c
        {
          pos := pos + 1;
        }
        forall j | 0 <= j < pos - spos ensures !OccursAt(text, s, j) {
          if j >= off - spos { NoStart(text, s, j); }
        }
        if pos == epos {
          FindIsLength(text, s);
          return BufSize();
        }
        var remaining := epos - pos;
        if |s| > remaining {
          FindIsLength(text, s);
          return BufSize();
        }
        var found := StartWith(pos, s);
        if found {
          FindIs(text, s, pos - spos);
          return pos - spos;
        }
        off := pos + 1;
      }
      FindIsLength(text, s);
      return BufSize();
    }

    // Parsing.

    /** Passes an event to its callback. */
    method Tell(e: Event) returns (accepted: bool)
      modifies this`log
      ensures log == old(log) + [e] && accepted == setup.accepts(e)
    {
      log := log + [e];
      accepted := setup.accepts(e);
    }

    /** The state of the machine after a turn that goes on, or the result of `parse`. */
    ghost predicate Did(returned: bool, ok: bool, r: Move)
      reads this, buf
    {
      Valid() && state <= 4 && r == if returned then Return(ok, Model()) else Go(Model())
    }

    method ReadInitialBoundary() returns (returned: bool, ok: bool)
      requires Valid() && state == 0
      modifies this`spos, this`state
      ensures Did(returned, ok, InitialBoundary(old(Model()), setup))
    {
      var s := "--" + setup.boundary + "\r\n";
      var k := BufFind(s);
      Erase(k);
      if |s| > BufSize() {
        return true, true;
      }
      var begins := StartWith(spos, s);
      if !begins {
        return true, false;
      }
      Erase(|s|);
      state := 1;
      return false, true;
    }

    /** The empty line. */
    method EndHeader() returns (returned: bool, ok: bool)
      requires Valid() && state == 2 && Find(Contents(), CRLF) == 0 && BufSize() > 0
      modifies this`spos, this`state, this`isValid, this`log
      ensures Did(returned, ok, HeaderLines(old(Model()), setup))
    {
      var accepted := Tell(Header(file));
      if !accepted {
        isValid := false;
        return true, false;
      }
      Erase(2);
      state := 3;
      return false, true;
    }

    static lemma FieldStep(m: Machine, pos: nat, setup: Setup)
      requires 0 < pos == Find(m.buf, CRLF) < |m.buf|
      ensures HeaderLines(m, setup)
        == match setup.parseLine(m.form, m.buf[..pos])
           case None => Return(false, m.(valid := false))
           case Some(form) => HeaderLines(m.(form := form, buf := m.buf[pos + 2..]), setup)
    {
    }

    /** A line that says something. */
    method ReadField(pos: nat) returns (more: bool)
      requires Valid() && state == 2 && 0 < pos == Find(Contents(), CRLF) && pos < BufSize()
      modifies this`spos, this`file, this`isValid
      ensures Valid()
      ensures var m := old(Model());
        match setup.parseLine(m.form, m.buf[..pos])
        case None => !more && Model() == m.(valid := false)
        case Some(form) => more && Model() == m.(form := form, buf := m.buf[pos + 2..])
    {
      var line := BufHead(pos);
      var parsed := setup.parseLine(file, line);
      if parsed.None? {
        isValid := false;
        return false;
      }
      file := parsed.value;
      Erase(pos + 2);
      more := true;
    }

    /** One line of a header; `more` lines may follow. */
    method ReadHeaderLine(pos: nat) returns (more: bool, returned: bool, ok: bool)
      requires Valid() && state == 2 && pos == Find(Contents(), CRLF) && pos < BufSize()
      modifies this`spos, this`state, this`file, this`isValid, this`log
      ensures if more then Valid() && state == 2 && BufSize() < old(BufSize())
                           && HeaderLines(Model(), setup) == HeaderLines(old(Model()), setup)
              else Did(returned, ok, HeaderLines(old(Model()), setup))
    {
      if pos == 0 {
        more := false;
        returned, ok := EndHeader();
      } else {
        FieldStep(Model(), pos, setup);
        more := ReadField(pos);
        returned, ok := true, false;
      }
    }

    method ReadHeaders() returns (returned: bool, ok: bool)
      requires Valid() && state == 2
      modifies this`spos, this`state, this`file, this`isValid, this`log
      ensures Did(returned, ok, Headers(old(Model()), setup))
    {
      var pos := BufFind("\r\n");
      if pos > HEADER_MAX_LENGTH {
        return true, false;
      }
      ghost var m := Model();
      while pos < BufSize()
        invariant Valid() && state == 2 && pos == Find(Contents(), CRLF)
        invariant HeaderLines(Model(), setup) == HeaderLines(m, setup)
        decreases BufSize()
      {
        var more;
        more, returned, ok := ReadHeaderLine(pos);
        if !more {
          return;
        }
        pos := BufFind("\r\n");
      }
      return true, true;
    }

    /** Passes the first `length` characters on as content. */
    method TellContent(length: nat) returns (accepted: bool)
      requires Valid() && length <= BufSize()
      modifies this`isValid, this`log
      ensures Valid()
      ensures var m := old(Model());
        var e := Content(m.buf[..length]);
        accepted == setup.accepts(e) && Model() == if accepted then Log(m, e) else Log(m, e).(valid := false)
    {
      var piece := BufHead(length);
      accepted := Tell(Content(piece));
      if !accepted {
        isValid := false;
      }
    }

    /** The delimiter has been found. */
    method EndContent(d: string, pos: nat) returns (returned: bool, ok: bool)
      requires Valid() && state == 3 && d == Delimiter(setup.boundary)
      requires pos == Find(Contents(), d) && pos < BufSize() && |d| <= BufSize()
      modifies this`spos, this`state, this`isValid, this`log
      ensures Did(returned, ok, Body(old(Model()), setup))
    {
      var told := TellContent(pos);
      if !told {
        return true, false;
      }
      Erase(pos + |d|);
      state := 4;
      return false, true;
    }

    /** No delimiter yet: all but its length can be passed on. */
    method PassContentOn(d: string) returns (ok: bool)
      requires Valid() && state == 3 && d == Delimiter(setup.boundary)
      requires Find(Contents(), d) == BufSize() && |d| <= BufSize()
      modifies this`spos, this`isValid, this`log
      ensures Did(true, ok, Body(old(Model()), setup))
    {
      var len := BufSize() - |d|;
      if len > 0 {
        var told := TellContent(len);
        if !told {
          return false;
        }
        Erase(len);
      }
      return true;
    }

    method ReadBody() returns (returned: bool, ok: bool)
      requires Valid() && state == 3
      modifies this`spos, this`state, this`isValid, this`log
      ensures Did(returned, ok, Body(old(Model()), setup))
    {
      var d := "\r\n" + "--" + setup.boundary;
      if |d| > BufSize() {
        return true, true;
      }
      var pos := BufFind(d);
      if pos < BufSize() {
        returned, ok := EndContent(d, pos);
      } else {
        ok := PassContentOn(d);
        returned := true;
      }
    }

    method ReadBoundary() returns (returned: bool, ok: bool)
      requires Valid() && state == 4
      modifies this`spos, this`state, this`isValid
      ensures Did(returned, ok, Boundary(old(Model())))
    {
      if 2 > BufSize() {
        return true, true;
      }
      var crlf := StartWith(spos, "\r\n");
      if crlf {
        Erase(2);
        state := 1;
        return false, true;
      }
      var dash := StartWith(spos, "--");
      if !dash {
        return true, true;
      }
      Erase(2);
      isValid := true;
      Erase(BufSize());
      return false, true;
    }

    /** One turn of the loop. */
    method TakeTurn() returns (returned: bool, ok: bool)
      requires Valid() && BufSize() > 0 && state <= 4
      modifies this`spos, this`state, this`file, this`isValid, this`log
      ensures Did(returned, ok, Turn(old(Model()), setup)) && state <= 4
    {
      if state == 0 {
        returned, ok := ReadInitialBoundary();
      } else if state == 1 {
        file := EMPTY_FORM;
        state := 2;
        returned, ok := false, true;
      } else if state == 2 {
        returned, ok := ReadHeaders();
      } else if state == 3 {
        returned, ok := ReadBody();
      } else {
        returned, ok := ReadBoundary();
      }
    }

    method Parse(data: string) returns (ok: bool)
      requires Valid() && state <= 4
      modifies this, buf
      ensures Valid() && state <= 4 && (buf == old(buf) || fresh(buf))
      ensures (ok, Model()) == Multipart.Parse(old(Model()), data, setup)
    {
      Append(data);
      ghost var m := Model();
      while BufSize() > 0
        invariant Valid() && state <= 4 && (buf == old(buf) || fresh(buf))
        invariant Run(Model(), setup) == Run(m, setup)
        decreases BufSize(), if state == 1 then 1 else 0
      {
        var returned, result := TakeTurn();
        if returned {
          return result;
        }
      }
      return true;
    }
  }
}
