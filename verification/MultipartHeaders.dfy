/** The header lines of a part (include/httplib.h): how the multipart parser reads them, and
    which of those that the serializer writes it understands as they were meant. */
module MultipartHeaders {
  import opened Wrappers
  import opened Sequences
  import opened Multipart
  import opened MultipartFraming

  // Trimming and splitting.

  predicate IsBlank(c: char) {
    c == ' ' || c == '\t'
  }

  function TrimLeft(s: string): (r: string)
    ensures |r| <= |s|
  {
    if s != "" && IsBlank(s[0]) then TrimLeft(s[1..]) else s
  }

  function TrimRight(s: string): (r: string)
    ensures |r| <= |s|
  {
    if s != "" && IsBlank(s[|s| - 1]) then TrimRight(s[..|s| - 1]) else s
  }

  function Trim(s: string): (r: string)
    ensures |r| <= |s|
  {
    TrimRight(TrimLeft(s))
  }

  /** What `split` makes of one segment: blank ones are left out. */
  function Kept(segment: string): seq<string> {
    if Trim(segment) == "" then [] else [Trim(segment)]
  }

  /** `split`, with `segment` read since the last delimiter. */
  function Split(segment: string, s: string, d: char): seq<string>
    decreases |s|
  {
    if s == "" then Kept(segment)
    else if s[0] == d then Kept(segment) + Split("", s[1..], d)
    else Split(segment + [s[0]], s[1..], d)
  }

  /** `trim_double_quotes_copy`. */
  function Unquote(s: string): (r: string)
    ensures |r| <= |s|
  {
    if |s| >= 2 && s[0] == '"' && s[|s| - 1] == '"' then s[1..|s| - 1] else s
  }

  // The parameters of a disposition.

  datatype Param = Param(key: string, value: string)

  /** The first segment before an equals sign, and the last one behind one. */
  function KeyOf(kv: string): string {
    var parts := Split("", kv, '=');
    if parts == [] then "" else parts[0]
  }

  function ValueOf(kv: string): string {
    var parts := Split("", kv, '=');
    if |parts| <= 1 then "" else parts[|parts| - 1]
  }

  /** `parse_disposition_params` for the first `k` segments; one that came before is left out. */
  function ParamsOf(kvs: seq<string>, k: nat): seq<Param>
    requires k <= |kvs|
  {
    if k == 0 then []
    else
      var kv := kvs[k - 1];
      ParamsOf(kvs, k - 1)
      + if kv in kvs[..k - 1] || KeyOf(kv) == "" then [] else [Param(Unquote(KeyOf(kv)), Unquote(ValueOf(kv)))]
  }

  /** The first parameter of that name. */
  function Lookup(params: seq<Param>, key: string): Option<string> {
    if params == [] then None
    else if params[0].key == key then Some(params[0].value)
    else Lookup(params[1..], key)
  }

  // A line.

  function ToLower(c: char): char {
    if 'A' <= c <= 'Z' then (c as int + 32) as char else c
  }

  /** `start_with_case_ignore`, for a text in lower case. */
  predicate BeginsLower(s: string, t: string) {
    |s| >= |t| && forall i :: 0 <= i < |t| ==> ToLower(s[i]) == t[i]
  }

  /** `\s` of a regular expression. */
  predicate IsSpace(c: char) {
    c == ' ' || '\t' <= c <= '\r'
  }

  function SkipSpaces(s: string): string {
    if s != "" && IsSpace(s[0]) then SkipSpaces(s[1..]) else s
  }

  /** What `^Content-Disposition:\s*form-data;\s*(.*)$` captures. */
  function Disposition(line: string): Option<string> {
    if !BeginsLower(line, "content-disposition:") then None
    else
      var kind := SkipSpaces(line[20..]);
      if !BeginsLower(kind, "form-data;") then None
      else
        var rest := SkipSpaces(kind[10..]);
        if '\n' in rest || '\r' in rest then None else Some(rest)
  }

  /** The extended notation of a file name; None when it is refused. */
  type Decoder = string -> Option<string>

  function WithParams(form: Form, params: seq<Param>, decode: Decoder): Option<Form> {
    match Lookup(params, "name")
    case None => None
    case Some(name) =>
      var named := form.(name := name);
      var plain := match Lookup(params, "filename") case None => named case Some(f) => named.(filename := f);
      match Lookup(params, "filename*")
      case None => Some(plain)
      case Some(value) =>
        match decode(value)
        case None => None
        case Some(f) => Some(plain.(filename := f))
  }

  /** What a header line does to the form; None when the parser refuses it. */
  function ParseLine(form: Form, line: string, decode: Decoder): Option<Form> {
    if BeginsLower(line, "content-type:") then Some(form.(contentType := Trim(line[13..])))
    else
      match Disposition(line)
      case None => None
      case Some(rest) =>
        var kvs := Split("", rest, ';');
        WithParams(form, ParamsOf(kvs, |kvs|), decode)
  }

  // What is written comes back.

  lemma {:induction false} SplitAtFirst(segment: string, a: string, rest: string, d: char)
    requires d !in a
    ensures Split(segment, a + ([d] + rest), d) == Kept(segment + a) + Split("", rest, d)
    decreases |a|
  {
    var s := a + ([d] + rest);
    if a == "" {
      assert s[1..] == rest && segment + "" == segment;
    } else {
      assert s[1..] == a[1..] + ([d] + rest) && segment + [a[0]] + a[1..] == segment + a;
      SplitAtFirst(segment + [a[0]], a[1..], rest, d);
    }
  }

  lemma {:induction false} SplitNowhere(segment: string, a: string, d: char)
    requires d !in a
    ensures Split(segment, a, d) == Kept(segment + a)
    decreases |a|
  {
    if a == "" {
      assert segment + "" == segment;
    } else {
      assert segment + [a[0]] + a[1..] == segment + a;
      SplitNowhere(segment + [a[0]], a[1..], d);
    }
  }

  /** Text that neither starts nor ends with a blank is kept as it is. */
  lemma TightIsKept(s: string)
    requires s != "" && !IsBlank(s[0]) && !IsBlank(s[|s| - 1])
    ensures Trim(s) == s && Kept(s) == [s]
  {
  }

  lemma BlankIsTrimmed(s: string)
    requires s != "" && !IsBlank(s[0]) && !IsBlank(s[|s| - 1])
    ensures Kept(" " + s) == [s]
  {
    assert (" " + s)[1..] == s;
    TightIsKept(s);
  }

  predicate IsPlain(s: string) {
    ';' !in s && '=' !in s && '\r' !in s && '\n' !in s
  }

  function Quoted(s: string): string {
    "\"" + s + "\""
  }

  lemma UnquoteQuoted(s: string)
    ensures Unquote(Quoted(s)) == s
  {
  }

  /** A key and a quoted value. */
  lemma KeyAndValue(key: string, value: string)
    requires key == "name" || key == "filename"
    requires '=' !in value
    ensures var kv := key + ("=" + Quoted(value));
      KeyOf(kv) == key && ValueOf(kv) == Quoted(value)
  {
    SplitAtFirst("", key, Quoted(value), '=');
    SplitNowhere("", Quoted(value), '=');
    assert "" + key == key && "" + Quoted(value) == Quoted(value);
    TightIsKept(key);
    TightIsKept(Quoted(value));
  }

  /** The first line of a header, from the name on. */
  function NamePart(item: Item): string {
    "name" + ("=" + Quoted(item.name))
  }

  function FilePart(item: Item): string {
    "filename" + ("=" + Quoted(item.filename))
  }

  function Written(item: Item): string {
    if item.filename == "" then NamePart(item) else NamePart(item) + (";" + (" " + FilePart(item)))
  }

  lemma FirstLine(item: Item)
    ensures HeaderOf(item)[0] == "Content-Disposition: form-data; " + Written(item)
  {
  }

  lemma BeginsAs(s: string, t: string, rest: string)
    requires |s| == |t| && forall i :: 0 <= i < |t| ==> ToLower(s[i]) == t[i]
    ensures BeginsLower(s + rest, t) && (s + rest)[|t|..] == rest
  {
  }

  lemma OneSpace(rest: string)
    requires rest != "" && !IsSpace(rest[0])
    ensures SkipSpaces(" " + rest) == rest
  {
    assert (" " + rest)[1..] == rest;
  }

  lemma Regrouped(rest: string)
    ensures "Content-Disposition: form-data; " + rest == "Content-Disposition:" + (" " + ("form-data;" + (" " + rest)))
  {
  }

  lemma BehindKind(rest: string)
    requires rest != "" && rest[0] == 'n'
    ensures Disposition("Content-Disposition: form-data; " + rest)
         == if '\n' in rest || '\r' in rest then None else Some(rest)
  {
    var kind := "form-data;" + (" " + rest);
    Regrouped(rest);
    BeginsAs("Content-Disposition:", "content-disposition:", " " + kind);
    OneSpace(kind);
    BeginsAs("form-data;", "form-data;", " " + rest);
    OneSpace(rest);
  }

  lemma IsNoType(rest: string)
    ensures !BeginsLower("Content-Disposition: form-data; " + rest, "content-type:")
  {
    var line := "Content-Disposition: form-data; " + rest;
    assert line[8] == 'D' && ToLower('D') == 'd' && "content-type:"[8] == 't';
  }

  lemma ParamsOfOne(kv: string)
    requires KeyOf(kv) != ""
    ensures ParamsOf([kv], 1) == [Param(Unquote(KeyOf(kv)), Unquote(ValueOf(kv)))]
  {
    assert ParamsOf([kv], 0) == [];
    assert [kv][..0] == [];
  }

  lemma ParamsOfTwo(a: string, b: string)
    requires a != b && KeyOf(a) != "" && KeyOf(b) != ""
    ensures ParamsOf([a, b], 2)
         == [Param(Unquote(KeyOf(a)), Unquote(ValueOf(a))), Param(Unquote(KeyOf(b)), Unquote(ValueOf(b)))]
  {
    assert ParamsOf([a, b], 0) == [];
    assert [a, b][..0] == [] && [a, b][..1] == [a];
    assert ParamsOf([a, b], 1) == [Param(Unquote(KeyOf(a)), Unquote(ValueOf(a)))];
  }

  lemma NameKept(item: Item)
    requires IsPlain(item.name)
    ensures KeyOf(NamePart(item)) == "name" && ValueOf(NamePart(item)) == Quoted(item.name)
    ensures Kept(NamePart(item)) == [NamePart(item)] && ';' !in NamePart(item)
  {
    KeyAndValue("name", item.name);
    TightIsKept(NamePart(item));
  }

  lemma FileKept(item: Item)
    requires IsPlain(item.filename)
    ensures KeyOf(FilePart(item)) == "filename" && ValueOf(FilePart(item)) == Quoted(item.filename)
    ensures Kept(" " + FilePart(item)) == [FilePart(item)] && ';' !in " " + FilePart(item)
  {
    KeyAndValue("filename", item.filename);
    BlankIsTrimmed(FilePart(item));
  }

  /** The parameters that are read of a plain name and file name. */
  lemma WrittenParams(item: Item)
    requires IsPlain(item.name) && IsPlain(item.filename)
    ensures var kvs := Split("", Written(item), ';');
      ParamsOf(kvs, |kvs|)
        == [Param("name", item.name)] + if item.filename == "" then [] else [Param("filename", item.filename)]
  {
    NameKept(item);
    UnquoteQuoted(item.name);
    assert "" + NamePart(item) == NamePart(item);
    if item.filename == "" {
      SplitNowhere("", NamePart(item), ';');
      ParamsOfOne(NamePart(item));
    } else {
      FileKept(item);
      UnquoteQuoted(item.filename);
      SplitAtFirst("", NamePart(item), " " + FilePart(item), ';');
      SplitNowhere("", " " + FilePart(item), ';');
      assert "" + (" " + FilePart(item)) == " " + FilePart(item);
      assert NamePart(item)[0] != FilePart(item)[0];
      assert [NamePart(item)] + [FilePart(item)] == [NamePart(item), FilePart(item)];
      ParamsOfTwo(NamePart(item), FilePart(item));
    }
  }

  // What is not understood as it was meant.

  lemma {:induction false} TrimLeftIs(s: string) returns (k: nat)
    ensures k <= |s| && TrimLeft(s) == s[k..]
  {
    k := 0;
    if s != "" && IsBlank(s[0]) {
      var n := TrimLeftIs(s[1..]);
      k := n + 1;
    }
  }

  lemma {:induction false} TrimRightIs(s: string) returns (k: nat)
    ensures k <= |s| && TrimRight(s) == s[..k]
    ensures forall i :: 0 <= i < |s| && !IsBlank(s[i]) ==> i < k
  {
    k := |s|;
    if s != "" && IsBlank(s[|s| - 1]) {
      k := TrimRightIs(s[..|s| - 1]);
      assert s[..|s| - 1][..k] == s[..k];
    }
  }

  lemma TrimHasNoMore(s: string, c: char)
    requires c !in s
    ensures c !in Trim(s)
  {
    var a := TrimLeftIs(s);
    var b := TrimRightIs(s[a..]);
  }

  /** The parts come from the text, and hold no delimiter. */
  lemma {:induction false} PartsAreParts(segment: string, s: string, d: char, c: char)
    requires d !in segment
    ensures forall part :: part in Split(segment, s, d) ==>
              |part| <= |segment| + |s| && d !in part && (c !in segment && c !in s ==> c !in part)
    decreases |s|
  {
    TrimHasNoMore(segment, d);
    if c !in segment { TrimHasNoMore(segment, c); }
    if s != "" {
      if s[0] == d {
        PartsAreParts("", s[1..], d, c);
      } else {
        PartsAreParts(segment + [s[0]], s[1..], d, c);
      }
    }
  }

  /** Where a parameter comes from. */
  ghost predicate ComesFrom(p: Param, kv: string) {
    p == Param(Unquote(KeyOf(kv)), Unquote(ValueOf(kv)))
  }

  lemma {:induction false} ParamComes(kvs: seq<string>, k: nat, p: Param) returns (i: nat)
    requires k <= |kvs| && p in ParamsOf(kvs, k)
    ensures i < k && ComesFrom(p, kvs[i])
  {
    if p in ParamsOf(kvs, k - 1) {
      i := ParamComes(kvs, k - 1, p);
    } else {
      i := k - 1;
    }
  }

  lemma {:induction false} LookupFinds(params: seq<Param>, key: string)
    requires Lookup(params, key).Some?
    ensures Param(key, Lookup(params, key).value) in params
  {
    if params[0].key != key { LookupFinds(params[1..], key); }
  }

  /** A value holds neither delimiter, and is no longer than its parameter. */
  lemma ValueIsFree(kv: string)
    requires ';' !in kv
    ensures ';' !in Unquote(ValueOf(kv)) && '=' !in Unquote(ValueOf(kv)) && |Unquote(ValueOf(kv))| <= |kv|
  {
    PartsAreParts("", kv, '=', ';');
  }

  lemma ParamsAreFree(s: string, p: Param)
    requires var kvs := Split("", s, ';'); p in ParamsOf(kvs, |kvs|)
    ensures ';' !in p.value && '=' !in p.value
  {
    var kvs := Split("", s, ';');
    var i := ParamComes(kvs, |kvs|, p);
    PartsAreParts("", s, ';', ';');
    assert kvs[i] in kvs;
    ValueIsFree(kvs[i]);
  }

  lemma KeyStays(y: string)
    ensures KeyOf("filename" + ("=" + y)) == "filename"
  {
    SplitAtFirst("", "filename", y, '=');
    assert "" + "filename" == "filename";
    TightIsKept("filename");
  }

  /** The second segment of a line with a file name that holds a semicolon. */
  lemma CutFilePart(a: string) returns (y: string)
    ensures Kept(" " + ("filename=\"" + a)) == ["filename" + ("=" + y)]
  {
    var p := "filename=\"" + a;
    assert (" " + p)[1..] == p;
    assert TrimLeft(" " + p) == p;
    var k := TrimRightIs(p);
    assert !IsBlank(p[9]);
    y := p[9..k];
    assert p[..k] == "filename" + ("=" + y);
  }

  lemma {:induction false} FirstSemicolon(s: string) returns (a: string, b: string)
    requires ';' in s
    ensures s == a + ([';'] + b) && ';' !in a
  {
    if s[0] == ';' {
      a, b := "", s[1..];
    } else {
      a, b := FirstSemicolon(s[1..]);
      a := [s[0]] + a;
    }
  }

  lemma CutWritten(item: Item, a: string, b: string)
    requires item.filename == a + ([';'] + b)
    ensures Written(item) == NamePart(item) + ([';'] + ((" " + ("filename=\"" + a)) + ([';'] + (b + "\""))))
  {
    assert Quoted(item.filename) == "\"" + a + ([';'] + (b + "\""));
    assert FilePart(item) == "filename=\"" + a + ([';'] + (b + "\""));
    assert " " + FilePart(item) == (" " + ("filename=\"" + a)) + ([';'] + (b + "\""));
  }

  /** The segments when the file name holds a semicolon. */
  lemma CutSegments(item: Item) returns (y: string, rest: string)
    requires IsPlain(item.name) && ';' in item.filename
    ensures Split("", Written(item), ';')
         == [NamePart(item)] + (["filename" + ("=" + y)] + Split("", rest, ';'))
    ensures |rest| <= |item.filename|
  {
    var a, b := FirstSemicolon(item.filename);
    var second := " " + ("filename=\"" + a);
    rest := b + "\"";
    CutWritten(item, a, b);
    NameKept(item);
    assert "" + NamePart(item) == NamePart(item) && "" + second == second;
    SplitAtFirst("", NamePart(item), second + ([';'] + rest), ';');
    SplitAtFirst("", second, rest, ';');
    y := CutFilePart(a);
  }

  lemma ExtendedIsNoName(item: Item, y: string, p: Param)
    requires IsPlain(item.name) && p.key == "filename*"
    ensures !ComesFrom(p, NamePart(item)) && !ComesFrom(p, "filename" + ("=" + y))
  {
    NameKept(item);
    KeyStays(y);
  }

  lemma TwoSegments(item: Item)
    requires IsPlain(item.name) && item.filename != "" && ';' !in item.filename
    ensures Split("", Written(item), ';') == [NamePart(item), FilePart(item)]
  {
    NameKept(item);
    BlankIsTrimmed(FilePart(item));
    SplitAtFirst("", NamePart(item), " " + FilePart(item), ';');
    SplitNowhere("", " " + FilePart(item), ';');
    assert "" + NamePart(item) == NamePart(item) && "" + (" " + FilePart(item)) == " " + FilePart(item);
  }

  /** An extended file name is no longer than what was written. */
  lemma ExtendedIsShort(item: Item)
    requires IsPlain(item.name) && item.filename != ""
    ensures var kvs := Split("", Written(item), ';');
      var v := Lookup(ParamsOf(kvs, |kvs|), "filename*");
      v.Some? ==> |v.value| <= |item.filename|
  {
    var kvs := Split("", Written(item), ';');
    var params := ParamsOf(kvs, |kvs|);
    if Lookup(params, "filename*").Some? {
      LookupFinds(params, "filename*");
      var p := Param("filename*", Lookup(params, "filename*").value);
      var i := ParamComes(kvs, |kvs|, p);
      if ';' in item.filename {
        var y, rest := CutSegments(item);
        ExtendedIsNoName(item, y, p);
        assert kvs[i] in Split("", rest, ';');
        PartsAreParts("", rest, ';', ';');
        ValueIsFree(kvs[i]);
      } else {
        TwoSegments(item);
        ExtendedIsNoName(item, Quoted(item.filename), p);
      }
    }
  }

  /** What the extended notation decodes to is shorter than it. */
  ghost predicate Shortens(decode: Decoder) {
    forall v :: decode(v).Some? ==> |decode(v).value| < |v|
  }

  lemma ParamsOfWritten(item: Item, params: seq<Param>)
    requires var kvs := Split("", Written(item), ';'); params == ParamsOf(kvs, |kvs|)
    ensures forall p :: p in params ==> ';' !in p.value && '=' !in p.value
  {
    forall p | p in params ensures ';' !in p.value && '=' !in p.value {
      ParamsAreFree(Written(item), p);
    }
  }

  lemma NameIsFree(item: Item, params: seq<Param>, decode: Decoder)
    requires forall p :: p in params ==> ';' !in p.value && '=' !in p.value
    requires WithParams(EMPTY_FORM, params, decode).Some?
    ensures var form := WithParams(EMPTY_FORM, params, decode).value;
      && ';' !in form.name && '=' !in form.name
      && (Lookup(params, "filename*").None? ==> ';' !in form.filename && '=' !in form.filename)
  {
    LookupFinds(params, "name");
    if Lookup(params, "filename").Some? { LookupFinds(params, "filename"); }
  }

  lemma InQuoted(s: string, c: char, before: string)
    ensures c in before + Quoted(s) <==> c in before || c == '"' || c in s
  {
    var t := before + Quoted(s);
    forall i | 0 <= i < |before| ensures before[i] in t {
      assert t[i] == before[i];
    }
    forall i | 0 <= i < |s| ensures s[i] in t {
      assert t[|before| + 1 + i] == s[i];
    }
    assert t[|before|] == '"';
  }

  lemma LineEndIn(item: Item, c: char)
    requires c == '\n' || c == '\r'
    ensures c in Written(item) <==> c in item.name || c in item.filename
  {
    InQuoted(item.name, c, "name=");
    assert "name=" + Quoted(item.name) == NamePart(item);
    if item.filename != "" {
      InQuoted(item.filename, c, NamePart(item) + "; filename=");
      assert NamePart(item) + "; filename=" + Quoted(item.filename) == Written(item);
      assert c in NamePart(item) + "; filename=" <==> c in NamePart(item);
    }
  }

  lemma LineEndsIn(item: Item)
    ensures ('\n' in Written(item) || '\r' in Written(item))
       <==> '\n' in item.name || '\r' in item.name || '\n' in item.filename || '\r' in item.filename
  {
    LineEndIn(item, '\n');
    LineEndIn(item, '\r');
  }

  /** What the first line of a header is read as. */
  lemma FirstLineIsRead(item: Item, decode: Decoder) returns (params: seq<Param>)
    ensures var kvs := Split("", Written(item), ';'); params == ParamsOf(kvs, |kvs|)
    ensures ParseLine(EMPTY_FORM, HeaderOf(item)[0], decode)
         == if '\n' in Written(item) || '\r' in Written(item) then None else WithParams(EMPTY_FORM, params, decode)
  {
    var kvs := Split("", Written(item), ';');
    params := ParamsOf(kvs, |kvs|);
    FirstLine(item);
    IsNoType(Written(item));
    BehindKind(Written(item));
  }

  lemma LookupOne(a: Param, key: string)
    ensures Lookup([a], key) == if a.key == key then Some(a.value) else None
  {
  }

  lemma LookupTwo(a: Param, b: Param, key: string)
    ensures Lookup([a, b], key)
         == if a.key == key then Some(a.value) else if b.key == key then Some(b.value) else None
  {
    assert [a, b][1..] == [b];
    LookupOne(b, key);
  }

  lemma PlainParams(name: string, filename: string, params: seq<Param>, decode: Decoder)
    requires params == [Param("name", name)] + if filename == "" then [] else [Param("filename", filename)]
    ensures WithParams(EMPTY_FORM, params, decode) == Some(Form(name, filename, ""))
  {
    var a, b := Param("name", name), Param("filename", filename);
    assert |"name"| == 4 && |"filename"| == 8 && |"filename*"| == 9;
    if filename == "" {
      assert params == [a];
      LookupOne(a, "name");
      LookupOne(a, "filename");
      LookupOne(a, "filename*");
    } else {
      assert params == [a, b];
      LookupTwo(a, b, "name");
      LookupTwo(a, b, "filename");
      LookupTwo(a, b, "filename*");
    }
  }

  lemma PlainIsRead(item: Item, decode: Decoder)
    requires IsPlain(item.name) && IsPlain(item.filename)
    ensures ParseLine(EMPTY_FORM, HeaderOf(item)[0], decode) == Some(Form(item.name, item.filename, ""))
  {
    var params := FirstLineIsRead(item, decode);
    LineEndsIn(item);
    WrittenParams(item);
    PlainParams(item.name, item.filename, params, decode);
  }

  lemma MeantIsFree(item: Item, params: seq<Param>, decode: Decoder)
    requires Shortens(decode) && forall p :: p in params ==> ';' !in p.value && '=' !in p.value
    requires WithParams(EMPTY_FORM, params, decode) == Some(Form(item.name, item.filename, ""))
    ensures ';' !in item.name && '=' !in item.name
    ensures Lookup(params, "filename*").None? ==> ';' !in item.filename && '=' !in item.filename
    ensures Lookup(params, "filename*").Some? ==> |item.filename| < |Lookup(params, "filename*").value|
  {
    NameIsFree(item, params, decode);
  }

  lemma OnlyPlainIsRead(item: Item, decode: Decoder)
    requires Shortens(decode)
    requires ParseLine(EMPTY_FORM, HeaderOf(item)[0], decode) == Some(Form(item.name, item.filename, ""))
    ensures IsPlain(item.name) && IsPlain(item.filename)
  {
    var params := FirstLineIsRead(item, decode);
    LineEndsIn(item);
    ParamsOfWritten(item, params);
    MeantIsFree(item, params, decode);
    if item.filename != "" { ExtendedIsShort(item); }
  }

  /** The type is trimmed. */
  predicate IsTight(s: string) {
    s != "" ==> !IsBlank(s[0]) && !IsBlank(s[|s| - 1])
  }

  lemma {:induction false} TightIff(s: string)
    ensures Trim(s) == s <==> IsTight(s)
  {
    var a := TrimLeftIs(s);
    var b := TrimRightIs(TrimLeft(s));
    if s != "" && IsTight(s) { TightIsKept(s); }
  }

  lemma TypeIsRead(form: Form, t: string, decode: Decoder)
    ensures ParseLine(form, "Content-Type: " + t, decode) == Some(form.(contentType := Trim(t)))
  {
    BeginsAs("Content-Type:", "content-type:", " " + t);
    assert "Content-Type: " + t == "Content-Type:" + (" " + t);
    assert (" " + t)[1..] == t;
  }

  /** The parser reads header lines as httplib does. */
  ghost predicate ReadsLines(setup: Setup, decode: Decoder) {
    forall form, line :: setup.parseLine(form, line) == ParseLine(form, line, decode)
  }

  lemma TypeStays(line: string, decode: Decoder)
    requires !BeginsLower(line, "content-type:")
    ensures var r := ParseLine(EMPTY_FORM, line, decode);
      r.Some? ==> r.value == Form(r.value.name, r.value.filename, "")
  {
  }

  lemma FoldOfOne(form: Form, a: string, setup: Setup)
    ensures Fold(form, [a], setup) == setup.parseLine(form, a)
  {
    assert [a][1..] == [];
  }

  lemma FoldOfTwo(a: string, b: string, setup: Setup)
    ensures var first := setup.parseLine(EMPTY_FORM, a);
      Fold(EMPTY_FORM, [a, b], setup) == if first.None? then None else setup.parseLine(first.value, b)
  {
    assert [a, b][1..] == [b];
    if setup.parseLine(EMPTY_FORM, a).Some? { FoldOfOne(setup.parseLine(EMPTY_FORM, a).value, b, setup); }
  }

  lemma LinesOf(item: Item)
    ensures HeaderOf(item) == [HeaderOf(item)[0]]
                              + if item.contentType == "" then [] else ["Content-Type: " + item.contentType]
  {
  }

  lemma SetType(form: Form, t: string)
    requires form == Form(form.name, form.filename, "")
    ensures t == "" ==> Trim(t) == "" && form.(contentType := Trim(t)) == form
  {
  }

  /** A header is read line by line. */
  lemma HeaderIsRead(item: Item, setup: Setup, decode: Decoder)
    requires ReadsLines(setup, decode)
    ensures var first := ParseLine(EMPTY_FORM, HeaderOf(item)[0], decode);
      && (first.Some? ==> first.value == Form(first.value.name, first.value.filename, ""))
      && Fold(EMPTY_FORM, HeaderOf(item), setup)
         == if first.None? then None else Some(first.value.(contentType := Trim(item.contentType)))
  {
    var a := HeaderOf(item)[0];
    FirstLine(item);
    IsNoType(Written(item));
    TypeStays(a, decode);
    LinesOf(item);
    if item.contentType == "" {
      assert HeaderOf(item) == [a];
      FoldOfOne(EMPTY_FORM, a, setup);
      if setup.parseLine(EMPTY_FORM, a).Some? { SetType(setup.parseLine(EMPTY_FORM, a).value, item.contentType); }
    } else {
      var b := "Content-Type: " + item.contentType;
      assert HeaderOf(item) == [a, b];
      FoldOfTwo(a, b, setup);
      if setup.parseLine(EMPTY_FORM, a).Some? {
        TypeIsRead(setup.parseLine(EMPTY_FORM, a).value, item.contentType, decode);
      }
    }
  }

  /** A header that is written is understood as it was meant if and only if its name and file
      name hold no semicolon, no equals sign and no line end, and its type neither starts nor
      ends with a blank. */
  lemma HeaderIsUnderstood(item: Item, setup: Setup, decode: Decoder)
    requires ReadsLines(setup, decode) && Shortens(decode)
    ensures Fold(EMPTY_FORM, HeaderOf(item), setup) == Some(Form(item.name, item.filename, item.contentType))
       <==> IsPlain(item.name) && IsPlain(item.filename) && IsTight(item.contentType)
  {
    var first := ParseLine(EMPTY_FORM, HeaderOf(item)[0], decode);
    HeaderIsRead(item, setup, decode);
    TightIff(item.contentType);
    if IsPlain(item.name) && IsPlain(item.filename) {
      PlainIsRead(item, decode);
    } else if first == Some(Form(item.name, item.filename, "")) {
      OnlyPlainIsRead(item, decode);
    }
  }

  // Whole uploads.

  function FormOf(item: Item): Form {
    Form(item.name, item.filename, item.contentType)
  }

  function Sent(items: seq<Item>): (parts: seq<Part>)
    ensures |parts| == |items|
  {
    seq(|items|, k requires 0 <= k < |items| => Part(FormOf(items[k]), items[k].content))
  }

  function FormsOf(items: seq<Item>): (forms: seq<Form>)
    ensures |forms| == |items|
  {
    seq(|items|, k requires 0 <= k < |items| => FormOf(items[k]))
  }

  /** An item whose header fits and is understood, and whose content does not hold the
      delimiter. */
  ghost predicate IsSendable(item: Item, boundary: string) {
    && IsPlain(item.name) && IsPlain(item.filename) && IsTight(item.contentType)
    && AreLines(HeaderOf(item)) && IsFree(item.content, "\r\n--" + boundary)
  }

  lemma {:induction false} PartsAreSent(c: Case, k: nat)
    requires k <= |c.items| && c.forms == FormsOf(c.items)
    ensures Parts(c, k) == Sent(c.items)[..k]
  {
    if k > 0 {
      PartsAreSent(c, k - 1);
      assert Sent(c.items)[..k] == Sent(c.items)[..k - 1] + [Sent(c.items)[k - 1]];
    }
  }

  lemma SendableIsProper(item: Item, setup: Setup, decode: Decoder)
    requires ReadsLines(setup, decode) && Shortens(decode) && IsSendable(item, setup.boundary)
    ensures IsProperItem(item, FormOf(item), setup)
  {
    HeaderIsUnderstood(item, setup, decode);
    assert Delimiter(setup.boundary) == "\r\n--" + setup.boundary;
  }

  /** What is written comes back: names, file names, types and contents, however the body is
      cut behind its opening line. */
  lemma UploadComesBack(items: seq<Item>, setup: Setup, decode: Decoder, chunks: seq<string>)
    requires ReadsLines(setup, decode) && Shortens(decode) && '\r' !in setup.boundary
    requires (forall k :: 0 <= k < |items| ==> IsSendable(items[k], setup.boundary)) && forall e :: setup.accepts(e)
    requires Join(chunks) == Serialized(items, 0, setup.boundary)
    requires items != [] ==> chunks != [] && |chunks[0]| >= |setup.boundary| + 4
    ensures var (ok, m) := Feed(Fresh(), chunks, setup);
      ok && Collected(m.log) == Sent(items) && (m.valid <==> items != [])
  {
    var c := Case(items, FormsOf(items), setup);
    forall k | 0 <= k < |items| ensures IsProperItem(items[k], c.forms[k], setup) {
      SendableIsProper(items[k], setup, decode);
    }
    ChunksAgree(c, chunks);
    PartsAreSent(c, |items|);
    assert Sent(items)[..|items|] == Sent(items);
  }

  // The loops.

  lemma LeftStep(b: string, first: nat, right: nat)
    requires first < right <= |b| && IsBlank(b[first])
    ensures TrimLeft(b[first..right]) == TrimLeft(b[first + 1..right])
  {
    assert b[first..right][1..] == b[first + 1..right];
  }

  lemma RightStep(b: string, first: nat, last: nat)
    requires first < last <= |b| && IsBlank(b[last - 1])
    ensures TrimRight(b[first..last]) == TrimRight(b[first..last - 1])
  {
    assert b[first..last][..last - first - 1] == b[first..last - 1];
  }

  lemma NoStep(b: string, first: nat, last: nat)
    requires first <= last <= |b| && (last == 0 || !IsBlank(b[last - 1]))
    ensures TrimRight(b[first..last]) == b[first..last]
  {
  }

  /** `trim` of a segment that ends at a delimiter or at the end of the text. */
  method TrimmedRange(b: string, left: nat, right: nat) returns (first: nat, last: nat)
    requires left <= right <= |b| && (right < |b| ==> !IsBlank(b[right]))
    ensures if Trim(b[left..right]) == "" then first >= last
            else first <= last <= |b| && b[first..last] == Trim(b[left..right])
  {
    first, last := left, right;
    while first < |b| && IsBlank(b[first])
      invariant left <= first <= right && TrimLeft(b[first..right]) == TrimLeft(b[left..right])
    {
      LeftStep(b, first, right);
      first := first + 1;
    }
    ghost var text := TrimRight(b[first..right]);
    assert text == Trim(b[left..right]);
    while last > 0 && IsBlank(b[last - 1])
      invariant last <= right && if last < first then text == "" else text == TrimRight(b[first..last])
    {
      if last > first { RightStep(b, first, last); }
      last := last - 1;
    }
    if last >= first { NoStep(b, first, last); }
  }

  method KeepSegment(s: string, beg: nat, end: nat, parts: seq<string>) returns (more: seq<string>)
    requires beg <= end <= |s| && (end < |s| ==> !IsBlank(s[end]))
    ensures more == parts + Kept(s[beg..end])
  {
    var first, last := TrimmedRange(s, beg, end);
    if first < last {
      more := parts + [s[first..last]];
    } else {
      more := parts;
    }
  }

  lemma {:induction false} PartsAreFull(segment: string, s: string, d: char)
    ensures forall part :: part in Split(segment, s, d) ==> part != ""
    decreases |s|
  {
    if s != "" {
      if s[0] == d {
        PartsAreFull("", s[1..], d);
      } else {
        PartsAreFull(segment + [s[0]], s[1..], d);
      }
    }
  }

  method SplitText(s: string, d: char) returns (parts: seq<string>)
    requires !IsBlank(d)
    ensures parts == Split("", s, d)
  {
    parts := [];
    var i, beg := 0, 0;
    while i < |s|
      invariant beg <= i <= |s| && Split("", s, d) == parts + Split(s[beg..i], s[i..], d)
    {
      if s[i] == d {
        parts := KeepSegment(s, beg, i, parts);
        beg := i + 1;
        assert s[beg..i + 1] == "";
      } else {
        assert s[beg..i] + [s[i]] == s[beg..i + 1];
      }
      assert s[i..][1..] == s[i + 1..];
      i := i + 1;
    }
    if i > 0 {
      parts := KeepSegment(s, beg, i, parts);
    }
  }

  /** The inner loop of `parse_disposition_params`. */
  method KeyValue(kv: string) returns (key: string, value: string)
    ensures key == KeyOf(kv) && value == ValueOf(kv)
  {
    key, value := "", "";
    var parts := SplitText(kv, '=');
    PartsAreFull("", kv, '=');
    assert forall i :: 0 <= i < |parts| ==> parts[i] in parts;
    for i := 0 to |parts|
      invariant key == if i == 0 then "" else parts[0]
      invariant value == if i <= 1 then "" else parts[i - 1]
    {
      if key == "" {
        key := parts[i];
      } else {
        value := parts[i];
      }
    }
  }

  method ParseDispositionParams(s: string) returns (params: seq<Param>)
    ensures var kvs := Split("", s, ';'); params == ParamsOf(kvs, |kvs|)
  {
    params := [];
    var cache := {};
    var kvs := SplitText(s, ';');
    for i := 0 to |kvs|
      invariant params == ParamsOf(kvs, i) && forall kv :: kv in cache <==> kv in kvs[..i]
    {
      var kv := kvs[i];
      if kv !in cache {
        cache := cache + {kv};
        var key, value := KeyValue(kv);
        if key != "" {
          params := params + [Param(Unquote(key), Unquote(value))];
        }
      }
    }
  }
}
