/** Reading and writing chunked bodies over a stream (include/httplib.h). */
module ChunkedStream {
  import opened Wrappers
  import opened Http
  import opened Sequences
  import opened Chunked

  const RECV_BUFSIZ: nat := 4096

  /** A connection: reads and writes may be cut short anywhere, and may fail. */
  class Stream {
    var input: string
    var output: string
    var failed: bool

    constructor (input: string)
      ensures this.input == input && output == "" && !failed
    {
      this.input, output, failed := input, "", false;
    }

    method Read(size: nat) returns (n: int, data: string)
      requires size > 0
      modifies this`input, this`failed
      ensures n < 0 ==> failed && data == ""
      ensures n >= 0 ==> failed == old(failed) && |data| == n <= size && data + input == old(input)
      ensures n == 0 ==> input == ""
    {
      if * {
        failed := true;
        return -1, "";
      }
      if input == "" {
        return 0, "";
      }
      var k: nat :| 0 < k <= size && k <= |input|;
      data := input[..k];
      input := input[k..];
      n := k;
    }

    method Write(data: string) returns (n: int)
      requires data != ""
      modifies this`output, this`failed
      ensures n < 0 ==> failed && output == old(output)
      ensures n >= 0 ==> failed == old(failed) && 0 < n <= |data| && output == old(output) + data[..n]
    {
      if * {
        failed := true;
        return -1;
      }
      var k: nat :| 0 < k <= |data|;
      output := output + data[..k];
      n := k;
    }

    method IsWritable() returns (writable: bool)
    {
      writable := *;
    }
  }

  // Reading.

  lemma {:induction false} LineGoesOn(s: string, i: nat)
    requires i <= |s| && '\n' !in s[..i]
    ensures LineLength(s) == i + LineLength(s[i..])
    decreases i
  {
    if i == 0 {
      assert s[0..] == s;
    } else {
      assert s[..i][0] == s[0];
      assert s[1..][..i - 1] == s[..i][1..];
      assert s[1..][i - 1..] == s[i..];
      LineGoesOn(s[1..], i - 1);
    }
  }

  /** `stream_line_reader`: short lines stay in a fixed buffer, longer ones move to one
      that grows. */
  class LineReader {
    const strm: Stream
    const fixedBuffer: array<char>
    var used: nat
    var growing: string

    ghost predicate Valid()
      reads this, fixedBuffer
    {
      && used < fixedBuffer.Length && 2 <= fixedBuffer.Length
      && (used > 0 ==> fixedBuffer[used] == '\0')
      && (growing != "" ==> used == fixedBuffer.Length - 1)
    }

    constructor (strm: Stream, size: nat)
      requires size >= 2
      ensures Valid() && this.strm == strm && fresh(fixedBuffer)
    {
      this.strm := strm;
      fixedBuffer := new char[size](_ => '\0');
      used, growing := 0, "";
    }

    /** The line that was read. */
    ghost function Line(): string
      requires Valid()
      reads this, fixedBuffer
    {
      if growing == "" then fixedBuffer[..used] else growing
    }

    method Append(c: char)
      requires Valid()
      modifies this`used, this`growing, fixedBuffer
      ensures Valid() && Line() == old(Line()) + [c]
    {
      if used < fixedBuffer.Length - 1 {
        fixedBuffer[used] := c;
        used := used + 1;
        fixedBuffer[used] := '\0';
      } else {
        if growing == "" {
          growing := fixedBuffer[..used];
        }
        growing := growing + [c];
      }
    }

    method GetLine() returns (ok: bool)
      requires Valid() && !strm.failed
      modifies this`used, this`growing, fixedBuffer, strm`input, strm`failed
      ensures Valid() && (strm.failed ==> !ok)
      ensures !strm.failed ==>
        var s := old(strm.input);
        (ok <==> s != "") && strm.input == s[LineLength(s)..] && (ok ==> Line() == s[..LineLength(s)])
    {
      used, growing := 0, "";
      ghost var s := strm.input;
      var i: nat := 0;
      while true
        invariant Valid() && !strm.failed && i <= |s| && strm.input == s[i..]
        invariant Line() == s[..i] && '\n' !in s[..i]
        decreases |s| - i
      {
        LineGoesOn(s, i);
        var n, data := strm.Read(1);
        if n < 0 {
          return false;
        }
        if n == 0 {
          if i == 0 {
            return false;
          }
          break;
        }
        assert data == [s[i]] && strm.input == s[i + 1..];
        assert s[..i + 1] == s[..i] + [s[i]];
        Append(data[0]);
        i := i + 1;
        if data[0] == '\n' {
          assert LineLength(s[i - 1..]) == 1;
          break;
        }
      }
      return true;
    }

    method Get() returns (line: string)
      requires Valid()
      ensures line == Line()
    {
      line := if growing == "" then fixedBuffer[..used] else growing;
    }
  }

  function Min(a: nat, b: nat): (m: nat)
    ensures m <= a && m <= b && (m == a || m == b)
  {
    if a < b then a else b
  }

  /** `read_content_with_length`: passes on as much as there is, up to the length. The
      receiver, or the progress callback, may refuse after any piece. */
  method ReadContentWithLength(strm: Stream, length: nat) returns (ok: bool, content: string, refused: bool)
    requires !strm.failed
    modifies strm`input, strm`failed
    ensures strm.failed || refused ==> !ok
    ensures |content| <= length && content <= old(strm.input)
    ensures !strm.failed && !refused ==>
      var n := Min(length, |old(strm.input)|);
      (ok <==> n == length) && content == old(strm.input)[..n] && strm.input == old(strm.input)[n..]
  {
    content, refused := "", false;
    ghost var s := strm.input;
    var r: nat := 0;
    while r < length
      invariant !strm.failed && r <= length && r <= |s| && content == s[..r] && strm.input == s[r..]
      decreases length - r
    {
      var n, data := strm.Read(Min(length - r, RECV_BUFSIZ));
      if n <= 0 {
        return false, content, false;
      }
      assert s[..r] + data == s[..r + n] && strm.input == s[r + n..] by {
        assert s == s[..r] + (data + strm.input);
      }
      content := content + data;
      r := r + n;
      refused := *;
      if refused {
        return false, content, true;
      }
    }
    ok, refused := true, false;
  }

  /** A reading with content before it. */
  function Before(content: string, r: Reading): Reading {
    Reading(r.ok, content + r.content, r.rest)
  }

  lemma BeforeTwice(a: string, b: string, r: Reading)
    ensures Before(a, Before(b, r)) == Before(a + b, r)
  {
    assert a + (b + r.content) == a + b + r.content;
  }

  lemma BeforeNothing(r: Reading)
    ensures Before("", r) == r
  {
    assert "" + r.content == r.content;
  }

  lemma ChunkIs(line: string, s: string, n: nat, content: string)
    requires StrToUl(line) == Some(n) && 0 < n <= |s| && n != ULONG_MAX
    ensures Before(content, ReadChunks(line, s)) == Before(content + s[..n], ReadChunkEnd(s[n..]))
  {
    BeforeTwice(content, s[..n], ReadChunkEnd(s[n..]));
  }

  /** The line end of a chunk, and the line with the next size. */
  method ReadEndOfChunk(strm: Stream, lineReader: LineReader) returns (more: bool, ok: bool)
    requires !strm.failed && lineReader.Valid() && lineReader.strm == strm
    modifies strm`input, strm`failed, lineReader`used, lineReader`growing, lineReader.fixedBuffer
    ensures lineReader.Valid() && !ok && (strm.failed ==> !more)
    ensures !strm.failed && !more ==> Reading(false, "", strm.input) == ReadChunkEnd(old(strm.input))
    ensures more ==> !strm.failed && |strm.input| < old(|strm.input|)
                     && ReadChunks(lineReader.Line(), strm.input) == ReadChunkEnd(old(strm.input))
  {
    ok := false;
    var gotten := lineReader.GetLine();
    if !gotten {
      return false, false;
    }
    var line := lineReader.Get();
    if CString(line) != "\r\n" {
      return false, false;
    }
    more := lineReader.GetLine();
  }

  /** The lines after the last chunk. */
  method ReadTheTrailer(strm: Stream, lineReader: LineReader) returns (ok: bool)
    requires !strm.failed && lineReader.Valid() && lineReader.strm == strm
    modifies strm`input, strm`failed, lineReader`used, lineReader`growing, lineReader.fixedBuffer
    ensures lineReader.Valid() && (strm.failed ==> !ok)
    ensures !strm.failed ==> Reading(ok, "", strm.input) == ReadTrailer(old(strm.input))
  {
    ghost var whole := ReadTrailer(strm.input);
    ghost var s := strm.input;
    ok := lineReader.GetLine();
    if !ok {
      return;
    }
    var line := lineReader.Get();
    while CString(line) != "\r\n"
      invariant !strm.failed && lineReader.Valid() && line == lineReader.Line()
      invariant s != "" && line == s[..LineLength(s)] && strm.input == s[LineLength(s)..]
      invariant ReadTrailer(s) == whole
      decreases |s|
    {
      if |line| > HEADER_MAX_LENGTH {
        return false;
      }
      s := strm.input;
      ok := lineReader.GetLine();
      if !ok {
        return;
      }
      line := lineReader.Get();
    }
    ok := true;
  }

  /** What has been passed on of a chunk is a beginning of the whole content. */
  lemma PartOfChunk(line: string, s: string, n: nat, content: string, piece: string)
    requires StrToUl(line) == Some(n) && n != 0 && n != ULONG_MAX && piece <= s && |piece| <= n
    ensures content + piece <= Before(content, ReadChunks(line, s)).content
  {
    if n <= |s| {
      assert s[..n] + ReadChunkEnd(s[n..]).content == ReadChunks(line, s).content;
      assert piece <= s[..n];
    }
  }

  /** One turn of the loop, from the line with a size; without `more` it is the last. */
  method ReadOneChunk(strm: Stream, lineReader: LineReader, ghost content: string, ghost whole: Reading)
    returns (more: bool, ok: bool, piece: string, refused: bool)
    requires !strm.failed && lineReader.Valid() && lineReader.strm == strm
    requires whole == Before(content, ReadChunks(lineReader.Line(), strm.input))
    modifies strm`input, strm`failed, lineReader`used, lineReader`growing, lineReader.fixedBuffer
    ensures lineReader.Valid() && (strm.failed || refused ==> !more && !ok) && content + piece <= whole.content
    ensures !strm.failed && !refused && !more ==> whole == Reading(ok, content + piece, strm.input)
    ensures more ==> !strm.failed && |strm.input| < old(|strm.input|)
                     && whole == Before(content + piece, ReadChunks(lineReader.Line(), strm.input))
  {
    more, ok, piece, refused := false, false, "", false;
    ghost var line, s := lineReader.Line(), strm.input;
    assert content + piece == content;
    var text := lineReader.Get();
    var length := StrToUl(text);
    if length.None? || length.value == ULONG_MAX {
      return;
    }
    if length.value == 0 {
      ok := ReadTheTrailer(strm, lineReader);
      return;
    }
    var n := length.value;
    ok, piece, refused := ReadContentWithLength(strm, n);
    PartOfChunk(line, s, n, content, piece);
    if !ok {
      if !strm.failed && !refused { assert piece == s && strm.input == ""; }
      return;
    }
    ChunkIs(line, s, n, content);
    ghost var t := strm.input;
    more, ok := ReadEndOfChunk(strm, lineReader);
    if more {
      BeforeTwice(content, piece, ReadChunks(lineReader.Line(), strm.input));
    }
  }

  /** `read_content_chunked`. Unless the stream fails or the receiver refuses, it does what
      the reading of the whole text says, however short the reads are; in any case no more
      is passed on than the content. */
  method ReadContentChunked(strm: Stream) returns (ok: bool, content: string, refused: bool)
    requires !strm.failed
    modifies strm`input, strm`failed
    ensures strm.failed || refused ==> !ok
    ensures content <= ReadChunked(old(strm.input)).content
    ensures !strm.failed && !refused ==> Reading(ok, content, strm.input) == ReadChunked(old(strm.input))
  {
    content, refused := "", false;
    ghost var whole := ReadChunked(strm.input);
    var lineReader := new LineReader(strm, 16);
    ok := lineReader.GetLine();
    if !ok {
      return;
    }
    ghost var line := lineReader.Line();
    BeforeNothing(ReadChunks(line, strm.input));
    while true
      invariant !strm.failed && lineReader.Valid() && lineReader.strm == strm
      invariant fresh(lineReader) && fresh(lineReader.fixedBuffer)
      invariant whole == Before(content, ReadChunks(lineReader.Line(), strm.input))
      invariant !refused
      decreases |strm.input|
    {
      var more, piece;
      more, ok, piece, refused := ReadOneChunk(strm, lineReader, content, whole);
      content := content + piece;
      if !more {
        return;
      }
    }
  }

  // Writing.

  /** What a content provider may do with its sink. */
  datatype Op = Write(data: string) | Done

  function EmittedBy(op: Op): string {
    match op
    case Write(data) => if data == "" then "" else Chunk(data)
    case Done => "0\r\n" + CRLF
  }

  /** The text that operations put on the stream. */
  function Emitted(ops: seq<Op>): string {
    if ops == [] then ""
    else Emitted(ops[..|ops| - 1]) + EmittedBy(ops[|ops| - 1])
  }

  /** Whether the provider is asked again. */
  predicate IsMoreAvailable(ops: seq<Op>) {
    ops == [] || (ops[|ops| - 1].Write? && ops[|ops| - 1].data != "")
  }

  predicate EndsEmpty(ops: seq<Op>) {
    ops != [] && ops[|ops| - 1] == Op.Write("")
  }

  /** `write_data`. */
  method WriteData(strm: Stream, data: string) returns (ok: bool)
    modifies strm`output, strm`failed
    ensures old(strm.output) <= strm.output <= old(strm.output) + data
    ensures !ok ==> strm.failed
    ensures ok ==> strm.failed == old(strm.failed) && strm.output == old(strm.output) + data
  {
    var offset: nat := 0;
    ghost var before := strm.output;
    while offset < |data|
      invariant offset <= |data| && strm.failed == old(strm.failed) && strm.output == before + data[..offset]
      decreases |data| - offset
    {
      var n := strm.Write(data[offset..]);
      if n < 0 {
        return false;
      }
      assert before + data[..offset] + data[offset..][..n] == before + data[..offset + n];
      offset := offset + n;
    }
    ok := true;
  }

  /** The sink of `write_content_chunked`, without a compressor. */
  class Sink {
    const strm: Stream
    var offset: nat
    var dataAvailable: bool
    var ok: bool

    constructor (strm: Stream)
      ensures this.strm == strm && offset == 0 && dataAvailable && ok
    {
      this.strm, offset, dataAvailable, ok := strm, 0, true, true;
    }

    method Write(data: string)
      requires ok ==> !strm.failed
      modifies this`offset, this`dataAvailable, this`ok, strm`output, strm`failed
      ensures ok ==> old(ok) && !strm.failed && strm.output == old(strm.output) + EmittedBy(Op.Write(data))
      ensures old(ok) ==> dataAvailable == (data != "") && offset == old(offset) + |data|
      ensures old(ok) ==> old(strm.output) <= strm.output <= old(strm.output) + EmittedBy(Op.Write(data))
      ensures !old(ok) ==> unchanged(this) && unchanged(strm)
    {
      if ok {
        dataAvailable := |data| > 0;
        offset := offset + |data|;
        if data != "" {
          var size := FromIToHex(|data|);
          var chunk := size + "\r\n" + data + "\r\n";
          var writable := strm.IsWritable();
          if !writable {
            ok := false;
          } else {
            ok := WriteData(strm, chunk);
          }
        } else {
          assert strm.output + "" == strm.output;
        }
      }
    }

    method Finish()
      requires ok ==> !strm.failed
      modifies this`dataAvailable, this`ok, strm`output, strm`failed
      ensures ok ==> old(ok) && !strm.failed && !dataAvailable
      ensures ok ==> strm.output == old(strm.output) + EmittedBy(Done)
    {
      if !ok {
        return;
      }
      dataAvailable := false;
      ghost var before := strm.output;
      var marked := WriteData(strm, "0\r\n");
      if !marked {
        ok := false;
      }
      var ended := WriteData(strm, "\r\n");
      if !ended {
        ok := false;
      }
      assert before + "0\r\n" + CRLF == before + ("0\r\n" + CRLF);
    }
  }

  datatype Error = Success | WriteError | Canceled

  /** The operations of the first `k` calls of the provider. */
  function Operations(turns: seq<seq<Op>>, k: nat): seq<Op>
    requires k <= |turns|
  {
    if k == 0 then [] else Operations(turns, k - 1) + turns[k - 1]
  }

  /** After each of the first `calls` calls but the last the provider is asked again. */
  predicate IsAsked(turns: seq<seq<Op>>, calls: nat)
    requires calls <= |turns|
  {
    forall k :: 0 <= k < calls ==> IsMoreAvailable(Operations(turns, k))
  }

  lemma EmittedMore(ops: seq<Op>, op: Op)
    ensures Emitted(ops + [op]) == Emitted(ops) + EmittedBy(op)
  {
    assert (ops + [op])[..|ops|] == ops;
  }

  /** One operation of the provider. */
  method Perform(sink: Sink, op: Op, ghost ops: seq<Op>, ghost start: string)
    requires sink.ok ==> !sink.strm.failed && sink.strm.output == start + Emitted(ops)
    modifies sink`offset, sink`dataAvailable, sink`ok, sink.strm`output, sink.strm`failed
    ensures sink.ok ==> old(sink.ok) && !sink.strm.failed && sink.strm.output == start + Emitted(ops + [op])
    ensures sink.ok ==> sink.dataAvailable == IsMoreAvailable(ops + [op])
  {
    EmittedMore(ops, op);
    Regroup(start, Emitted(ops), EmittedBy(op));
    match op {
      case Write(data) => sink.Write(data);
      case Done => sink.Finish();
    }
  }

  lemma OneMoreOp(before: seq<Op>, turn: seq<Op>, i: nat)
    requires i < |turn|
    ensures before + turn[..i] + [turn[i]] == before + turn[..i + 1]
  {
  }

  /** One call of the provider. */
  method Provide(sink: Sink, turn: seq<Op>, ghost before: seq<Op>, ghost start: string)
    requires sink.ok && !sink.strm.failed && sink.strm.output == start + Emitted(before)
    requires sink.dataAvailable == IsMoreAvailable(before)
    modifies sink`offset, sink`dataAvailable, sink`ok, sink.strm`output, sink.strm`failed
    ensures sink.ok ==> !sink.strm.failed && sink.strm.output == start + Emitted(before + turn)
    ensures sink.ok ==> sink.dataAvailable == IsMoreAvailable(before + turn)
  {
    ghost var ops := before;
    assert before + turn[..0] == before;
    for i := 0 to |turn|
      invariant ops == before + turn[..i]
      invariant sink.ok ==> !sink.strm.failed && sink.strm.output == start + Emitted(ops)
      invariant sink.ok ==> sink.dataAvailable == IsMoreAvailable(ops)
    {
      OneMoreOp(before, turn, i);
      Perform(sink, turn[i], ops, start);
      ops := ops + [turn[i]];
    }
    assert turn[..|turn|] == turn;
  }

  /** `write_content_chunked` with a provider that makes the given calls in turn and then
      fails; the server may be shut down at any time. */
  method WriteContentChunked(strm: Stream, turns: seq<seq<Op>>)
    returns (ok: bool, error: Error, calls: nat, shutDown: bool)
    requires !strm.failed
    modifies strm`output, strm`failed
    ensures calls <= |turns| && (ok <==> error == Success)
    ensures ok ==> strm.output == old(strm.output) + Emitted(Operations(turns, calls))
    ensures IsAsked(turns, calls)
    ensures ok && !shutDown ==> !IsMoreAvailable(Operations(turns, calls))
  {
    var sink := new Sink(strm);
    calls, shutDown := 0, false;
    ghost var start := strm.output;
    assert start + "" == start;
    while sink.dataAvailable
      invariant calls <= |turns| && sink.ok && !strm.failed && sink.strm == strm && fresh(sink)
      invariant strm.output == start + Emitted(Operations(turns, calls))
      invariant sink.dataAvailable == IsMoreAvailable(Operations(turns, calls)) && IsAsked(turns, calls)
      decreases |turns| - calls
    {
      shutDown := *;
      if shutDown {
        break;
      }
      var writable := strm.IsWritable();
      if !writable {
        return false, WriteError, calls, shutDown;
      }
      if calls == |turns| {
        return false, Canceled, calls, shutDown;
      }
      Provide(sink, turns[calls], Operations(turns, calls), start);
      calls := calls + 1;
      if !sink.ok {
        return false, WriteError, calls, shutDown;
      }
    }
    ok, error := true, Success;
  }

  // Writing and reading back.

  function Writes(pieces: seq<string>): seq<Op> {
    if pieces == [] then [] else Writes(pieces[..|pieces| - 1]) + [Op.Write(pieces[|pieces| - 1])]
  }

  lemma {:induction false} WritesAre(pieces: seq<string>)
    ensures |Writes(pieces)| == |pieces| && forall i :: 0 <= i < |pieces| ==> Writes(pieces)[i] == Op.Write(pieces[i])
    decreases |pieces|
  {
    if pieces != [] { WritesAre(pieces[..|pieces| - 1]); }
  }

  function Chunks(pieces: seq<string>): string {
    if pieces == [] then "" else Chunk(pieces[0]) + Chunks(pieces[1..])
  }

  lemma {:induction false} EncodedMore(pieces: seq<string>, tail: seq<string>)
    ensures Encoded(pieces + tail) == Chunks(pieces) + Encoded(tail)
    decreases |pieces|
  {
    if pieces == [] {
      assert pieces + tail == tail;
      assert "" + Encoded(tail) == Encoded(tail);
    } else {
      assert (pieces + tail)[1..] == pieces[1..] + tail;
      EncodedMore(pieces[1..], tail);
      Regroup(Chunk(pieces[0]), Chunks(pieces[1..]), Encoded(tail));
    }
  }

  lemma {:induction false} ChunksMore(pieces: seq<string>, last: string)
    ensures Chunks(pieces + [last]) == Chunks(pieces) + Chunk(last)
    decreases |pieces|
  {
    if pieces == [] {
      assert pieces + [last] == [last];
    } else {
      assert (pieces + [last])[1..] == pieces[1..] + [last];
      ChunksMore(pieces[1..], last);
      Regroup(Chunk(pieces[0]), Chunks(pieces[1..]), Chunk(last));
    }
  }

  predicate NoneEmpty(pieces: seq<string>) {
    forall i :: 0 <= i < |pieces| ==> pieces[i] != ""
  }

  /** The pieces that are not empty. */
  function Solid(pieces: seq<string>): (r: seq<string>)
    ensures NoneEmpty(r)
  {
    if pieces == [] then []
    else
      var init, last := Solid(pieces[..|pieces| - 1]), pieces[|pieces| - 1];
      if last == "" then init else init + [last]
  }

  lemma {:induction false} WritesEmit(pieces: seq<string>)
    ensures Emitted(Writes(pieces)) == Chunks(Solid(pieces))
    decreases |pieces|
  {
    if pieces == [] {
      assert Emitted(Writes(pieces)) == Chunks(pieces) == "";
    } else {
      var n := |pieces| - 1;
      var init, last := pieces[..n], pieces[n];
      WritesEmit(init);
      EmittedMore(Writes(init), Op.Write(last));
      if last == "" {
        assert Emitted(Writes(init)) + "" == Emitted(Writes(init));
      } else {
        ChunksMore(Solid(init), last);
      }
    }
  }

  lemma {:induction false} SolidJoins(pieces: seq<string>)
    ensures Join(Solid(pieces)) == Join(pieces)
    decreases |pieces|
  {
    if pieces != [] {
      var n := |pieces| - 1;
      var init, last := pieces[..n], pieces[n];
      assert pieces == init + [last];
      SolidJoins(init);
      JoinAppend(init, last);
      if last == "" {
        assert Join(init) + "" == Join(init);
      } else {
        JoinAppend(Solid(init), last);
      }
    }
  }

  lemma {:induction false} SolidFits(pieces: seq<string>, max: nat)
    requires forall i :: 0 <= i < |pieces| ==> |pieces[i]| < max
    ensures forall i :: 0 <= i < |Solid(pieces)| ==> 0 < |Solid(pieces)[i]| < max
  {
    if pieces != [] { SolidFits(pieces[..|pieces| - 1], max); }
  }

  /** Writing pieces and being done puts exactly the chunks of those on the stream that are
      not empty. */
  lemma DoneWritesEmit(pieces: seq<string>)
    ensures Emitted(Writes(pieces) + [Done]) == Encoded(Solid(pieces))
  {
    WritesEmit(pieces);
    EmittedMore(Writes(pieces), Done);
    EncodedMore(Solid(pieces), []);
    assert Solid(pieces) + [] == Solid(pieces);
  }

  lemma {:induction false} OperationsArePrefix(turns: seq<seq<Op>>, k: nat, n: nat)
    requires k <= n <= |turns|
    ensures Operations(turns, k) <= Operations(turns, n)
    decreases n
  {
    if k < n { OperationsArePrefix(turns, k, n - 1); }
  }

  lemma {:induction false} EmittedGrows(ops: seq<Op>, more: seq<Op>)
    ensures |Emitted(ops)| <= |Emitted(ops + more)|
    decreases |more|
  {
    if more == [] {
      assert ops + more == ops;
    } else {
      var n := |more| - 1;
      assert ops + more == ops + more[..n] + [more[n]];
      EmittedGrows(ops, more[..n]);
      EmittedMore(ops + more[..n], more[n]);
    }
  }

  /** Less than everything up to `done` never emits the same. */
  lemma EmittedIsShort(part: seq<Op>, ops: seq<Op>)
    requires part <= ops
    ensures |Emitted(part)| < |Emitted(ops + [Done])|
  {
    assert ops == part + ops[|part|..];
    EmittedGrows(part, ops[|part|..]);
    EmittedMore(ops, Done);
  }

  /** The loop has ended where nothing more was announced for the first time. */
  predicate IsFirstStop(turns: seq<seq<Op>>, calls: nat)
    requires calls <= |turns|
  {
    IsAsked(turns, calls) && !IsMoreAvailable(Operations(turns, calls))
  }

  /** Some call of the provider up to `done` ends in an empty write. */
  predicate StopsEarly(turns: seq<seq<Op>>) {
    exists k :: 0 <= k <= |turns| && EndsEmpty(Operations(turns, k))
  }

  /** Where the loop ends, the last operation was `done`, and with it all have been made, or
      an empty write. */
  lemma EndOfLoop(turns: seq<seq<Op>>, calls: nat, ops: seq<Op>)
    requires calls <= |turns| && Operations(turns, |turns|) == ops + [Done] && Done !in ops
    requires !IsMoreAvailable(Operations(turns, calls))
    ensures var made := Operations(turns, calls);
      made == ops + [Done] || (made <= ops && EndsEmpty(made))
  {
    OperationsArePrefix(turns, calls, |turns|);
    var made := Operations(turns, calls);
    var last := |made| - 1;
    assert made[last] == (ops + [Done])[last];
    if last < |ops| {
      assert made[last] in ops;
      assert made <= ops;
    }
  }

  lemma AllWasMade(turns: seq<seq<Op>>, calls: nat, ops: seq<Op>, k: nat)
    requires calls <= |turns| && Operations(turns, |turns|) == ops + [Done] && Operations(turns, calls) == ops + [Done]
    requires IsAsked(turns, calls) && k <= |turns|
    ensures !EndsEmpty(Operations(turns, k))
  {
    if k < calls {
      assert IsMoreAvailable(Operations(turns, k));
    } else {
      OperationsArePrefix(turns, calls, k);
      OperationsArePrefix(turns, k, |turns|);
    }
  }

  /** A provider may spread its operations over its calls in any way, with `done` last: the
      loop makes all of them if and only if no call ends in an empty write. Otherwise it
      ends before `done`, without the last chunk. */
  lemma LoopEndsWhenDone(turns: seq<seq<Op>>, calls: nat, ops: seq<Op>)
    requires Operations(turns, |turns|) == ops + [Done] && Done !in ops
    requires calls <= |turns| && IsFirstStop(turns, calls)
    ensures Operations(turns, calls) == ops + [Done] <==> !StopsEarly(turns)
    ensures StopsEarly(turns) ==> Operations(turns, calls) <= ops
    ensures Emitted(Operations(turns, calls)) == Emitted(ops + [Done]) <==> !StopsEarly(turns)
  {
    var made := Operations(turns, calls);
    EndOfLoop(turns, calls, ops);
    if made == ops + [Done] {
      forall k | 0 <= k <= |turns| ensures !EndsEmpty(Operations(turns, k)) {
        AllWasMade(turns, calls, ops, k);
      }
    } else {
      EmittedIsShort(made, ops);
    }
  }

  lemma WritesAreNotDone(pieces: seq<string>)
    ensures Done !in Writes(pieces)
  {
    WritesAre(pieces);
  }

  /** Writing and reading over a stream: when neither side fails and nobody shuts down, the
      whole body is sent if and only if no call of the provider ends in an empty write, and
      then all pieces arrive, joined, and the text that follows is left alone. `broken` when
      reading fails or the receiver refuses: then a beginning of it has arrived. */
  method Transfer(strm: Stream, turns: seq<seq<Op>>, pieces: seq<string>, more: string)
    returns (sent: bool, received: bool, broken: bool, content: string, rest: string)
    requires !strm.failed && strm.output == ""
    requires Operations(turns, |turns|) == Writes(pieces) + [Done]
    requires forall i :: 0 <= i < |pieces| ==> |pieces[i]| < ULONG_MAX
    modifies strm`output, strm`failed
    ensures sent ==> (strm.output == Encoded(Solid(pieces)) <==> !StopsEarly(turns))
    ensures sent && !StopsEarly(turns) && !broken ==> received && content == Join(pieces) && rest == more
    ensures sent && !StopsEarly(turns) ==> content <= Join(pieces)
    ensures broken ==> !received
  {
    received, broken, content, rest := false, false, "", "";
    var ok, error, calls, shutDown := WriteContentChunked(strm, turns);
    sent := ok && !shutDown;
    if sent {
      assert strm.output == Emitted(Operations(turns, calls));
      WritesAreNotDone(pieces);
      LoopEndsWhenDone(turns, calls, Writes(pieces));
      DoneWritesEmit(pieces);
      SolidFits(pieces, ULONG_MAX);
      SolidJoins(pieces);
      ChunkedRoundTrip(Solid(pieces), more);
      var peer := new Stream(strm.output + more);
      var refused;
      received, content, refused := ReadContentChunked(peer);
      broken, rest := peer.failed || refused, peer.input;
    }
  }
}
