/** The streaming validator of include/websocketpp/utf8_validator.hpp: a table-driven
    state machine, proved to accept exactly the UTF-8 grammar. */
module Utf8Validator {
  import opened Utf8
  import opened Sequences

  const ACCEPT := 0
  const REJECT := 1

  function ByteClass(b: nat): (class_: nat)
    requires b < 256
    ensures class_ < 12
  {
    if b <= 0x7F then 0
    else if b <= 0x8F then 1
    else if b <= 0x9F then 9
    else if b <= 0xBF then 7
    else if b <= 0xC1 then 8
    else if b <= 0xDF then 2
    else if b == 0xE0 then 0xA
    else if b == 0xED then 4
    else if b <= 0xEF then 3
    else if b == 0xF0 then 0xB
    else if b <= 0xF3 then 6
    else if b == 0xF4 then 5
    else 8
  }

  function Transition(state: nat, class_: nat): (next: nat)
    requires state < 9 && class_ < 16
    ensures next < 9
  {
    match state
    case 0 => [0, 1, 2, 3, 5, 8, 7, 1, 1, 1, 4, 6, 1, 1, 1, 1][class_]
    case 2 => if class_ in {1, 7, 9} then 0 else 1
    case 3 => if class_ in {1, 7, 9} then 2 else 1
    case 4 => if class_ == 7 then 2 else 1
    case 5 => if class_ in {1, 9} then 2 else 1
    case 6 => if class_ in {7, 9} then 3 else 1
    case 7 => if class_ in {1, 7, 9} then 3 else 1
    case 8 => if class_ == 1 then 3 else 1
    case _ => 1
  }

  /** The lookup table `utf8d`: 256 byte classes, then 9 states of 16 transitions. */
  function Table(i: int): (entry: nat)
    requires 0 <= i < 400
    ensures entry < 12 && (i >= 256 ==> entry < 9)
  {
    if i < 256 then ByteClass(i) else Transition((i - 256) / 16, (i - 256) % 16)
  }

  /** `0xff >> type`, then the mask it makes. */
  function LeadBits(class_: nat, b: nat): (bits: nat)
    requires class_ < 12 && b < 256
  {
    b % [256, 128, 64, 32, 16, 8, 4, 2, 1, 1, 1, 1][class_]
  }

  /** The state and code point that one byte leads to. */
  function NextState(state: nat, c: char): (next: nat)
    requires state < 9 && c as int < 256
    ensures next < 9
  {
    Table(256 + state * 16 + Table(c as int))
  }

  function NextCodePoint(state: nat, codep: nat, c: char): (next: nat)
    requires state < 9 && c as int < 256
  {
    if state != ACCEPT then (codep * 64) % 0x1_0000_0000 + c as int % 64
    else LeadBits(Table(c as int), c as int)
  }

  function Run(state: nat, s: string): (end: nat)
    requires state < 9 && IsBytes(s)
    ensures end < 9
    decreases |s|
  {
    if s == "" then state else Run(NextState(state, s[0]), s[1..])
  }

  function RunCodePoint(state: nat, codep: nat, s: string): nat
    requires state < 9 && IsBytes(s)
    decreases |s|
  {
    if s == "" then codep
    else RunCodePoint(NextState(state, s[0]), NextCodePoint(state, codep, s[0]), s[1..])
  }

  /** The code points the machine holds each time it reaches the accepting state. */
  function Emitted(state: nat, codep: nat, s: string): seq<int>
    requires state < 9 && IsBytes(s)
    decreases |s|
  {
    if s == "" then []
    else
      var next := NextState(state, s[0]);
      var cp := NextCodePoint(state, codep, s[0]);
      (if next == ACCEPT then [cp] else []) + Emitted(next, cp, s[1..])
  }

  /** What each state still expects before it accepts. */
  predicate Expects(state: nat, s: string)
    decreases |s|
  {
    match state
    case 0 => WellFormed(s)
    case 2 => |s| >= 1 && IsTail(s[0]) && WellFormed(s[1..])
    case 3 => |s| >= 1 && IsTail(s[0]) && Expects(2, s[1..])
    case 4 => |s| >= 1 && InRange(s[0], 0xA0, 0xBF) && Expects(2, s[1..])
    case 5 => |s| >= 1 && InRange(s[0], 0x80, 0x9F) && Expects(2, s[1..])
    case 6 => |s| >= 1 && InRange(s[0], 0x90, 0xBF) && Expects(3, s[1..])
    case 7 => |s| >= 1 && IsTail(s[0]) && Expects(3, s[1..])
    case 8 => |s| >= 1 && InRange(s[0], 0x80, 0x8F) && Expects(3, s[1..])
    case _ => false
  }

  lemma ExpectsTwoTails(s: string)
    ensures Expects(3, s) <==> |s| >= 2 && IsTail(s[0]) && IsTail(s[1]) && WellFormed(s[2..])
  {
    if |s| >= 2 { assert s[1..][1..] == s[2..]; }
  }

  lemma LeadAgrees(s: string)
    requires IsBytes(s) && s != ""
    ensures WellFormed(s) <==> Expects(NextState(0, s[0]), s[1..])
  {
    if |s| >= 2 {
      assert s[1..][1..] == s[2..];
      if |s| >= 3 { assert s[2..][1..] == s[3..]; }
      if |s| >= 4 { assert s[2..][2..] == s[4..]; }
      ExpectsTwoTails(s[2..]);
    }
  }

  /** One byte keeps what is expected: the table against the grammar. */
  lemma StepAgrees(state: nat, s: string)
    requires state < 9 && IsBytes(s) && s != ""
    ensures Expects(state, s) <==> Expects(NextState(state, s[0]), s[1..])
  {
    if state == 0 { LeadAgrees(s); }
  }

  /** The machine accepts a byte string iff the grammar does. */
  lemma {:induction false} AcceptsIffWellFormed(state: nat, s: string)
    requires state < 9 && IsBytes(s)
    ensures Run(state, s) == ACCEPT <==> Expects(state, s)
    decreases |s|
  {
    if s != "" {
      StepAgrees(state, s);
      AcceptsIffWellFormed(NextState(state, s[0]), s[1..]);
    }
  }

  /** Feeding a string in two pieces is feeding it whole. */
  lemma {:induction false} RunConcat(state: nat, codep: nat, a: string, b: string)
    requires state < 9 && IsBytes(a) && IsBytes(b)
    ensures IsBytes(a + b) && Run(state, a + b) == Run(Run(state, a), b)
    ensures RunCodePoint(state, codep, a + b) == RunCodePoint(Run(state, a), RunCodePoint(state, codep, a), b)
    decreases |a|
  {
    if a == "" {
      assert a + b == b;
    } else {
      assert (a + b)[1..] == a[1..] + b;
      RunConcat(NextState(state, a[0]), NextCodePoint(state, codep, a[0]), a[1..], b);
    }
  }

  /** Rejection is final. */
  lemma {:induction false} RejectIsFinal(s: string)
    requires IsBytes(s)
    ensures Run(REJECT, s) == REJECT
  {
    if s != "" {
      assert NextState(REJECT, s[0]) == REJECT;
      RejectIsFinal(s[1..]);
    }
  }

  /** How far the partial code point of each state can have grown. */
  predicate Partial(state: nat, codep: nat) {
    match state
    case 2 => codep < 0x8000
    case 3 => codep < 0x200
    case 4 => codep < 0x200
    case 5 => codep < 0x200
    case 6 => codep < 8
    case 7 => codep < 8
    case 8 => codep < 8
    case _ => false
  }

  /** The code point that the expected bytes complete. */
  function Completed(state: nat, codep: nat, s: string): int
    requires Expects(state, s) && state in {2, 3, 4, 5, 6, 7, 8}
    decreases |s|
  {
    var cp := codep * 64 + Tail6(s[0]);
    if state == 2 then cp
    else if state in {3, 4, 5} then Completed(2, cp, s[1..])
    else Completed(3, cp, s[1..])
  }

  /** The bytes left once the pending sequence is complete. */
  function Remainder(state: nat, s: string): (rest: string)
    requires Expects(state, s) && state in {2, 3, 4, 5, 6, 7, 8}
    requires IsBytes(s)
    ensures WellFormed(rest) && IsBytes(rest) && |rest| < |s|
    decreases |s|
  {
    if state == 2 then s[1..]
    else if state in {3, 4, 5} then Remainder(2, s[1..])
    else Remainder(3, s[1..])
  }

  lemma TailState(state: nat, s: string)
    requires IsBytes(s) && state in {2, 3, 4, 5, 6, 7, 8} && Expects(state, s)
    ensures IsTail(s[0])
    ensures NextState(state, s[0]) == if state == 2 then ACCEPT else if state in {3, 4, 5} then 2 else 3
  {
    StepAgrees(state, s);
  }

  lemma TailCodePoint(state: nat, codep: nat, c: char)
    requires state in {2, 3, 4, 5, 6, 7, 8} && Partial(state, codep) && c as int < 256 && IsTail(c)
    ensures NextCodePoint(state, codep, c) == codep * 64 + Tail6(c)
  {
  }

  lemma TailStep(state: nat, codep: nat, s: string)
    requires IsBytes(s) && state in {2, 3, 4, 5, 6, 7, 8} && Partial(state, codep) && Expects(state, s)
    ensures NextCodePoint(state, codep, s[0]) == codep * 64 + Tail6(s[0])
    ensures NextState(state, s[0]) == if state == 2 then ACCEPT else if state in {3, 4, 5} then 2 else 3
  {
    TailState(state, s);
    TailCodePoint(state, codep, s[0]);
  }

  lemma LeadState(codep: nat, s: string)
    requires IsBytes(s) && HeadLength(s) > 1
    ensures var next := NextState(ACCEPT, s[0]);
      var cp := NextCodePoint(ACCEPT, codep, s[0]);
      match HeadLength(s)
      case 2 => next == 2 && cp == s[0] as int - 0xC0 < 32
      case 3 => next in {3, 4, 5} && cp == s[0] as int - 0xE0 < 16
      case _ => next in {6, 7, 8} && cp == s[0] as int - 0xF0 < 5
  {
  }

  lemma CompletesThree(state: nat, codep: nat, s: string)
    requires IsBytes(s) && state in {3, 4, 5} && Expects(state, s)
    ensures |s| >= 2 && IsTail(s[0]) && IsTail(s[1])
    ensures Completed(state, codep, s) == codep * 4096 + Tail6(s[0]) * 64 + Tail6(s[1])
    ensures Remainder(state, s) == s[2..]
  {
    assert Expects(2, s[1..]);
    assert s[1..][1..] == s[2..];
  }

  lemma CompletesFour(state: nat, codep: nat, s: string)
    requires IsBytes(s) && state in {6, 7, 8} && Expects(state, s)
    ensures |s| >= 3 && IsTail(s[0]) && IsTail(s[1]) && IsTail(s[2])
    ensures Completed(state, codep, s) == codep * 262144 + Tail6(s[0]) * 4096 + Tail6(s[1]) * 64 + Tail6(s[2])
    ensures Remainder(state, s) == s[3..]
  {
    var cp := codep * 64 + Tail6(s[0]);
    CompletesThree(3, cp, s[1..]);
    assert s[1..][2..] == s[3..];
  }

  /** A lead byte leaves exactly the rest of the first sequence pending. */
  lemma LeadCompletes(codep: nat, s: string)
    requires IsBytes(s) && s != "" && WellFormed(s) && HeadLength(s) > 1
    ensures var next := NextState(ACCEPT, s[0]);
      var cp := NextCodePoint(ACCEPT, codep, s[0]);
      && next in {2, 3, 4, 5, 6, 7, 8} && Partial(next, cp) && Expects(next, s[1..])
      && Completed(next, cp, s[1..]) == HeadCodePoint(s)
      && Remainder(next, s[1..]) == s[HeadLength(s)..]
  {
    LeadState(codep, s);
    var next := NextState(ACCEPT, s[0]);
    var cp := NextCodePoint(ACCEPT, codep, s[0]);
    assert Expects(next, s[1..]) by { LeadAgrees(s); }
    if next in {3, 4, 5} {
      CompletesThree(next, cp, s[1..]);
      assert s[1..][2..] == s[3..];
    } else if next in {6, 7, 8} {
      CompletesFour(next, cp, s[1..]);
      assert s[1..][3..] == s[4..];
    }
  }

  /** A pending sequence is finished before anything else is emitted, with the code
      point its bits spell; the 32-bit code point arithmetic never wraps. */
  lemma {:induction false} EmitsCompleted(state: nat, codep: nat, s: string)
    requires IsBytes(s) && state in {2, 3, 4, 5, 6, 7, 8} && Partial(state, codep) && Expects(state, s)
    ensures Emitted(state, codep, s) == [Completed(state, codep, s)] + Decode(Remainder(state, s))
    decreases |s|
  {
    TailStep(state, codep, s);
    var cp := codep * 64 + Tail6(s[0]);
    if state == 2 {
      EmitsDecoded(cp, s[1..]);
    } else if state in {3, 4, 5} {
      EmitsCompleted(2, cp, s[1..]);
    } else {
      EmitsCompleted(3, cp, s[1..]);
    }
  }

  /** On a well-formed string the machine holds, at its accepting states, exactly the
      code points that the string encodes. */
  lemma {:induction false} EmitsDecoded(codep: nat, s: string)
    requires IsBytes(s) && WellFormed(s)
    ensures Emitted(ACCEPT, codep, s) == Decode(s)
    decreases |s|
  {
    if s != "" {
      if HeadLength(s) == 1 {
        EmitsDecoded(NextCodePoint(ACCEPT, codep, s[0]), s[1..]);
      } else {
        LeadCompletes(codep, s);
        EmitsCompleted(NextState(ACCEPT, s[0]), NextCodePoint(ACCEPT, codep, s[0]), s[1..]);
      }
    }
  }

  /** The main result: the machine accepts exactly the UTF-8 strings, rejects for good,
      and the code points at its accepting states re-encode to the input. */
  lemma ValidatorIsUtf8(s: string)
    requires IsBytes(s)
    ensures Run(ACCEPT, s) == ACCEPT <==> WellFormed(s)
    ensures WellFormed(s) ==> AllScalar(Emitted(ACCEPT, 0, s)) && EncodeAll(Emitted(ACCEPT, 0, s)) == s
  {
    AcceptsIffWellFormed(ACCEPT, s);
    if WellFormed(s) {
      EmitsDecoded(0, s);
      DecodeEncode(s);
    }
  }

  /** The bytes that are read: up to the first one that makes the input invalid. */
  function Taken(state: nat, s: string): (t: string)
    requires state < 9 && IsBytes(s)
    ensures t <= s
    decreases |s|
  {
    if s == "" then ""
    else if NextState(state, s[0]) == REJECT then s[..1]
    else [s[0]] + Taken(NextState(state, s[0]), s[1..])
  }

  /** The code point held after that. */
  function CodePointAfter(state: nat, codep: nat, s: string): nat
    requires state < 9 && IsBytes(s)
    decreases |s|
  {
    if s == "" then codep
    else
      var next, cp := NextState(state, s[0]), NextCodePoint(state, codep, s[0]);
      if next == REJECT then cp else CodePointAfter(next, cp, s[1..])
  }

  lemma {:induction false} TakenIsRead(state: nat, codep: nat, s: string)
    requires state < 9 && IsBytes(s)
    ensures CodePointAfter(state, codep, s) == RunCodePoint(state, codep, Taken(state, s))
    ensures Run(state, s) != REJECT ==> Taken(state, s) == s
    decreases |s|
  {
    if s != "" {
      var next, cp := NextState(state, s[0]), NextCodePoint(state, codep, s[0]);
      if next == REJECT {
        RejectIsFinal(s[1..]);
        assert s[..1][1..] == "";
      } else {
        TakenIsRead(next, cp, s[1..]);
        assert Taken(state, s)[1..] == Taken(next, s[1..]);
      }
    }
  }

  class Validator {
    var state: nat
    var codepoint: nat

    predicate Valid()
      reads this
    {
      state < 9
    }

    constructor ()
      ensures Valid() && state == ACCEPT && codepoint == 0
    {
      state, codepoint := ACCEPT, 0;
    }

    /** Takes one byte; false when it makes the input invalid. */
    method Consume(c: char) returns (ok: bool)
      requires Valid() && c as int < 256
      modifies this
      ensures Valid() && state == NextState(old(state), c)
      ensures codepoint == NextCodePoint(old(state), old(codepoint), c)
      ensures ok <==> state != REJECT
    {
      var class_ := Table(c as int);
      codepoint := if state != ACCEPT then (codepoint * 64) % 0x1_0000_0000 + c as int % 64
                     else LeadBits(class_, c as int);
      state := Table(256 + state * 16 + class_);
      ok := state != REJECT;
    }

    /** Takes a chunk, stopping at the first byte that makes the input invalid. */
    method Decode(chunk: string) returns (ok: bool)
      requires Valid() && IsBytes(chunk)
      modifies this
      ensures Valid() && state == Run(old(state), chunk)
      ensures ok <==> state != REJECT || chunk == ""
      ensures state != REJECT ==> Taken(old(state), chunk) == chunk
      ensures codepoint == RunCodePoint(old(state), old(codepoint), Taken(old(state), chunk))
    {
      TakenIsRead(state, codepoint, chunk);
      var i := 0;
      while i < |chunk|
        invariant 0 <= i <= |chunk| && Valid()
        invariant i == 0 || state != REJECT
        invariant Run(state, chunk[i..]) == Run(old(state), chunk)
        invariant CodePointAfter(state, codepoint, chunk[i..]) == CodePointAfter(old(state), old(codepoint), chunk)
      {
        assert chunk[i..][1..] == chunk[i + 1..];
        var fine := Consume(chunk[i]);
        i := i + 1;
        if !fine {
          RejectIsFinal(chunk[i..]);
          return false;
        }
      }
      return true;
    }

    predicate Complete()
      reads this
    {
      state == ACCEPT
    }

    method Reset()
      modifies this
      ensures Valid() && state == ACCEPT && codepoint == 0
    {
      state, codepoint := ACCEPT, 0;
    }
  }

  /** Validates a whole string. */
  method Validate(s: string) returns (ok: bool)
    requires IsBytes(s)
    ensures ok <==> WellFormed(s)
  {
    ValidatorIsUtf8(s);
    var v := new Validator();
    var fine := v.Decode(s);
    if !fine {
      return false;
    }
    return v.Complete();
  }

  function RunChunks(state: nat, chunks: seq<string>): (end: nat)
    requires state < 9 && forall i :: 0 <= i < |chunks| ==> IsBytes(chunks[i])
    ensures end < 9
    decreases |chunks|
  {
    if chunks == [] then state else RunChunks(Run(state, chunks[0]), chunks[1..])
  }

  /** However a message is cut into chunks, it is accepted iff the whole is UTF-8. */
  lemma {:induction false} ChunksAgree(state: nat, chunks: seq<string>)
    requires state < 9 && forall i :: 0 <= i < |chunks| ==> IsBytes(chunks[i])
    ensures IsBytes(Join(chunks)) && RunChunks(state, chunks) == Run(state, Join(chunks))
    ensures state == ACCEPT ==> (RunChunks(state, chunks) == ACCEPT <==> WellFormed(Join(chunks)))
    decreases |chunks|
  {
    if chunks != [] {
      ChunksAgree(Run(state, chunks[0]), chunks[1..]);
      RunConcat(state, 0, chunks[0], Join(chunks[1..]));
    }
    if state == ACCEPT { ValidatorIsUtf8(Join(chunks)); }
  }
}
