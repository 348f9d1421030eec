/** The UTF-8 grammar of RFC 3629, section 4. A byte string is a `string` whose
    characters all have a code below 256. */
module Utf8 {

  predicate IsBytes(s: string) {
    forall i :: 0 <= i < |s| ==> s[i] as int < 256
  }

  /** A Unicode scalar value: any code point that is not a surrogate. */
  predicate IsScalar(cp: int) {
    0 <= cp < 0xD800 || 0xE000 <= cp <= 0x10FFFF
  }

  predicate InRange(c: char, low: int, high: int) {
    low <= c as int <= high
  }

  predicate IsTail(c: char) {
    InRange(c, 0x80, 0xBF)
  }

  predicate StartsThree(a: char, b: char) {
    || (InRange(a, 0xE0, 0xE0) && InRange(b, 0xA0, 0xBF))
    || (InRange(a, 0xE1, 0xEC) && IsTail(b))
    || (InRange(a, 0xED, 0xED) && InRange(b, 0x80, 0x9F))
    || (InRange(a, 0xEE, 0xEF) && IsTail(b))
  }

  predicate StartsFour(a: char, b: char) {
    || (InRange(a, 0xF0, 0xF0) && InRange(b, 0x90, 0xBF))
    || (InRange(a, 0xF1, 0xF3) && IsTail(b))
    || (InRange(a, 0xF4, 0xF4) && InRange(b, 0x80, 0x8F))
  }

  /** The productions UTF8-1 to UTF8-4: the length of the well-formed sequence that
      starts the string, or 0 when none does. */
  function HeadLength(s: string): (n: nat)
    ensures n <= 4 && n <= |s|
  {
    if |s| >= 1 && InRange(s[0], 0x00, 0x7F) then 1
    else if |s| >= 2 && InRange(s[0], 0xC2, 0xDF) && IsTail(s[1]) then 2
    else if |s| >= 3 && StartsThree(s[0], s[1]) && IsTail(s[2]) then 3
    else if |s| >= 4 && StartsFour(s[0], s[1]) && IsTail(s[2]) && IsTail(s[3]) then 4
    else 0
  }

  /** UTF8-octets: a concatenation of well-formed sequences. */
  predicate WellFormed(s: string) {
    s == "" || (HeadLength(s) > 0 && WellFormed(s[HeadLength(s)..]))
  }

  /** The six payload bits of a tail byte. */
  function Tail6(c: char): (n: int)
    requires IsTail(c)
    ensures 0 <= n < 64
  {
    c as int - 0x80
  }

  /** The code point encoded by the sequence at the start of the string. */
  function HeadCodePoint(s: string): (cp: int)
    requires HeadLength(s) > 0
    ensures IsScalar(cp)
  {
    match HeadLength(s)
    case 1 => s[0] as int
    case 2 => (s[0] as int - 0xC0) * 64 + Tail6(s[1])
    case 3 => (s[0] as int - 0xE0) * 4096 + Tail6(s[1]) * 64 + Tail6(s[2])
    case _ => (s[0] as int - 0xF0) * 262144 + Tail6(s[1]) * 4096 + Tail6(s[2]) * 64 + Tail6(s[3])
  }

  /** The code points of a well-formed string, in order. */
  function Decode(s: string): (cps: seq<int>)
    requires WellFormed(s)
  {
    if s == "" then [] else [HeadCodePoint(s)] + Decode(s[HeadLength(s)..])
  }

  /** The encoding of one code point, for every number up to 0x10FFFF: six bits at a
      time, `cp / 64` being a shift by six. */
  function Encode(cp: int): (s: string)
    requires 0 <= cp <= 0x10FFFF
    ensures IsBytes(s) && 1 <= |s| <= 4
  {
    var a := cp / 64;
    var b := a / 64;
    if cp <= 0x7F then [cp as char]
    else if cp <= 0x7FF then [(0xC0 + a) as char, (0x80 + cp % 64) as char]
    else if cp <= 0xFFFF then [(0xE0 + b) as char, (0x80 + a % 64) as char, (0x80 + cp % 64) as char]
    else [(0xF0 + b / 64) as char, (0x80 + b % 64) as char, (0x80 + a % 64) as char, (0x80 + cp % 64) as char]
  }

  predicate AllScalar(cps: seq<int>) {
    forall i :: 0 <= i < |cps| ==> IsScalar(cps[i])
  }

  function EncodeAll(cps: seq<int>): string
    requires AllScalar(cps)
  {
    if cps == [] then ""
    else
      assert IsScalar(cps[0]);
      Encode(cps[0]) + EncodeAll(cps[1..])
  }

  /** Encoding a scalar value gives one well-formed sequence, whatever follows it. */
  lemma EncodeIsHead(cp: int, rest: string)
    requires IsScalar(cp)
    ensures HeadLength(Encode(cp) + rest) == |Encode(cp)|
    ensures HeadCodePoint(Encode(cp) + rest) == cp
    ensures (Encode(cp) + rest)[|Encode(cp)|..] == rest
  {
    var e := Encode(cp);
    var s := e + rest;
    var a := cp / 64;
    var b := a / 64;
    assert s[0] == e[0];
    if cp <= 0x7F {
    } else if cp <= 0x7FF {
      assert s[1] == e[1];
    } else if cp <= 0xFFFF {
      assert s[1] == e[1] && s[2] == e[2];
      assert cp == b * 4096 + a % 64 * 64 + cp % 64;
    } else {
      assert s[1] == e[1] && s[2] == e[2] && s[3] == e[3];
      assert cp == b / 64 * 262144 + b % 64 * 4096 + a % 64 * 64 + cp % 64;
    }
  }

  lemma EncodeOfTwo(a: int, b: int)
    requires 2 <= a < 32 && 0 <= b < 64
    ensures Encode(a * 64 + b) == [(0xC0 + a) as char, (0x80 + b) as char]
  {
  }

  lemma EncodeOfThree(a: int, b: int, c: int)
    requires 0 <= a < 16 && 0 <= b < 64 && 0 <= c < 64 && 0x800 <= a * 4096 + b * 64 + c
    ensures Encode(a * 4096 + b * 64 + c) == [(0xE0 + a) as char, (0x80 + b) as char, (0x80 + c) as char]
  {
    assert (a * 4096 + b * 64 + c) / 64 == a * 64 + b;
  }

  lemma EncodeOfFour(a: int, b: int, c: int, d: int)
    requires 0 <= a < 8 && 0 <= b < 64 && 0 <= c < 64 && 0 <= d < 64
    requires 0x10000 <= a * 262144 + b * 4096 + c * 64 + d <= 0x10FFFF
    ensures Encode(a * 262144 + b * 4096 + c * 64 + d)
         == [(0xF0 + a) as char, (0x80 + b) as char, (0x80 + c) as char, (0x80 + d) as char]
  {
    assert (a * 262144 + b * 4096 + c * 64 + d) / 64 == a * 4096 + b * 64 + c;
    assert (a * 4096 + b * 64 + c) / 64 == a * 64 + b;
  }

  lemma ThreeIsEncode(s: string)
    requires HeadLength(s) == 3
    ensures Encode(HeadCodePoint(s)) == s[..3]
  {
    EncodeOfThree(s[0] as int - 0xE0, Tail6(s[1]), Tail6(s[2]));
  }

  lemma FourIsEncode(s: string)
    requires HeadLength(s) == 4
    ensures Encode(HeadCodePoint(s)) == s[..4]
  {
    EncodeOfFour(s[0] as int - 0xF0, Tail6(s[1]), Tail6(s[2]), Tail6(s[3]));
  }

  /** A well-formed sequence is the encoding of its own code point. */
  lemma HeadIsEncode(s: string)
    requires HeadLength(s) > 0
    ensures Encode(HeadCodePoint(s)) == s[..HeadLength(s)]
  {
    match HeadLength(s)
    case 1 =>
    case 2 => EncodeOfTwo(s[0] as int - 0xC0, Tail6(s[1]));
    case 3 => ThreeIsEncode(s);
    case _ => FourIsEncode(s);
  }

  lemma EncodeAllStep(cp: int, cps: seq<int>, s: string, n: nat)
    requires IsScalar(cp) && AllScalar(cps) && n <= |s|
    requires Encode(cp) == s[..n] && EncodeAll(cps) == s[n..]
    ensures AllScalar([cp] + cps) && EncodeAll([cp] + cps) == s
  {
    assert ([cp] + cps)[1..] == cps;
  }

  /** Well-formed strings are exactly the encodings of sequences of scalar values. */
  lemma {:induction false} DecodeEncode(s: string)
    requires WellFormed(s)
    ensures AllScalar(Decode(s)) && EncodeAll(Decode(s)) == s
  {
    if s != "" {
      var n := HeadLength(s);
      DecodeEncode(s[n..]);
      HeadIsEncode(s);
      EncodeAllStep(HeadCodePoint(s), Decode(s[n..]), s, n);
    }
  }

  lemma {:induction false} EncodeDecode(cps: seq<int>)
    requires AllScalar(cps)
    ensures WellFormed(EncodeAll(cps)) && Decode(EncodeAll(cps)) == cps
  {
    if cps != [] {
      EncodeIsHead(cps[0], EncodeAll(cps[1..]));
      EncodeDecode(cps[1..]);
    }
  }
}
