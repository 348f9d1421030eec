/** Hexadecimal digits, as jsoncpp and httplib write and read them. */
module Hex {
  import opened Wrappers

  /** The digit of a number, in lower case. */
  function HexDigit(n: nat): (c: char)
    requires n < 16
    ensures '0' <= c <= '9' || 'a' <= c <= 'f'
  {
    if n < 10 then (n + 0x30) as char else (n + 0x57) as char
  }

  /** The value of a digit of either case. */
  function HexValue(c: char): (v: Option<nat>)
    ensures v.Some? ==> v.value < 16
  {
    if '0' <= c <= '9' then Some(c as int - 0x30)
    else if 'a' <= c <= 'f' then Some(c as int - 0x57)
    else if 'A' <= c <= 'F' then Some(c as int - 0x37)
    else None
  }

  lemma HexDigitValue(n: nat)
    requires n < 16
    ensures HexValue(HexDigit(n)) == Some(n)
  {
  }

  // The digits, written out.

  /** A hexadecimal digit of either case. */
  predicate IsDigitOf(c: char, v: nat) {
    v < 16 && (c == "0123456789abcdef"[v] || c == "0123456789ABCDEF"[v])
  }

  /** The writer's digits are those in lower case; the reader takes both cases and nothing
      else. */
  lemma DigitsAre(c: char, v: nat)
    ensures v < 16 ==> HexDigit(v) == "0123456789abcdef"[v]
    ensures HexValue(c) == Some(v) <==> IsDigitOf(c, v)
  {
  }

  /** The text spells the digits, each in either case. */
  predicate Spells(text: string, digits: seq<nat>) {
    |text| == |digits| && forall i :: 0 <= i < |text| ==> IsDigitOf(text[i], digits[i])
  }

  /** The number with these digits in base 16. */
  function Numeral(digits: seq<nat>): nat {
    if digits == [] then 0 else Numeral(digits[..|digits| - 1]) * 16 + digits[|digits| - 1]
  }

  predicate IsHex(s: string) {
    forall i :: 0 <= i < |s| ==> HexValue(s[i]).Some?
  }

  lemma DigitsOf(text: string) returns (digits: seq<nat>)
    requires IsHex(text)
    ensures Spells(text, digits)
  {
    digits := seq(|text|, i requires 0 <= i < |text| => HexValue(text[i]).value);
    forall i | 0 <= i < |text| ensures IsDigitOf(text[i], digits[i]) {
      DigitsAre(text[i], digits[i]);
    }
  }

  lemma SpelledIsHex(text: string, digits: seq<nat>)
    requires Spells(text, digits)
    ensures IsHex(text) && forall i :: 0 <= i < |text| ==> HexValue(text[i]) == Some(digits[i])
  {
    forall i | 0 <= i < |text| ensures HexValue(text[i]) == Some(digits[i]) {
      DigitsAre(text[i], digits[i]);
    }
  }
}
