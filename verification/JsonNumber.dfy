/** Integers in JSON: `valueToString`, `uintToString` and `Reader::decodeNumber`
    (src/jsoncpp.cpp). */
module JsonNumber {
  import opened Wrappers
  import opened JsonValue

  function DigitChar(d: nat): (c: char)
    requires d < 10
    ensures '0' <= c <= '9'
  {
    (d + 0x30) as char
  }

  predicate IsDigit(c: char) {
    '0' <= c <= '9'
  }

  function DigitValue(c: char): (d: nat)
    requires IsDigit(c)
    ensures d < 10
  {
    c as int - 0x30
  }

  /** The decimal digits, written out. */
  lemma DecimalsAre(c: char, d: nat)
    ensures d < 10 ==> DigitChar(d) == "0123456789"[d]
    ensures IsDigit(c) && DigitValue(c) == d <==> d < 10 && c == "0123456789"[d]
  {
  }

  predicate AllDigits(s: string) {
    forall i :: 0 <= i < |s| ==> IsDigit(s[i])
  }

  /** Decimal digits without leading zeros. */
  function Digits(n: nat): (s: string)
    ensures s != "" && AllDigits(s)
  {
    if n < 10 then [DigitChar(n)] else Digits(n / 10) + [DigitChar(n % 10)]
  }

  function IntText(n: int): (s: string)
    ensures s != ""
  {
    if n < 0 then "-" + Digits(-n) else Digits(n)
  }

  /** The number that digits spell. */
  function DecimalValue(s: string): nat
    requires AllDigits(s)
  {
    if s == "" then 0 else DecimalValue(s[..|s| - 1]) * 10 + DigitValue(s[|s| - 1])
  }

  lemma {:induction false} ValueOfDigits(n: nat)
    ensures DecimalValue(Digits(n)) == n
  {
    var s := Digits(n);
    if n < 10 {
      assert s[..0] == "";
    } else {
      ValueOfDigits(n / 10);
      assert s[..|s| - 1] == Digits(n / 10);
    }
  }

  /** The digit loop of `decodeNumber`; None where it falls back to a double. */
  function FoldDigits(value: nat, s: string, max: nat): Option<nat>
    decreases |s|
  {
    if s == "" then Some(value)
    else if !IsDigit(s[0]) then None
    else
      var digit := DigitValue(s[0]);
      var threshold := max / 10;
      if value >= threshold && (value > threshold || |s| > 1 || digit > max % 10) then None
      else FoldDigits(value * 10 + digit, s[1..], max)
  }

  /** The number spelled by `done` followed by `s`, given the value of `done`. */
  function Continued(value: nat, s: string): nat
    requires AllDigits(s)
    decreases |s|
  {
    if s == "" then value else Continued(value * 10 + DigitValue(s[0]), s[1..])
  }

  lemma {:induction false} ContinuedGrows(value: nat, s: string)
    requires AllDigits(s)
    ensures Continued(value, s) >= value
    decreases |s|
  {
    if s != "" { ContinuedGrows(value * 10 + DigitValue(s[0]), s[1..]); }
  }

  lemma {:induction false} ContinuedAppend(value: nat, s: string, c: char)
    requires AllDigits(s) && IsDigit(c)
    ensures AllDigits(s + [c]) && Continued(value, s + [c]) == Continued(value, s) * 10 + DigitValue(c)
    decreases |s|
  {
    if s == "" {
      assert "" + [c] == [c];
      assert [c][1..] == "";
    } else {
      assert (s + [c])[1..] == s[1..] + [c];
      ContinuedAppend(value * 10 + DigitValue(s[0]), s[1..], c);
    }
  }

  lemma {:induction false} ContinuedIsValue(s: string)
    requires AllDigits(s)
    ensures Continued(0, s) == DecimalValue(s)
    decreases |s|
  {
    if s != "" {
      var n := |s| - 1;
      ContinuedIsValue(s[..n]);
      ContinuedAppend(0, s[..n], s[n]);
      assert s == s[..n] + [s[n]];
    }
  }

  /** The overflow test refuses exactly the numbers above the maximum. */
  lemma {:induction false} FoldIsExact(value: nat, s: string, max: nat)
    requires value <= max && max >= 10
    ensures FoldDigits(value, s, max).Some? <==> AllDigits(s) && Continued(value, s) <= max
    ensures FoldDigits(value, s, max).Some? ==> FoldDigits(value, s, max).value == Continued(value, s)
    decreases |s|
  {
    if s != "" && IsDigit(s[0]) {
      var digit, threshold := DigitValue(s[0]), max / 10;
      var next := value * 10 + digit;
      assert AllDigits(s) <==> AllDigits(s[1..]) by {
        assert forall i :: 1 <= i < |s| ==> s[i] == s[1..][i - 1];
      }
      if value > threshold || (value == threshold && digit > max % 10) {
        if AllDigits(s) { ContinuedGrows(next, s[1..]); }
      } else if value == threshold && |s| > 1 {
        if AllDigits(s) {
          assert Continued(next, s[1..]) == Continued(next * 10 + DigitValue(s[1]), s[1..][1..]);
          ContinuedGrows(next * 10 + DigitValue(s[1]), s[1..][1..]);
        }
      } else {
        FoldIsExact(next, s[1..], max);
      }
    }
  }

  /** The digits of a number token, and the largest magnitude its sign allows. */
  function Magnitude(text: string): string
    requires text != ""
  {
    if text[0] == '-' then text[1..] else text
  }

  function MaxMagnitude(text: string): (max: nat)
    requires text != ""
    ensures max >= 10
  {
    if text[0] == '-' then MAX_LARGEST_INT + 1 else MAX_LARGEST_UINT
  }

  /** The value with the tag that `decodeNumber` gives it. */
  function Tagged(n: int): Value {
    if n <= MAX_INT then Int(n) else UInt(n)
  }

  /** The integer a number token decodes to; None where it is read as a double. */
  function DecodeInteger(text: string): Option<Value>
    requires text != ""
  {
    match FoldDigits(0, Magnitude(text), MaxMagnitude(text))
    case None => None
    case Some(v) => Some(if text[0] == '-' then Int(0 - v) else Tagged(v))
  }

  /** A token is an integer iff it is digits whose value fits 64 bits, and the integer
      is that value. */
  lemma DecodeIsExact(text: string)
    requires text != ""
    ensures var m := Magnitude(text);
      DecodeInteger(text)
        == if !AllDigits(m) || DecimalValue(m) > MaxMagnitude(text) then None
           else if text[0] == '-' then Some(Int(0 - DecimalValue(m)))
           else Some(Tagged(DecimalValue(m)))
  {
    var m := Magnitude(text);
    FoldIsExact(0, m, MaxMagnitude(text));
    if AllDigits(m) { ContinuedIsValue(m); }
  }

  /** What is printed decodes to the same number. */
  lemma IntTextDecodes(n: int)
    requires -(MAX_LARGEST_INT + 1) <= n <= MAX_LARGEST_UINT
    ensures DecodeInteger(IntText(n)) == Some(Tagged(n))
  {
    var text := IntText(n);
    if n < 0 {
      assert text[1..] == Digits(-n);
      ValueOfDigits(-n);
    } else {
      assert IsDigit(text[0]);
      ValueOfDigits(n);
    }
    DecodeIsExact(text);
  }

  /** The digit loop of `decodeNumber` on a token: the sum never leaves 64 bits. */
  method DecodeNumber(text: string) returns (decoded: Option<Value>)
    requires text != ""
    ensures decoded == DecodeInteger(text)
  {
    var current := 0;
    var isNegative := text[0] == '-';
    if isNegative {
      current := 1;
    }
    var maxIntegerValue: nat := if isNegative then MAX_LARGEST_INT + 1 else MAX_LARGEST_UINT;
    var threshold := maxIntegerValue / 10;
    var value := 0;
    assert text[current..] == Magnitude(text);
    while current < |text|
      invariant 0 <= current <= |text| && 0 <= value <= maxIntegerValue
      invariant FoldDigits(value, text[current..], maxIntegerValue)
             == FoldDigits(0, Magnitude(text), maxIntegerValue)
    {
      var c := text[current];
      assert text[current..][1..] == text[current + 1..];
      current := current + 1;
      if !IsDigit(c) {
        return None;
      }
      var digit := DigitValue(c);
      if value >= threshold {
        if value > threshold || current != |text| || digit > maxIntegerValue % 10 {
          return None;
        }
      }
      value := value * 10 + digit;
      assert value <= MAX_LARGEST_UINT;
    }
    if isNegative && value == maxIntegerValue {
      decoded := Some(Int(-(MAX_LARGEST_INT + 1)));
    } else if isNegative {
      decoded := Some(Int(-value));
    } else if value <= MAX_INT {
      decoded := Some(Int(value));
    } else {
      decoded := Some(UInt(value));
    }
  }

  function Pow10(n: nat): (p: nat)
    ensures p > 0
  {
    if n == 0 then 1 else 10 * Pow10(n - 1)
  }

  lemma MaxHasTwentyDigits()
    ensures MAX_LARGEST_UINT < Pow10(20)
  {
    assert Pow10(5) == 100000;
    assert Pow10(10) == 100000 * Pow10(5);
    assert Pow10(15) == 100000 * Pow10(10);
    assert Pow10(20) == 100000 * Pow10(15);
  }

  /** `v` has at most `k` decimal digits. */
  predicate Fits(v: nat, k: nat) {
    if k == 0 then v == 0 else Fits(v / 10, k - 1)
  }

  lemma {:induction false} BelowFits(v: nat, k: nat)
    requires v < Pow10(k)
    ensures Fits(v, k)
  {
    if k > 0 { BelowFits(v / 10, k - 1); }
  }

  lemma WordFits(v: nat)
    requires v <= MAX_LARGEST_UINT
    ensures Fits(v / 10, 19)
  {
    MaxHasTwentyDigits();
    BelowFits(v, 20);
  }

  /** The digits still to be written once only `v` is left. */
  function Leading(v: nat): string {
    if v == 0 then "" else Digits(v)
  }

  lemma LeadingStep(v: nat, done: string)
    requires v > 0
    ensures Leading(v / 10) + ([DigitChar(v % 10)] + done) == Leading(v) + done
  {
  }

  method PutChar(buffer: array<char>, current: nat, end: nat, c: char)
    requires current < end <= buffer.Length
    modifies buffer
    ensures buffer[current..end] == [c] + old(buffer[current + 1..end])
    ensures forall i :: 0 <= i < buffer.Length && i != current ==> buffer[i] == old(buffer[i])
  {
    buffer[current] := c;
  }

  lemma FirstDigit(v: nat)
    ensures Leading(v / 10) + ([DigitChar(v % 10)] + "") == Digits(v)
  {
    assert [DigitChar(v % 10)] + "" == [DigitChar(v % 10)];
  }

  /** One digit more, in front of those written before. */
  method PutDigit(buffer: array<char>, current: nat, end: nat, v: nat)
    requires v > 0 && current < end <= buffer.Length
    modifies buffer
    ensures Leading(v / 10) + buffer[current..end] == Leading(v) + old(buffer[current + 1..end])
    ensures forall i :: 0 <= i < buffer.Length && i != current ==> buffer[i] == old(buffer[i])
  {
    LeadingStep(v, buffer[current + 1..end]);
    PutChar(buffer, current, end, DigitChar(v % 10));
  }

  /** `uintToString`: writes the digits and a terminator into the buffer, downwards from
      `end`; 21 free characters are enough for 64 bits. */
  method UintToString(value: nat, buffer: array<char>, end: nat) returns (current: nat)
    requires value <= MAX_LARGEST_UINT && 21 <= end <= buffer.Length
    modifies buffer
    ensures end - 21 <= current < end - 1 && buffer[end - 1] == '\0'
    ensures buffer[current..end - 1] == Digits(value)
    ensures forall i :: 0 <= i < current || end <= i < buffer.Length ==> buffer[i] == old(buffer[i])
  {
    WordFits(value);
    current := end - 1;
    buffer[current] := '\0';
    current := current - 1;
    FirstDigit(value);
    PutChar(buffer, current, end - 1, DigitChar(value % 10));
    var v: nat := value / 10;
    ghost var k: nat := 19;
    while v != 0
      invariant k <= 19 && Fits(v, k) && current == end - 21 + k
      invariant buffer[end - 1] == '\0'
      invariant Leading(v) + buffer[current..end - 1] == Digits(value)
      invariant forall i :: 0 <= i < current || end <= i < buffer.Length ==> buffer[i] == old(buffer[i])
      decreases v
    {
      current := current - 1;
      PutDigit(buffer, current, end - 1, v);
      k := k - 1;
      v := v / 10;
    }
  }

  /** `valueToString` for signed and for unsigned integers. */
  method ValueToString(value: int) returns (text: string)
    requires -(MAX_LARGEST_INT + 1) <= value <= MAX_LARGEST_UINT
    ensures text == IntText(value)
  {
    var buffer := new char[25](_ => ' ');
    var current;
    if value < 0 {
      current := UintToString(-value, buffer, 25);
      ghost var digits := buffer[current..24];
      current := current - 1;
      buffer[current] := '-';
      assert buffer[current + 1..24] == digits;
      assert buffer[current..24] == "-" + digits;
    } else {
      current := UintToString(value, buffer, 25);
    }
    text := buffer[current..24];
  }
}
