/**
 * The parts of the C++ standard library that the file browser relies on,
 * written out with their exact semantics: truncating integer division and
 * real-to-integer casts, std::lround / std::round (half away from zero),
 * std::to_string on integers, std::stoll with its two exceptions, and the
 * prefix conversion std::stod performs on a run of digits, points and minus
 * signs.  Integers are unbounded; where the program relies on 64-bit
 * limits they are written out.
 */
module CppLib {

  datatype Option<T> = None | Some(value: T)

  datatype Result<T, E> = Success(value: T) | Failure(error: E)

  /** The exceptions std::stoll / std::stod may throw. */
  datatype ConversionError = InvalidArgument | OutOfRange

  const Int64Min: int := -0x8000_0000_0000_0000
  const Int64Max: int := 0x7FFF_FFFF_FFFF_FFFF
  /** Int64Max as {fmt} prints it. */
  const Int64MaxText: string := "9223372036854775807"

  // ---------------------------------------------------------------------
  // Powers of ten
  // ---------------------------------------------------------------------

  function Pow10(e: nat): (r: nat)
    ensures r >= 1
  {
    if e == 0 then 1 else 10 * Pow10(e - 1)
  }

  /** 10^e as a real, for any integer exponent (std::pow(10.0, e)). */
  function Pow10R(e: int): (r: real)
    ensures r > 0.0
  {
    if e >= 0 then Pow10(e) as real else 1.0 / (Pow10(-e) as real)
  }

  lemma Pow10Add(a: nat, b: nat)
    ensures Pow10(a + b) == Pow10(a) * Pow10(b)
  {
    if a > 0 {
      Pow10Add(a - 1, b);
    }
  }

  lemma Pow10RStep(e: int)
    ensures Pow10R(e + 1) == 10.0 * Pow10R(e)
  {
    if e < -1 {
      assert Pow10(-e) == 10 * Pow10(-e - 1);
      var p := Pow10(-e - 1) as real;
      assert Pow10R(e) == 1.0 / (10.0 * p);
    }
  }

  lemma Pow10RMonotone(a: int, b: int)
    requires a <= b
    ensures Pow10R(a) <= Pow10R(b)
    decreases b - a
  {
    if a < b {
      Pow10RMonotone(a + 1, b);
      Pow10RStep(a);
    }
  }

  // ---------------------------------------------------------------------
  // Integer division and casts
  // ---------------------------------------------------------------------

  /** C++ `a / b` on integers for a positive divisor: rounds toward zero. */
  function Quot(a: int, b: int): (q: int)
    requires b > 0
    ensures a >= 0 ==> q * b <= a < (q + 1) * b
    ensures a < 0 ==> (q - 1) * b < a <= q * b
  {
    if a >= 0 then a / b else -((-a) / b)
  }

  /** A `double` cast to an integer type: truncation toward zero. */
  function Trunc(x: real): (t: int)
    ensures x >= 0.0 ==> 0 <= t && t as real <= x < t as real + 1.0
    ensures x < 0.0 ==> t <= 0 && t as real - 1.0 < x <= t as real
  {
    if x >= 0.0 then x.Floor else -((-x).Floor)
  }

  /** std::lround and std::round: nearest integer, halves away from zero. */
  function RoundHalfAway(x: real): (t: int)
    ensures t as real - 0.5 <= x <= t as real + 0.5
    ensures x >= 0.0 ==> t as real - 0.5 <= x < t as real + 0.5
    ensures x < 0.0 ==> t as real - 0.5 < x <= t as real + 0.5
  {
    if x >= 0.0 then (x + 0.5).Floor else -((-x + 0.5).Floor)
  }

  /** std::clamp on integers. */
  function Clamp(v: int, lo: int, hi: int): (r: int)
    requires lo <= hi
    ensures lo <= r <= hi
    ensures lo <= v <= hi ==> r == v
    ensures v < lo ==> r == lo
    ensures v > hi ==> r == hi
  {
    if v < lo then lo else if v > hi then hi else v
  }

  function Min(a: int, b: int): int { if a <= b then a else b }

  function Max(a: int, b: int): int { if a >= b then a else b }

  function Abs(a: int): nat { if a < 0 then -a else a }

  function AbsR(x: real): real { if x < 0.0 then -x else x }

  // ---------------------------------------------------------------------
  // Characters (the "C" locale classification)
  // ---------------------------------------------------------------------

  predicate IsDigit(c: char) { '0' <= c <= '9' }

  predicate IsAlpha(c: char) { 'a' <= c <= 'z' || 'A' <= c <= 'Z' }

  predicate IsAlnum(c: char) { IsDigit(c) || IsAlpha(c) }

  /** std::isspace in the "C" locale. */
  predicate IsSpace(c: char) {
    c == ' ' || c == '\t' || c == '\n' || c == '\r' || c == '\U{B}' || c == '\U{C}'
  }

  function DigitChar(d: nat): (c: char)
    requires d < 10
    ensures IsDigit(c)
  {
    (48 + d) as char
  }

  function DigitValue(c: char): (d: nat)
    requires IsDigit(c)
    ensures d < 10 && DigitChar(d) == c
  {
    (c as int) - 48
  }

  predicate AllDigits(s: string) {
    forall i :: 0 <= i < |s| ==> IsDigit(s[i])
  }

  // ---------------------------------------------------------------------
  // std::to_string on integers and its inverse
  // ---------------------------------------------------------------------

  /** Decimal digits of a natural number, without leading zeros. */
  function NatToString(n: nat): (s: string)
    ensures |s| >= 1 && AllDigits(s)
    ensures s[0] == '0' ==> n == 0
  {
    if n < 10 then [DigitChar(n)] else NatToString(n / 10) + [DigitChar(n % 10)]
  }

  /** std::to_string(long): a leading '-' for negative values. */
  function IntToString(n: int): (s: string)
    ensures |s| >= 1
    ensures n >= 0 ==> AllDigits(s)
    ensures n < 0 ==> s[0] == '-' && AllDigits(s[1..])
  {
    if n < 0 then "-" + NatToString(-n) else NatToString(n)
  }

  /** Every character of a decimal integer is a digit or the minus sign. */
  lemma IntToStringChars(n: int)
    ensures forall k :: 0 <= k < |IntToString(n)| ==> IsDigit(IntToString(n)[k]) || IntToString(n)[k] == '-'
  {
    var s := IntToString(n);
    forall k | 0 <= k < |s| ensures IsDigit(s[k]) || s[k] == '-' {
      if n < 0 && k > 0 {
        assert s[k] == s[1..][k - 1];
      }
    }
  }

  /** The value of a string of decimal digits. */
  function DigitsValue(s: string): (n: nat)
    requires AllDigits(s)
  {
    if |s| == 0 then 0 else 10 * DigitsValue(s[..|s| - 1]) + DigitValue(s[|s| - 1])
  }

  lemma {:induction false} NatToStringRoundTrip(n: nat)
    ensures DigitsValue(NatToString(n)) == n
  {
    if n >= 10 {
      var s := NatToString(n);
      assert s[..|s| - 1] == NatToString(n / 10);
      NatToStringRoundTrip(n / 10);
    }
  }

  // ---------------------------------------------------------------------
  // std::stoll (base 10)
  // ---------------------------------------------------------------------

  /** Index of the first character that is not white space. */
  function SkipSpace(s: string, i: nat): (j: nat)
    requires i <= |s|
    ensures i <= j <= |s|
    ensures forall k :: i <= k < j ==> IsSpace(s[k])
    ensures j < |s| ==> !IsSpace(s[j])
    decreases |s| - i
  {
    if i < |s| && IsSpace(s[i]) then SkipSpace(s, i + 1) else i
  }

  /** Index just past the longest run of digits starting at i. */
  function DigitsEnd(s: string, i: nat): (j: nat)
    requires i <= |s|
    ensures i <= j <= |s|
    ensures AllDigits(s[i..j])
    ensures j < |s| ==> !IsDigit(s[j])
    decreases |s| - i
  {
    if i < |s| && IsDigit(s[i]) then DigitsEnd(s, i + 1) else i
  }

  /**
   * std::stoll(s): leading white space, an optional sign, then the longest
   * run of digits; whatever follows is ignored.  No digits throws
   * std::invalid_argument, a value outside 64 bits std::out_of_range.
   */
  function Stoll(s: string): (r: Result<int, ConversionError>)
    ensures r.Success? ==> Int64Min <= r.value <= Int64Max
  {
    var i := SkipSpace(s, 0);
    var negative := i < |s| && s[i] == '-';
    var start := if i < |s| && (s[i] == '-' || s[i] == '+') then i + 1 else i;
    var stop := DigitsEnd(s, start);
    if stop == start then Failure(InvalidArgument)
    else
      var magnitude: int := DigitsValue(s[start..stop]);
      var v: int := if negative then -magnitude else magnitude;
      if v < Int64Min || v > Int64Max then Failure(OutOfRange) else Success(v)
  }

  /** stoll inverts to_string on every 64-bit value. */
  lemma StollOfIntToString(n: int)
    requires Int64Min <= n <= Int64Max
    ensures Stoll(IntToString(n)) == Success(n)
  {
    if n < 0 {
      StollOfSigned(n);
    } else {
      var s := IntToString(n);
      assert s == NatToString(n);
      assert SkipSpace(s, 0) == 0;
      assert s[0..] == s;
      DigitsRunToEnd(s, 0);
      assert s[0..|s|] == s;
      NatToStringRoundTrip(n);
    }
  }

  /** StollOfIntToString for a negative value: the sign, then the digits of its magnitude. */
  lemma StollOfSigned(n: int)
    requires Int64Min <= n < 0
    ensures Stoll(IntToString(n)) == Success(n)
  {
    var s := IntToString(n);
    var digits := NatToString(-n);
    assert s == "-" + digits;
    assert SkipSpace(s, 0) == 0 by { assert s[0] == '-'; }
    assert DigitsEnd(s, 1) == |s| by { assert s[1..] == digits; DigitsRunToEnd(s, 1); }
    assert DigitsValue(s[1..|s|]) == -n by { assert s[1..|s|] == digits; NatToStringRoundTrip(-n); }
  }

  lemma DigitsRunToEnd(s: string, i: nat)
    requires i <= |s| && AllDigits(s[i..])
    ensures DigitsEnd(s, i) == |s|
    decreases |s| - i
  {
    if i < |s| {
      assert s[i] == s[i..][0];
      assert s[i + 1..] == s[i..][1..];
      DigitsRunToEnd(s, i + 1);
    }
  }

  /** stoll throws std::invalid_argument exactly when no digit follows the optional sign. */
  lemma StollRejectsNoDigits(s: string)
    ensures Stoll(s) == Failure(InvalidArgument) <==>
      (var i := SkipSpace(s, 0);
       var start := if i < |s| && (s[i] == '-' || s[i] == '+') then i + 1 else i;
       start == |s| || !IsDigit(s[start]))
  {
  }

  // ---------------------------------------------------------------------
  // std::stod on a run of digits, '.' and '-'
  // ---------------------------------------------------------------------

  predicate IsLimitChar(c: char) { IsDigit(c) || c == '.' || c == '-' }

  /** The value of the digits s[i..j] read as a fraction 0.s[i..j]. */
  function FractionValue(s: string): (r: real)
    requires AllDigits(s)
    ensures 0.0 <= r < 1.0
    decreases |s|
  {
    if |s| == 0 then 0.0 else (DigitValue(s[0]) as real + FractionValue(s[1..])) / 10.0
  }

  /**
   * std::stod on a string made only of digits, points and minus signs: an
   * optional '-', digits, optionally a point and more digits, with at least
   * one digit in all; the rest is ignored.  None stands for the
   * std::invalid_argument that stod throws when no number can be read.
   */
  function StodRun(s: string): (r: Option<real>)
    ensures r.Some? <==>
      (var start := if 0 < |s| && s[0] == '-' then 1 else 0;
       (start < |s| && IsDigit(s[start])) ||
       (start + 1 < |s| && s[start] == '.' && IsDigit(s[start + 1])))
  {
    var start := if 0 < |s| && s[0] == '-' then 1 else 0;
    var intEnd := DigitsEnd(s, start);
    var hasPoint := intEnd < |s| && s[intEnd] == '.';
    var fracEnd := if hasPoint then DigitsEnd(s, intEnd + 1) else intEnd;
    var fracStart := if hasPoint then intEnd + 1 else intEnd;
    if intEnd == start && fracEnd == fracStart then None
    else
      var magnitude := DigitsValue(s[start..intEnd]) as real + FractionValue(s[fracStart..fracEnd]);
      Some(if start == 1 then -magnitude else magnitude)
  }

  /** stod reads back what to_string writes for integers. */
  lemma StodRunOfIntToString(n: int)
    ensures StodRun(IntToString(n)) == Some(n as real)
  {
    var s := IntToString(n);
    var start := if n < 0 then 1 else 0;
    var digits := if n < 0 then NatToString(-n) else NatToString(n);
    assert s[start..] == digits;
    NatToStringRoundTrip(if n < 0 then -n else n);
    StodRunOfDigits(s, start);
  }

  lemma StodRunOfDigits(s: string, start: nat)
    requires start < |s| && AllDigits(s[start..])
    requires start == 0 || (start == 1 && s[0] == '-')
    ensures StodRun(s) == Some(if start == 1 then -(DigitsValue(s[start..]) as real)
                                else DigitsValue(s[start..]) as real)
  {
    assert s[start] == s[start..][0];
    DigitsRunToEnd(s, start);
    var intEnd := DigitsEnd(s, start);
    assert intEnd == |s|;
    assert s[start..intEnd] == s[start..];
    assert FractionValue(s[intEnd..intEnd]) == 0.0;
  }
}
