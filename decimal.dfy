/**
 * Decimal text and fixed-width integers as the JVM handles them: Kotlin's `Int.toString`
 * for a non-negative value, `String.toLong` / `String.toInt` (java.lang.Long.parseLong and
 * Integer.parseInt, radix 10), and the truncating `Long.toInt()` conversion.
 */
module Decimal {
  import opened Wrappers

  const IntMin: int := -0x8000_0000
  const IntMax: int := 0x7fff_ffff
  const LongMin: int := -0x8000_0000_0000_0000
  const LongMax: int := 0x7fff_ffff_ffff_ffff
  const TwoTo32: int := 0x1_0000_0000

  predicate IsDigit(c: char) {
    '0' <= c <= '9'
  }

  predicate AllDigits(s: string) {
    forall i :: 0 <= i < |s| ==> IsDigit(s[i])
  }

  function DigitChar(d: nat): (c: char)
    requires d < 10
    ensures IsDigit(c) && c as int - '0' as int == d
  {
    ('0' as int + d) as char
  }

  /** The value of a string of decimal digits, most significant first. */
  function DigitsValue(s: string): nat
    requires AllDigits(s)
    decreases |s|
  {
    if s == [] then 0 else DigitsValue(s[..|s| - 1]) * 10 + (s[|s| - 1] as int - '0' as int)
  }

  /** The decimal text of a non-negative number, most significant digit first. */
  function NatToDecimal(n: nat): string
    decreases n
  {
    if n < 10 then [DigitChar(n)] else NatToDecimal(n / 10) + [DigitChar(n % 10)]
  }

  /** The text is digits only, has no leading zero, and reads back as the number. */
  lemma {:induction false} NatToDecimalDigits(n: nat)
    ensures var s := NatToDecimal(n);
      && 1 <= |s| && AllDigits(s)
      && (|s| > 1 ==> s[0] != '0')
      && DigitsValue(s) == n
    decreases n
  {
    if n >= 10 {
      NatToDecimalDigits(n / 10);
      var prefix := NatToDecimal(n / 10);
      var s := prefix + [DigitChar(n % 10)];
      assert s[..|s| - 1] == prefix;
    }
  }

  /** Different numbers have different decimal texts. */
  lemma NatToDecimalInjective(a: nat, b: nat)
    requires NatToDecimal(a) == NatToDecimal(b)
    ensures a == b
  {
    NatToDecimalDigits(a);
    NatToDecimalDigits(b);
  }

  /**
   * Radix-10 parsing with the JVM's rules: an optional leading '-' or '+', then at least one
   * digit, and the value must lie in [lo, hi] (the Long or the Int range); anything else is a
   * NumberFormatException, here None.
   */
  function ParseInteger(s: string, lo: int, hi: int): (r: Option<int>)
    ensures r.Some? ==> lo <= r.value <= hi
    ensures r.Some? ==> |s| >= 1
    ensures (exists i :: 0 <= i < |s| && !IsDigit(s[i]) && !(i == 0 && |s| > 1 && (s[0] == '-' || s[0] == '+')))
      ==> r.None?
    ensures s != [] && AllDigits(s) ==>
      r == (if lo <= DigitsValue(s) <= hi then Some(DigitsValue(s)) else None)
    ensures |s| > 1 && s[0] == '-' && AllDigits(s[1..]) ==>
      r == (if lo <= 0 - DigitsValue(s[1..]) <= hi then Some(0 - DigitsValue(s[1..])) else None)
    ensures |s| > 1 && s[0] == '+' && AllDigits(s[1..]) ==>
      r == (if lo <= DigitsValue(s[1..]) <= hi then Some(DigitsValue(s[1..])) else None)
  {
    if s == [] then None
    else
      var signed := s[0] == '-' || s[0] == '+';
      var digits := if signed then s[1..] else s;
      if digits == [] || !AllDigits(digits) then None
      else
        var v: int := if s[0] == '-' then 0 - DigitsValue(digits) else DigitsValue(digits);
        if lo <= v <= hi then Some(v) else None
  }

  /** Printing a number and parsing it back gives the number, whenever it is in range. */
  lemma ParseNatToDecimal(n: nat, lo: int, hi: int)
    requires lo <= n <= hi
    ensures ParseInteger(NatToDecimal(n), lo, hi) == Some(n)
  {
    var s := NatToDecimal(n);
    NatToDecimalDigits(n);
    assert IsDigit(s[0]);
  }

  /** A minus sign before the decimal text of a number parses as its negation, when in range. */
  lemma ParseNegatedDecimal(n: nat, lo: int, hi: int)
    requires lo <= 0 - n <= hi
    ensures ParseInteger("-" + NatToDecimal(n), lo, hi) == Some(0 - n)
  {
    var s := "-" + NatToDecimal(n);
    NatToDecimalDigits(n);
    assert s[1..] == NatToDecimal(n);
  }

  /** Examples: signs and leading zeros are accepted, a stray character or a bare sign is not. */
  lemma ParseExamples()
    ensures ParseInteger("007", IntMin, IntMax) == Some(7)
    ensures ParseInteger("-5", IntMin, IntMax) == Some(-5)
    ensures ParseInteger("+5", IntMin, IntMax) == Some(5)
    ensures ParseInteger("1x", IntMin, IntMax) == None
    ensures ParseInteger("-", IntMin, IntMax) == None
    ensures ParseInteger("128", -128, 127) == None
  {
    assert "007"[..2] == "00" && "00"[..1] == "0" && "0"[..0] == "";
    assert DigitsValue("007") == 7;
    assert "128"[..2] == "12" && "12"[..1] == "1" && "1"[..0] == "";
    assert DigitsValue("128") == 128;
    assert "-5"[1..] == "5" && "+5"[1..] == "5";
    assert !IsDigit("1x"[1]);
  }

  /** Kotlin's `Long.toInt()`: keep the low 32 bits, read them as a signed value. */
  function ToInt32(x: int): (r: int)
    ensures IntMin <= r <= IntMax
    ensures (x - r) % TwoTo32 == 0
    ensures IntMin <= x <= IntMax ==> r == x
  {
    var m := x % TwoTo32;
    if m > IntMax then m - TwoTo32 else m
  }
}
