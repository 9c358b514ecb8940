/**
 * Decimal text of integer ids, as the presence registry stores them:
 * `Number.prototype.toString()` on an integer (`ToDecimal`) and the unary
 * plus that reads a stored member back (`ParseNumber`).
 */
module Decimal {
  import opened Wrappers

  predicate IsDigit(c: char) {
    '0' <= c <= '9'
  }

  predicate AllDigits(s: string) {
    forall i :: 0 <= i < |s| ==> IsDigit(s[i])
  }

  function DigitChar(d: int): (c: char)
    requires 0 <= d < 10
    ensures IsDigit(c) && c as int - '0' as int == d
  {
    ('0' as int + d) as char
  }

  function DigitValue(c: char): (d: int)
    requires IsDigit(c)
    ensures 0 <= d < 10
  {
    c as int - '0' as int
  }

  /** The shortest decimal numeral of `n`: no leading zero except for "0" itself. */
  function Digits(n: nat): (s: string)
    ensures |s| >= 1 && AllDigits(s)
    ensures s[0] == '0' ==> n == 0
    decreases n
  {
    if n < 10 then [DigitChar(n)] else Digits(n / 10) + [DigitChar(n % 10)]
  }

  /** The value of a string of decimal digits (the empty string reads as 0). */
  function DigitsValue(s: string): nat
    requires AllDigits(s)
  {
    if s == [] then 0 else DigitsValue(s[..|s| - 1]) * 10 + DigitValue(s[|s| - 1])
  }

  /** `n.toString()` for an integer `n`. */
  function ToDecimal(n: int): (s: string)
    ensures |s| >= 1
  {
    if n < 0 then "-" + Digits(-n) else Digits(n)
  }

  /**
   * `+s` on an optionally signed decimal numeral; `None` for every other
   * string. JavaScript gives a number for some of those too (`+""` is 0,
   * `+"1e3"` is 1000); the registry never stores such text.
   */
  function ParseNumber(s: string): Option<int> {
    if |s| > 1 && s[0] == '-' && AllDigits(s[1..]) then Some(-(DigitsValue(s[1..]) as int))
    else if |s| > 0 && AllDigits(s) then Some(DigitsValue(s))
    else None
  }

  /** A string that `toString()` of some integer produces: it reads back to a number whose decimal text it is. */
  predicate IsCanonical(s: string) {
    ParseNumber(s).Some? && ToDecimal(ParseNumber(s).value) == s
  }

  lemma {:induction false} DigitsRoundTrip(n: nat)
    ensures DigitsValue(Digits(n)) == n
    decreases n
  {
    if n >= 10 {
      var prefix := Digits(n / 10);
      var s := prefix + [DigitChar(n % 10)];
      assert s[..|s| - 1] == prefix;
      DigitsRoundTrip(n / 10);
    }
  }

  /** Reading back the decimal text of an id gives the id: `+(id.toString()) == id`. */
  lemma ParseToDecimal(n: int)
    ensures ParseNumber(ToDecimal(n)) == Some(n)
  {
    if n < 0 {
      ParseNegative(n);
    } else {
      ParseNonNegative(n);
    }
  }

  lemma ParseNonNegative(n: nat)
    ensures ParseNumber(Digits(n)) == Some(n)
  {
    var s := Digits(n);
    assert IsDigit(s[0]);
    DigitsRoundTrip(n);
  }

  lemma ParseNegative(n: int)
    requires n < 0
    ensures ParseNumber("-" + Digits(-n)) == Some(n)
  {
    var digits := Digits(-n);
    var s := "-" + digits;
    assert s[1..] == digits;
    DigitsRoundTrip(-n);
  }

  /** Distinct ids are stored as distinct members. */
  lemma ToDecimalInjective(a: int, b: int)
    ensures ToDecimal(a) == ToDecimal(b) <==> a == b
  {
    if ToDecimal(a) == ToDecimal(b) {
      ParseToDecimal(a);
      ParseToDecimal(b);
    }
  }

  /** Every decimal text of an integer is canonical by this definition. */
  lemma ToDecimalIsCanonical(n: int)
    ensures IsCanonical(ToDecimal(n))
  {
    ParseToDecimal(n);
  }
}
