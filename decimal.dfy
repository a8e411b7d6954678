/** Python's `str(i)` for an `int`: an optional minus sign and the decimal
    digits, with no leading zeros. */
module Decimal {

  predicate IsDigit(c: char)
  {
    '0' <= c <= '9'
  }

  predicate AllDigits(s: string)
  {
    forall k | 0 <= k < |s| :: IsDigit(s[k])
  }

  function DigitValue(c: char): (d: nat)
    requires IsDigit(c)
    ensures d < 10
  {
    c as int - '0' as int
  }

  function DigitChar(d: nat): (c: char)
    requires d < 10
    ensures IsDigit(c) && DigitValue(c) == d
  {
    ('0' as int + d) as char
  }

  /** The value a string of decimal digits denotes, most significant first. */
  function DigitsValue(s: string): nat
    requires AllDigits(s)
  {
    if s == [] then 0 else DigitsValue(s[..|s| - 1]) * 10 + DigitValue(s[|s| - 1])
  }

  /** A non-empty digit string without a leading zero, except "0" itself. */
  predicate IsCanonicalDigits(s: string)
  {
    |s| >= 1 && AllDigits(s) && (s[0] == '0' ==> |s| == 1)
  }

  /** The strings Python's `str` produces for an `int`: canonical digits,
      possibly after a minus sign; there is no "-0". */
  predicate IsIntString(s: string)
  {
    IsCanonicalDigits(s) || (|s| >= 2 && s[0] == '-' && IsCanonicalDigits(s[1..]) && s[1] != '0')
  }

  /** Reads back an `int` string: Python's `int(s)` on the strings `str` makes. */
  function ParseInt(s: string): int
    requires IsIntString(s)
  {
    if s[0] == '-' then -(DigitsValue(s[1..]) as int) else DigitsValue(s)
  }

  /** The decimal digits of a natural number: canonical, and denoting it. */
  function NatDigits(n: nat): (r: string)
    ensures IsCanonicalDigits(r)
    ensures DigitsValue(r) == n
    ensures n > 0 ==> r[0] != '0'
    decreases n
  {
    if n < 10 then [DigitChar(n)]
    else
      var high := NatDigits(n / 10);
      var r := high + [DigitChar(n % 10)];
      assert r[..|r| - 1] == high;
      r
  }

  /** `str(i)`: a string Python's `int` reads back as `i`, starting with a minus
      sign exactly when `i` is negative. */
  function Dec(i: int): (r: string)
    ensures IsIntString(r)
    ensures ParseInt(r) == i
    ensures (r[0] == '-') == (i < 0)
  {
    if i < 0 then
      var r := "-" + NatDigits(-i);
      assert r[1..] == NatDigits(-i);
      r
    else NatDigits(i)
  }

  /** `str` is injective on integers. */
  lemma DecInjective(i: int, j: int)
    requires Dec(i) == Dec(j)
    ensures i == j
  {
  }

  /** A canonical digit string with a non-zero first digit denotes a positive number. */
  lemma {:induction false} LeadingDigitPositive(s: string)
    requires IsCanonicalDigits(s) && s[0] != '0'
    ensures DigitsValue(s) > 0
  {
    if |s| > 1 {
      var init := s[..|s| - 1];
      assert init[0] == s[0];
      LeadingDigitPositive(init);
    }
  }

  /** A canonical digit string is the digit string of its own value. */
  lemma {:induction false} NatDigitsOfValue(s: string)
    requires IsCanonicalDigits(s)
    ensures NatDigits(DigitsValue(s)) == s
  {
    var v := DigitsValue(s);
    var last := s[|s| - 1];
    if |s| == 1 {
      assert DigitChar(DigitValue(last)) == last;
      assert s == [last];
    } else {
      var init := s[..|s| - 1];
      assert init[0] == s[0];
      LeadingDigitPositive(init);
      assert v / 10 == DigitsValue(init) && v % 10 == DigitValue(last);
      NatDigitsOfValue(init);
      assert DigitChar(DigitValue(last)) == last;
      assert s == init + [last];
    }
  }

  /** Every string of the form `str` produces is `str` of what it denotes:
      with `Dec`'s contract, the `int` strings and the integers correspond
      one to one. */
  lemma DecOfParse(s: string)
    requires IsIntString(s)
    ensures Dec(ParseInt(s)) == s
  {
    if s[0] == '-' {
      var digits := s[1..];
      LeadingDigitPositive(digits);
      NatDigitsOfValue(digits);
      assert s == "-" + digits;
    } else {
      NatDigitsOfValue(s);
    }
  }
}
