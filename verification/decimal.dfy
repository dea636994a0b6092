/**
 Decimal rendering of an integer, with the parser that inverts it. A
 JavaScript template literal renders an integral number the same way
 while its magnitude is below 10^21 (larger ones switch to exponent
 notation); the mouse plugin only renders 16-bit button values.
 */
module Decimal {

  predicate IsDigit(c: char) {
    '0' <= c <= '9'
  }

  /** Every character is a decimal digit. */
  predicate AllDigits(s: string) {
    forall i :: 0 <= i < |s| ==> IsDigit(s[i])
  }

  function DigitChar(d: nat): (c: char)
    requires d < 10
    ensures IsDigit(c) && c as int - '0' as int == d
  {
    ('0' as int + d) as char
  }

  function DigitValue(c: char): (d: nat)
    requires IsDigit(c)
    ensures d < 10 && DigitChar(d) == c
  {
    c as int - '0' as int
  }

  /** The digits of `n`, most significant first, without leading zeros. */
  function NatString(n: nat): (r: string)
    ensures CanonicalDigits(r)
    ensures r[0] == '0' <==> n == 0
    decreases n
  {
    if n < 10 then [DigitChar(n)]
    else NatString(n / 10) + [DigitChar(n % 10)]
  }

  /** The rendering of an integer: a minus sign before the digits of a negative one. */
  function IntString(i: int): (r: string)
    ensures Canonical(r)
    ensures i < 0 <==> r[0] == '-'
  {
    if i < 0 then "-" + NatString(-i) else NatString(i)
  }

  /** The value of a string of digits. */
  function ParseNat(s: string): (n: nat)
    requires AllDigits(s)
    decreases |s|
  {
    if s == [] then 0 else ParseNat(s[..|s| - 1]) * 10 + DigitValue(s[|s| - 1])
  }

  /** A non-empty run of digits with no leading zero, unless it is exactly "0". */
  predicate CanonicalDigits(s: string) {
    s != [] && AllDigits(s) && (|s| > 1 ==> s[0] != '0')
  }

  /**
   The numerals the rendering produces: canonical digits, or a minus sign
   followed by canonical digits that are not "0" (so never "-0").
   */
  predicate Canonical(s: string) {
    || CanonicalDigits(s)
    || (|s| > 1 && s[0] == '-' && s[1] != '0' && CanonicalDigits(s[1..]))
  }

  /** A well-formed rendering: digits, or a minus sign followed by digits. */
  predicate Numeral(s: string) {
    || (s != [] && AllDigits(s))
    || (|s| > 1 && s[0] == '-' && AllDigits(s[1..]))
  }

  function ParseInt(s: string): int
    requires Numeral(s)
  {
    if s[0] == '-' then
      -(ParseNat(s[1..]) as int)
    else ParseNat(s)
  }

  /** Parsing the digits of `n` gives back `n`. */
  lemma {:induction false} ParseNatString(n: nat)
    ensures ParseNat(NatString(n)) == n
    decreases n
  {
    if n >= 10 {
      var r := NatString(n);
      ParseNatString(n / 10);
      assert r[..|r| - 1] == NatString(n / 10);
    }
  }

  /** Every rendering is a numeral that parses back to the integer it renders. */
  lemma ParseIntString(i: int)
    ensures Numeral(IntString(i)) && ParseInt(IntString(i)) == i
  {
    if i < 0 {
      assert IntString(i)[1..] == NatString(-i);
      ParseNatString(-i);
    } else {
      ParseNatString(i);
    }
  }

  /** Distinct integers render differently. */
  lemma IntStringInjective(i: int, j: int)
    requires IntString(i) == IntString(j)
    ensures i == j
  {
    ParseIntString(i);
    ParseIntString(j);
  }

  /** Digits that do not start with a zero denote a positive number. */
  lemma {:induction false} ParseNatPositive(s: string)
    requires s != [] && AllDigits(s) && s[0] != '0'
    ensures ParseNat(s) > 0
    decreases |s|
  {
    if |s| > 1 {
      ParseNatPositive(s[..|s| - 1]);
    }
  }

  /** Canonical digits are the rendering of the number they denote. */
  lemma {:induction false} NatStringParse(s: string)
    requires CanonicalDigits(s)
    ensures NatString(ParseNat(s)) == s
    decreases |s|
  {
    if |s| > 1 {
      var init := s[..|s| - 1];
      var m := ParseNat(init);
      var d := DigitValue(s[|s| - 1]);
      ParseNatPositive(init);
      NatStringParse(init);
      assert (m * 10 + d) / 10 == m && (m * 10 + d) % 10 == d;
      assert s == init + [s[|s| - 1]];
    }
  }

  /**
   A canonical numeral is exactly the rendering of the integer it parses
   to, so a rendering is fixed by its value and its canonical form.
   */
  lemma CanonicalIsRendering(s: string)
    requires Canonical(s)
    ensures Numeral(s) && IntString(ParseInt(s)) == s
  {
    if s[0] == '-' {
      var t := s[1..];
      ParseNatPositive(t);
      NatStringParse(t);
      assert s == "-" + t;
    } else {
      NatStringParse(s);
    }
  }
}
