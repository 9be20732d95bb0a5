/** Decimal digit strings: JavaScript's String(n) for integers, padStart(2, '0'),
    and parseInt(s, 10) on strings made only of decimal digits. */
module Digits {

  predicate IsDigit(c: char) {
    '0' <= c <= '9'
  }

  predicate AllDigits(s: string) {
    forall i :: 0 <= i < |s| ==> IsDigit(s[i])
  }

  function DigitValue(c: char): (d: nat)
    requires IsDigit(c)
    ensures d < 10
  {
    c as int - '0' as int
  }

  function DigitChar(d: nat): (c: char)
    requires d < 10
    ensures IsDigit(c) && DigitValue(c) == d
  {
    ('0' as int + d) as char
  }

  lemma DigitCharOfValue(c: char)
    requires IsDigit(c)
    ensures DigitChar(DigitValue(c)) == c
  {
  }

  /** parseInt(s, 10) for a string of decimal digits (the empty string reads as 0 here;
      the callers never pass one). */
  function ParseDecimal(s: string): nat
    requires AllDigits(s)
  {
    if s == [] then 0 else ParseDecimal(s[..|s| - 1]) * 10 + DigitValue(s[|s| - 1])
  }

  /** String(n) for a non-negative integer: no sign and no leading zero. */
  function DecimalString(n: nat): (r: string)
    ensures AllDigits(r) && 1 <= |r|
  {
    if n < 10 then [DigitChar(n)] else DecimalString(n / 10) + [DigitChar(n % 10)]
  }

  /** parseInt reads back the number String wrote. */
  lemma {:induction false} DecimalStringValue(n: nat)
    ensures ParseDecimal(DecimalString(n)) == n
  {
    var r := DecimalString(n);
    if n >= 10 {
      DecimalStringValue(n / 10);
      assert r[..|r| - 1] == DecimalString(n / 10);
    }
  }

  /** One digit below 10, two digits from 10 to 99, more from 100 on. */
  lemma {:induction false} DecimalStringLength(n: nat)
    ensures n < 10 <==> |DecimalString(n)| == 1
    ensures n < 100 <==> |DecimalString(n)| <= 2
  {
    if n >= 10 {
      DecimalStringLength(n / 10);
    }
  }

  function Zeros(k: nat): (z: string)
    ensures |z| == k
  {
    if k == 0 then [] else Zeros(k - 1) + ['0']
  }

  /** s.padStart(2, '0'). */
  function PadStart2(s: string): string {
    if |s| >= 2 then s else Zeros(2 - |s|) + s
  }

  /** String(n).padStart(2, '0'): the two-digit field used for months, days,
      12-hour hours and countdown fields. */
  function TwoDigits(n: nat): string {
    PadStart2(DecimalString(n))
  }

  /** Below 100 the padded field is the tens digit followed by the units digit. */
  lemma TwoDigitsChars(n: nat)
    requires n < 100
    ensures TwoDigits(n) == [DigitChar(n / 10), DigitChar(n % 10)]
  {
    if n < 10 {
      assert DecimalString(n) == [DigitChar(n)];
      assert Zeros(1) == ['0'];
    } else {
      assert DecimalString(n / 10) == [DigitChar(n / 10)];
      assert DecimalString(n) == [DigitChar(n / 10), DigitChar(n % 10)];
    }
  }

  /** Leading zeros do not change the value parseInt reads. */
  lemma {:induction false} LeadingZeros(k: nat, s: string)
    requires AllDigits(s)
    ensures AllDigits(Zeros(k) + s)
    ensures ParseDecimal(Zeros(k) + s) == ParseDecimal(s)
  {
    var z := Zeros(k) + s;
    if s == [] {
      assert z == Zeros(k);
      AllZerosParse(k);
    } else {
      var init := s[..|s| - 1];
      LeadingZeros(k, init);
      assert z[..|z| - 1] == Zeros(k) + init;
    }
  }

  lemma {:induction false} AllZerosParse(k: nat)
    ensures AllDigits(Zeros(k)) && ParseDecimal(Zeros(k)) == 0
  {
    if k > 0 {
      AllZerosParse(k - 1);
      assert Zeros(k)[..k - 1] == Zeros(k - 1);
    }
  }

  /** The padded field is at least two digits long, exactly two below 100,
      and reads back as the number it shows. */
  lemma TwoDigitsValue(n: nat)
    ensures AllDigits(TwoDigits(n)) && |TwoDigits(n)| >= 2
    ensures n < 100 <==> |TwoDigits(n)| == 2
    ensures ParseDecimal(TwoDigits(n)) == n
  {
    var s := DecimalString(n);
    DecimalStringValue(n);
    DecimalStringLength(n);
    if |s| < 2 {
      LeadingZeros(2 - |s|, s);
    }
  }

  /** Reading a two-character digit string. */
  lemma ParseTwo(s: string)
    requires |s| == 2 && AllDigits(s)
    ensures ParseDecimal(s) == DigitValue(s[0]) * 10 + DigitValue(s[1])
  {
    assert s[..|s| - 1] == [s[0]];
    assert [s[0]][..0] == [];
    assert ParseDecimal([s[0]]) == DigitValue(s[0]);
  }

  /** A two-digit string is the padded form of the number it reads as: padding
      String(n) to two places rebuilds it exactly. */
  lemma TwoDigitsOfParse(s: string)
    requires |s| == 2 && AllDigits(s)
    ensures TwoDigits(ParseDecimal(s)) == s
  {
    ParseTwo(s);
    var hi, lo := DigitValue(s[0]), DigitValue(s[1]);
    var n := hi * 10 + lo;
    assert n / 10 == hi && n % 10 == lo;
    DigitCharOfValue(s[0]);
    DigitCharOfValue(s[1]);
    TwoDigitsChars(n);
  }

  /** String(n) for any integer: a minus sign before the digits of a negative number. */
  function IntString(n: int): (r: string)
    ensures |r| >= 1
  {
    if n < 0 then "-" + DecimalString(-n) else DecimalString(n)
  }

  /** Reads back what IntString writes. */
  function ParseInt(s: string): int
    requires |s| >= 1
    requires if s[0] == '-' then AllDigits(s[1..]) else AllDigits(s)
  {
    if s[0] == '-' then -(ParseDecimal(s[1..]) as int) else ParseDecimal(s)
  }

  lemma IntStringRoundTrip(n: int)
    ensures var r := IntString(n);
      (if r[0] == '-' then AllDigits(r[1..]) else AllDigits(r)) && ParseInt(r) == n
  {
    if n < 0 {
      assert IntString(n)[1..] == DecimalString(-n);
      DecimalStringValue(-n);
    } else {
      DecimalStringValue(n);
    }
  }
}
