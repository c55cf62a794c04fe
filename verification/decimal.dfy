/** Decimal numerals as the encoders print them (`printf("%d")`, `printf("%ld")`, and the
    JavaScript `'' + n` of a non-negative integer) and as the readers take them back. */
module Decimal {

  predicate IsDigit(c: char) {
    '0' <= c <= '9'
  }

  predicate AllDigits(s: string) {
    forall i :: 0 <= i < |s| ==> IsDigit(s[i])
  }

  function DigitChar(d: nat): (c: char)
    requires d < 10
    ensures IsDigit(c)
  {
    ('0' as int + d) as char
  }

  function DigitValue(c: char): (d: nat)
    requires IsDigit(c)
    ensures d < 10
  {
    c as int - '0' as int
  }

  /** The numeral of `n`: no sign, no leading zero, `"0"` for zero. */
  function Digits(n: nat): (s: string)
    ensures |s| > 0 && AllDigits(s)
    ensures |s| > 1 ==> s[0] != '0'
    decreases n
  {
    if n < 10 then [DigitChar(n)] else Digits(n / 10) + [DigitChar(n % 10)]
  }

  /** The value of a string of digits. */
  function Value(s: string): nat
    requires AllDigits(s)
  {
    if |s| == 0 then 0 else Value(s[..|s| - 1]) * 10 + DigitValue(s[|s| - 1])
  }

  /** Reading a numeral back gives the number. */
  lemma {:induction false} ValueOfDigits(n: nat)
    ensures Value(Digits(n)) == n
    decreases n
  {
    if n >= 10 {
      ValueOfDigits(n / 10);
      var s := Digits(n);
      assert s[..|s| - 1] == Digits(n / 10);
    }
  }

  /** A numeral is the only way to write its value: a digit string without a leading zero is
      the numeral of its value. */
  lemma {:induction false} DigitsOfValue(s: string)
    requires |s| > 0 && AllDigits(s) && (|s| > 1 ==> s[0] != '0')
    ensures Digits(Value(s)) == s
    decreases |s|
  {
    var n := Value(s);
    var p := s[..|s| - 1];
    if |s| == 1 {
      assert p == [];
      assert DigitChar(DigitValue(s[0])) == s[0];
      assert s == [s[0]];
    } else {
      assert p[0] == s[0];
      DigitsOfValue(p);
      ValueLowerBound(p);
      assert n / 10 == Value(p) && n % 10 == DigitValue(s[|s| - 1]);
      assert DigitChar(DigitValue(s[|s| - 1])) == s[|s| - 1];
    }
  }

  /** A numeral of two or more digits is at least 10. */
  lemma {:induction false} ValueLowerBound(s: string)
    requires |s| > 0 && AllDigits(s) && (|s| > 1 ==> s[0] != '0')
    ensures |s| > 1 ==> Value(s) >= 10
    ensures Value(s) > 0 || |s| == 1
    decreases |s|
  {
    if |s| > 1 {
      var p := s[..|s| - 1];
      assert p[0] == s[0];
      ValueLowerBound(p);
      if |p| == 1 {
        assert p[..0] == [];
      }
    }
  }
}
