/** Fixed-width decimal numerals, as written in the numeric fields of a time layout. */
module Decimal {

  predicate IsDigit(c: char) {
    '0' <= c <= '9'
  }

  predicate AllDigits(s: string) {
    forall i :: 0 <= i < |s| ==> IsDigit(s[i])
  }

  lemma AllDigitsSlice(s: string, i: int, j: int)
    requires AllDigits(s) && 0 <= i <= j <= |s|
    ensures AllDigits(s[i..j])
  {
    forall k | 0 <= k < j - i
      ensures IsDigit(s[i..j][k])
    {
      assert s[i..j][k] == s[i + k];
    }
  }

  function DigitValue(c: char): (v: nat)
    requires IsDigit(c)
    ensures v < 10
  {
    c as int - '0' as int
  }

  function DigitChar(v: nat): (c: char)
    requires v < 10
    ensures IsDigit(c) && DigitValue(c) == v
  {
    ('0' as int + v) as char
  }

  function Pow10(n: nat): (p: nat)
    ensures p >= 1
  {
    if n == 0 then 1 else 10 * Pow10(n - 1)
  }

  /** The number a string of digits denotes, most significant digit first;
      it is below 10 to the power of the string's length. */
  function Value(s: string): (v: nat)
    requires AllDigits(s)
    ensures v < Pow10(|s|)
  {
    if s == [] then 0 else Value(s[..|s| - 1]) * 10 + DigitValue(s[|s| - 1])
  }

  /** The last `width` decimal digits of `n`, padded with leading zeros. */
  function Digits(n: nat, width: nat): (s: string)
    ensures |s| == width && AllDigits(s)
  {
    if width == 0 then "" else Digits(n / 10, width - 1) + [DigitChar(n % 10)]
  }

  /** Writing a number that fits in `width` digits and reading it back gives the number. */
  lemma {:induction false} ValueOfDigits(n: nat, width: nat)
    requires n < Pow10(width)
    ensures Value(Digits(n, width)) == n
  {
    if width > 0 {
      var s := Digits(n, width);
      assert s[..|s| - 1] == Digits(n / 10, width - 1);
      assert s[|s| - 1] == DigitChar(n % 10);
      TenthFits(n, width);
      ValueOfDigits(n / 10, width - 1);
      assert Value(s) == n / 10 * 10 + n % 10;
    }
  }

  /** Dropping the last digit of a number that fits in `width` digits leaves one that fits
      in `width - 1`. */
  lemma TenthFits(n: nat, width: nat)
    requires width > 0 && n < Pow10(width)
    ensures n == n / 10 * 10 + n % 10
    ensures n / 10 < Pow10(width - 1)
  {
    var p := Pow10(width - 1);
    assert Pow10(width) == 10 * p;
  }

  lemma DivModTen(q: nat, d: nat)
    requires d < 10
    ensures (q * 10 + d) / 10 == q && (q * 10 + d) % 10 == d
  {
  }

  /** Reading a string of digits and writing the value back at the same width gives the string. */
  lemma {:induction false} DigitsOfValue(s: string)
    requires AllDigits(s)
    ensures Digits(Value(s), |s|) == s
  {
    if s != [] {
      var init, last := s[..|s| - 1], s[|s| - 1];
      DigitsOfValue(init);
      var q, d := Value(init), DigitValue(last);
      assert Value(s) == q * 10 + d;
      DivModTen(q, d);
      calc {
        Digits(Value(s), |s|);
        Digits(q, |s| - 1) + [DigitChar(d)];
        init + [last];
      }
      assert s == init + [last];
    }
  }
}
