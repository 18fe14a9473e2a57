/** Decimal rendering of chunk numbers: Python's `{n:04d}` format, and the
    parse that shows distinct numbers give distinct names. */
module Decimal {

  predicate IsDigit(c: char) { '0' <= c <= '9' }

  function DigitChar(d: nat): (c: char)
    requires d < 10
    ensures IsDigit(c)
  {
    ['0', '1', '2', '3', '4', '5', '6', '7', '8', '9'][d]
  }

  function DigitValue(c: char): (d: nat)
    requires IsDigit(c)
    ensures d < 10
  {
    c as int - '0' as int
  }

  lemma DigitRoundTrip(d: nat)
    requires d < 10
    ensures DigitValue(DigitChar(d)) == d
  {
  }

  /** `str(n)`: the shortest decimal numeral of `n`, so no leading zero
      unless `n` is 0. */
  function Digits(n: nat): (s: string)
    ensures 1 <= |s|
    ensures forall i :: 0 <= i < |s| ==> IsDigit(s[i])
    ensures n >= 10 ==> s[0] != '0'
  {
    if n < 10 then [DigitChar(n)] else Digits(n / 10) + [DigitChar(n % 10)]
  }

  function Zeros(k: nat): (s: string)
    ensures |s| == k && forall i :: 0 <= i < k ==> s[i] == '0'
  {
    if k == 0 then "" else Zeros(k - 1) + "0"
  }

  /** `f"{n:04d}"`: the numeral of `n`, left-padded with zeros to width 4. */
  function Pad4(n: nat): (s: string)
    ensures forall i :: 0 <= i < |s| ==> IsDigit(s[i])
  {
    var d := Digits(n);
    (if |d| < 4 then Zeros(4 - |d|) else "") + d
  }

  /** The value of a string of digits, read left to right. */
  function Value(s: string): nat
    requires forall i :: 0 <= i < |s| ==> IsDigit(s[i])
  {
    if s == [] then 0 else 10 * Value(s[..|s| - 1]) + DigitValue(s[|s| - 1])
  }

  lemma {:induction false} DigitsValue(n: nat)
    ensures Value(Digits(n)) == n
  {
    if n < 10 {
      DigitRoundTrip(n);
    } else {
      var d := Digits(n);
      assert d[..|d| - 1] == Digits(n / 10);
      DigitsValue(n / 10);
      DigitRoundTrip(n % 10);
    }
  }

  /** Leading zeros do not change the value. */
  lemma {:induction false} LeadingZerosValue(k: nat, s: string)
    requires forall i :: 0 <= i < |s| ==> IsDigit(s[i])
    ensures Value(Zeros(k) + s) == Value(s)
  {
    var z := Zeros(k);
    if s == [] {
      assert z + s == z;
      if k > 0 {
        assert z[..k - 1] == Zeros(k - 1);
        LeadingZerosValue(k - 1, s);
        assert Zeros(k - 1) + s == Zeros(k - 1);
      }
    } else {
      var init := s[..|s| - 1];
      LeadingZerosValue(k, init);
      assert (z + s)[..|z + s| - 1] == z + init;
    }
  }

  /** The number of decimal digits of `n` is at most 4 below 10000. */
  lemma {:induction false} DigitsLength(n: nat)
    ensures n < 10000 ==> |Digits(n)| <= 4
    ensures n < 1000 ==> |Digits(n)| <= 3
    ensures n < 100 ==> |Digits(n)| <= 2
  {
    if n >= 10 {
      DigitsLength(n / 10);
    }
  }

  /** The padded numeral reads back as the number: padding never merges two
      chunk numbers into one name. */
  lemma Pad4Value(n: nat)
    ensures Value(Pad4(n)) == n
  {
    var d := Digits(n);
    DigitsValue(n);
    if |d| < 4 {
      LeadingZerosValue(4 - |d|, d);
    } else {
      assert Pad4(n) == d;
    }
  }

  /** `{n:04d}` is exactly four characters below 10000 and the plain numeral
      from there on; distinct numbers give distinct strings. */
  lemma Pad4Format(n: nat, m: nat)
    ensures n < 10000 ==> |Pad4(n)| == 4
    ensures n >= 10000 ==> Pad4(n) == Digits(n)
    ensures Pad4(n) == Pad4(m) ==> n == m
  {
    DigitsLength(n);
    Pad4Value(n);
    Pad4Value(m);
    if n >= 10000 {
      assert |Digits(n)| >= 4 by {
        if |Digits(n)| < 4 {
          DigitsSmall(n);
        }
      }
    }
  }

  /** A numeral of at most three digits stands for a number below 1000. */
  lemma {:induction false} DigitsSmall(n: nat)
    requires |Digits(n)| < 4
    ensures n < 1000
  {
    if n >= 10 {
      DigitsSmall(n / 10);
    }
  }
}
