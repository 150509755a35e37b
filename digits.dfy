/**
 * Decimal digit strings: the value of a digit string, Go's `%d` rendering of
 * a natural number, fixed-width zero-padded rendering, and the length of a
 * leading run of digits.
 */
module Digits {

  predicate IsDigit(c: char) {
    '0' <= c <= '9'
  }

  predicate AllDigits(s: string) {
    forall i :: 0 <= i < |s| ==> IsDigit(s[i])
  }

  function DigitValue(c: char): (d: nat)
    requires IsDigit(c)
    ensures d < 10
  {
    c as int - '0' as int
  }

  function DigitChar(d: nat): (c: char)
    requires d < 10
    ensures IsDigit(c) && DigitValue(c) == d
  {
    ('0' as int + d) as char
  }

  function Pow10(k: nat): (p: nat)
    ensures p >= 1
  {
    if k == 0 then 1 else 10 * Pow10(k - 1)
  }

  /** The number a string of decimal digits denotes (most significant first). */
  function Value(s: string): (n: nat)
    requires AllDigits(s)
    ensures n < Pow10(|s|)
  {
    if s == [] then 0 else Value(s[..|s| - 1]) * 10 + DigitValue(s[|s| - 1])
  }

  /**
   * Go's `%d` for a non-negative integer: the shortest decimal digit string,
   * with no zero padding.
   */
  function Decimal(n: nat): (r: string)
    ensures |r| >= 1 && AllDigits(r)
    ensures Value(r) == n
    ensures r[0] == '0' ==> r == "0"
    decreases n
  {
    if n < 10 then [DigitChar(n)]
    else
      var front := Decimal(n / 10);
      var r := front + [DigitChar(n % 10)];
      assert r[..|r| - 1] == front;
      r
  }

  /** `n` written with exactly `width` digits, zero-padded on the left. */
  function Padded(n: nat, width: nat): (r: string)
    requires n < Pow10(width)
    ensures |r| == width && AllDigits(r)
    ensures Value(r) == n
    decreases width
  {
    if width == 0 then ""
    else
      var front := Padded(n / 10, width - 1);
      var r := front + [DigitChar(n % 10)];
      assert r[..|r| - 1] == front;
      r
  }

  /** The two digits of a two-digit field, spelled out as `text`. */
  lemma PaddedTwo(n: nat, text: string)
    requires n < 100 && text == [DigitChar(n / 10), DigitChar(n % 10)]
    ensures Padded(n, 2) == text
  {
    assert Padded(n / 10, 1) == [DigitChar(n / 10)];
  }

  /** The four digits of a four-digit field, spelled out as `text`. */
  lemma PaddedFour(n: nat, text: string)
    requires n < 10000
    requires text == [DigitChar(n / 1000), DigitChar(n / 100 % 10), DigitChar(n / 10 % 10), DigitChar(n % 10)]
    ensures Padded(n, 4) == text
  {
    var m := n / 100;
    assert n / 10 / 10 == m;
    PaddedTwo(m, [DigitChar(m / 10), DigitChar(m % 10)]);
    assert m / 10 == n / 1000 && m % 10 == n / 100 % 10;
  }

  /** The length of the longest prefix of `s` made of digits. */
  function LeadingDigits(s: string): (k: nat)
    ensures k <= |s|
    ensures AllDigits(s[..k])
    ensures k < |s| ==> !IsDigit(s[k])
  {
    if s == [] || !IsDigit(s[0]) then 0
    else
      var k := 1 + LeadingDigits(s[1..]);
      assert s[..k] == [s[0]] + s[1..][..k - 1];
      k
  }

  /** A digit string can be read back from the front of any text that does not go on with a digit. */
  lemma {:induction false} LeadingDigitsOfAppend(a: string, b: string)
    requires AllDigits(a)
    requires b == [] || !IsDigit(b[0])
    ensures LeadingDigits(a + b) == |a|
  {
    if a != [] {
      assert (a + b)[1..] == a[1..] + b;
      LeadingDigitsOfAppend(a[1..], b);
    }
  }

  /** Zero-padding a digit string's value to the string's own width gives the string back. */
  lemma {:induction false} PaddedOfValue(s: string)
    requires AllDigits(s)
    ensures Padded(Value(s), |s|) == s
    decreases |s|
  {
    if s != [] {
      var front, c := s[..|s| - 1], s[|s| - 1];
      var n := Value(s);
      assert n == Value(front) * 10 + DigitValue(c);
      SplitLastDigit(Value(front), DigitValue(c));
      calc {
        Padded(n, |s|);
        Padded(n / 10, |front|) + [DigitChar(n % 10)];
        { PaddedOfValue(front); }
        front + [DigitChar(DigitValue(c))];
        front + [c];
        s;
      }
    }
  }

  lemma SplitLastDigit(a: nat, d: nat)
    requires d < 10
    ensures (a * 10 + d) / 10 == a && (a * 10 + d) % 10 == d
  {
  }

  /**
   * `Decimal` is the only unpadded rendering: a digit string without a
   * leading zero (other than "0" itself) is the `%d` of its value.
   */
  lemma {:induction false} DecimalOfValue(s: string)
    requires |s| >= 1 && AllDigits(s)
    requires s[0] == '0' ==> s == "0"
    ensures Decimal(Value(s)) == s
    decreases |s|
  {
    if |s| == 1 {
      assert s[..0] == [];
    } else {
      var front, c := s[..|s| - 1], s[|s| - 1];
      assert front[0] == s[0];
      ValueLowerBound(front);
      var n := Value(s);
      assert n == Value(front) * 10 + DigitValue(c);
      SplitLastDigit(Value(front), DigitValue(c));
      assert n >= 10;
      calc {
        Decimal(n);
        Decimal(n / 10) + [DigitChar(n % 10)];
        { DecimalOfValue(front); }
        front + [DigitChar(DigitValue(c))];
        front + [c];
        s;
      }
    }
  }

  /** A digit string that starts with a non-zero digit denotes a value of at least 10^(|s|-1). */
  lemma {:induction false} ValueLowerBound(s: string)
    requires |s| >= 1 && AllDigits(s) && s[0] != '0'
    ensures Value(s) >= Pow10(|s| - 1)
    decreases |s|
  {
    if |s| > 1 {
      var front := s[..|s| - 1];
      assert front[0] == s[0];
      ValueLowerBound(front);
    }
  }

  /** On a number of exactly `width` digits, `%d` and zero padding to `width` agree. */
  lemma {:induction false} DecimalOfPadded(n: nat, width: nat)
    requires width >= 1 && Pow10(width - 1) <= n < Pow10(width)
    ensures Decimal(n) == Padded(n, width)
    decreases width
  {
    if width == 1 {
      assert Padded(n / 10, 0) == [];
    } else {
      assert Pow10(width - 1) == 10 * Pow10(width - 2);
      assert n >= 10;
      DecimalOfPadded(n / 10, width - 1);
    }
  }

  /** The `%d` of a two-digit number, spelled out as `text`. */
  lemma DecimalTwo(n: nat, text: string)
    requires 10 <= n < 100 && text == [DigitChar(n / 10), DigitChar(n % 10)]
    ensures Decimal(n) == text
  {
    assert Pow10(1) == 10 && Pow10(2) == 100;
    DecimalOfPadded(n, 2);
    PaddedTwo(n, text);
  }

  /** The `%d` of a four-digit number, spelled out as `text`. */
  lemma DecimalFour(n: nat, text: string)
    requires 1000 <= n < 10000
    requires text == [DigitChar(n / 1000), DigitChar(n / 100 % 10), DigitChar(n / 10 % 10), DigitChar(n % 10)]
    ensures Decimal(n) == text
  {
    assert Pow10(3) == 1000 && Pow10(4) == 10000;
    DecimalOfPadded(n, 4);
    PaddedFour(n, text);
  }
}
