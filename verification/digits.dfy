/** Fixed-width decimal fields, as used by the "yyyy-MM-dd" and "HH:mm" text forms. */
module Digits {

  predicate IsDigit(c: char) {
    '0' <= c <= '9'
  }

  predicate AllDigits(s: string) {
    forall i :: 0 <= i < |s| ==> IsDigit(s[i])
  }

  function Digit(n: int): (c: char)
    requires 0 <= n <= 9
    ensures IsDigit(c)
  {
    ('0' as int + n) as char
  }

  function DigitValue(c: char): (n: int)
    requires IsDigit(c)
    ensures 0 <= n <= 9
  {
    c as int - '0' as int
  }

  lemma DigitRoundTrip(n: int, c: char)
    requires 0 <= n <= 9 && IsDigit(c)
    ensures DigitValue(Digit(n)) == n
    ensures Digit(DigitValue(c)) == c
  {
  }

  /** `n` written with exactly two digits, zero-padded. */
  function Pad2(n: int): (s: string)
    requires 0 <= n <= 99
    ensures |s| == 2 && AllDigits(s)
  {
    [Digit(n / 10), Digit(n % 10)]
  }

  /** `n` written with exactly four digits, zero-padded. */
  function Pad4(n: int): (s: string)
    requires 0 <= n <= 9999
    ensures |s| == 4 && AllDigits(s)
  {
    [Digit(n / 1000), Digit(n / 100 % 10), Digit(n / 10 % 10), Digit(n % 10)]
  }

  function Value2(s: string): (n: int)
    requires |s| == 2 && AllDigits(s)
    ensures 0 <= n <= 99
  {
    10 * DigitValue(s[0]) + DigitValue(s[1])
  }

  function Value4(s: string): (n: int)
    requires |s| == 4 && AllDigits(s)
    ensures 0 <= n <= 9999
  {
    1000 * DigitValue(s[0]) + 100 * DigitValue(s[1]) + 10 * DigitValue(s[2]) + DigitValue(s[3])
  }

  /** Reading back a padded number gives the number. */
  lemma Pad2Value(n: int)
    requires 0 <= n <= 99
    ensures Value2(Pad2(n)) == n
  {
    DigitRoundTrip(n / 10, '0');
    DigitRoundTrip(n % 10, '0');
  }

  lemma Pad4Value(n: int)
    requires 0 <= n <= 9999
    ensures Value4(Pad4(n)) == n
  {
    var s := Pad4(n);
    DigitRoundTrip(n / 1000, '0');
    DigitRoundTrip(n / 100 % 10, '0');
    DigitRoundTrip(n / 10 % 10, '0');
    DigitRoundTrip(n % 10, '0');
    Decompose4(n);
  }

  lemma Decompose4(n: int)
    requires 0 <= n <= 9999
    ensures n == 1000 * (n / 1000) + 100 * (n / 100 % 10) + 10 * (n / 10 % 10) + n % 10
  {
    var a, m := n / 1000, n % 1000;
    var b, m2 := m / 100, m % 100;
    var c, d := m2 / 10, m2 % 10;
    assert n == 1000 * a + 100 * b + 10 * c + d;
    DigitsOf(a, b, c, d);
  }

  /** The four digits of `1000 * a + 100 * b + 10 * c + d` are `a`, `b`, `c` and `d`. */
  lemma DigitsOf(a: int, b: int, c: int, d: int)
    requires 0 <= a < 10 && 0 <= b < 10 && 0 <= c < 10 && 0 <= d < 10
    ensures var n := 1000 * a + 100 * b + 10 * c + d;
      n / 1000 == a && n / 100 % 10 == b && n / 10 % 10 == c && n % 10 == d
  {
    DivBy1000(a, 100 * b + 10 * c + d);
    DivBy100(10 * a + b, 10 * c + d);
    DivBy10(a, b);
    DivBy10(100 * a + 10 * b + c, d);
    DivBy10(10 * a + b, c);
  }

  lemma DivBy10(q: int, r: int)
    requires 0 <= r < 10
    ensures (10 * q + r) / 10 == q && (10 * q + r) % 10 == r
  {
  }

  lemma DivBy100(q: int, r: int)
    requires 0 <= r < 100
    ensures (100 * q + r) / 100 == q && (100 * q + r) % 100 == r
  {
  }

  lemma DivBy1000(q: int, r: int)
    requires 0 <= r < 1000
    ensures (1000 * q + r) / 1000 == q && (1000 * q + r) % 1000 == r
  {
  }

  /** Padding the value of a digit field gives the field back. */
  lemma Value2Pad(s: string)
    requires |s| == 2 && AllDigits(s)
    ensures Pad2(Value2(s)) == s
  {
    var a, b := DigitValue(s[0]), DigitValue(s[1]);
    assert Value2(s) / 10 == a && Value2(s) % 10 == b;
    DigitRoundTrip(0, s[0]);
    DigitRoundTrip(0, s[1]);
  }

  lemma Value4Pad(s: string)
    requires |s| == 4 && AllDigits(s)
    ensures Pad4(Value4(s)) == s
  {
    var n := Value4(s);
    var a, b, c, d := DigitValue(s[0]), DigitValue(s[1]), DigitValue(s[2]), DigitValue(s[3]);
    DigitsOf(a, b, c, d);
    DigitRoundTrip(0, s[0]);
    DigitRoundTrip(0, s[1]);
    DigitRoundTrip(0, s[2]);
    DigitRoundTrip(0, s[3]);
  }
}
