/**
 Powers, decimal numerals and repeated strings: the vocabulary in which `toFixed`
 is specified.
 */
module Decimal {

  function Pow(b: nat, e: nat): (r: nat)
    ensures b > 0 ==> r > 0
  {
    if e == 0 then 1 else
      var p := Pow(b, e - 1);
      PowPositive(b, p);
      b * p
  }

  lemma PowPositive(b: nat, p: nat)
    ensures b > 0 && p > 0 ==> b * p > 0
  {
  }

  lemma {:induction false} PowAdd(b: nat, m: nat, n: nat)
    ensures Pow(b, m + n) == Pow(b, m) * Pow(b, n)
  {
    if m == 0 {
      assert 1 * Pow(b, n) == Pow(b, n);
    } else {
      PowAdd(b, m - 1, n);
      var p, q := Pow(b, m - 1), Pow(b, n);
      assert Pow(b, m + n) == b * Pow(b, m - 1 + n);
      assert b * (p * q) == (b * p) * q;
    }
  }

  lemma {:induction false} PowMonotone(b: nat, m: nat, n: nat)
    requires b >= 1 && m <= n
    ensures Pow(b, m) <= Pow(b, n)
  {
    if m == n {
    } else {
      PowMonotone(b, m, n - 1);
      var p := Pow(b, n - 1);
      assert b * p >= 1 * p;
    }
  }

  lemma {:induction false} PowSquare(b: nat, k: nat)
    ensures Pow(b * b, k) == Pow(b, 2 * k)
  {
    if k == 0 {
    } else {
      PowSquare(b, k - 1);
      var p := Pow(b, 2 * (k - 1));
      assert Pow(b, 2 * k) == b * Pow(b, 2 * k - 1) == b * (b * p);
      assert b * (b * p) == (b * b) * p;
    }
  }

  // ------------------------------------------------------------------ numerals

  function DigitChar(d: nat): char
    requires d < 10
  {
    ('0' as int + d) as char
  }

  function DigitValue(c: char): nat {
    if '0' <= c <= '9' then c as int - '0' as int else 0
  }

  /** `String(n)` of a non-negative integer. */
  function Numeral(n: nat): (s: string)
    ensures |s| >= 1
  {
    if n < 10 then [DigitChar(n)] else Numeral(n / 10) + [DigitChar(n % 10)]
  }

  /** The number a string of digits denotes. */
  function Number(s: string): nat {
    if s == "" then 0 else 10 * Number(s[..|s| - 1]) + DigitValue(s[|s| - 1])
  }

  predicate AllDigits(s: string) {
    forall i :: 0 <= i < |s| ==> '0' <= s[i] <= '9'
  }

  lemma {:induction false} NumeralDenotes(n: nat)
    ensures Number(Numeral(n)) == n
    ensures AllDigits(Numeral(n))
    ensures Numeral(n)[0] == '0' <==> n == 0
  {
    if n >= 10 {
      NumeralDenotes(n / 10);
      var s := Numeral(n);
      assert s[..|s| - 1] == Numeral(n / 10);
      assert s[0] == Numeral(n / 10)[0];
    } else {
      assert Numeral(n)[..0] == "";
    }
  }

  lemma {:induction false} NumeralLength(n: nat, k: nat)
    requires k >= 1
    ensures |Numeral(n)| <= k <==> n < Pow(10, k)
  {
    if k == 1 {
      assert Pow(10, 1) == 10;
    } else if n >= 10 {
      NumeralLength(n / 10, k - 1);
      var p := Pow(10, k - 1);
      assert Pow(10, k) == 10 * p;
      assert n < 10 * p <==> n / 10 < p;
    } else {
      PowMonotone(10, 1, k);
      assert Pow(10, 1) == 10;
    }
  }

  /** A string repeated. */
  function Times(s: string, n: nat): (r: string)
    ensures |r| == n * |s|
  {
    if n == 0 then "" else
      TimesLength(n, |s|);
      s + Times(s, n - 1)
  }

  lemma TimesLength(n: nat, k: nat)
    requires n > 0
    ensures k + (n - 1) * k == n * k
  {
  }

  lemma {:induction false} TimesDouble(s: string, n: nat)
    ensures Times(s + s, n) == Times(s, 2 * n)
  {
    if n == 0 {
    } else {
      TimesDouble(s, n - 1);
      assert Times(s, 2 * n) == s + (s + Times(s, 2 * n - 2));
    }
  }

  lemma {:induction false} TimesSnoc(s: string, n: nat)
    ensures Times(s, n) + s == Times(s, n + 1) == s + Times(s, n)
  {
    if n > 0 {
      TimesSnoc(s, n - 1);
      assert s + Times(s, n - 1) + s == s + (Times(s, n - 1) + s);
    } else {
      assert "" + s == s == s + "";
    }
  }

  /** A numeral with leading zeros up to width `k`. */
  function Padded(n: nat, k: nat): (s: string)
    requires n < Pow(10, k) && k >= 1
    ensures |s| == k
  {
    NumeralLength(n, k);
    Times("0", k - |Numeral(n)|) + Numeral(n)
  }

  lemma PaddedStep(n: nat, k: nat)
    requires k >= 2 && n < Pow(10, k)
    ensures n / 10 < Pow(10, k - 1)
    ensures Padded(n, k) == Padded(n / 10, k - 1) + [DigitChar(n % 10)]
  {
    assert Pow(10, k) == 10 * Pow(10, k - 1);
    NumeralLength(n, k);
    NumeralLength(n / 10, k - 1);
    if n < 10 {
      var zeros := Times("0", k - 2);
      assert Numeral(n / 10) == "0";
      TimesSnoc("0", k - 2);
      assert Padded(n, k) == Times("0", k - 1) + [DigitChar(n)];
    } else {
      var zeros := Times("0", k - |Numeral(n)|);
      assert zeros + (Numeral(n / 10) + [DigitChar(n % 10)]) == (zeros + Numeral(n / 10)) + [DigitChar(n % 10)];
    }
  }

  lemma LastDigit(a: nat, b: nat, p: nat)
    requires a > 0 && p > 0
    ensures var n := a * (10 * p) + b;
            n >= 10 && n / 10 == a * p + b / 10 && n % 10 == b % 10
  {
    assert a * (10 * p) == 10 * (a * p);
    assert a * p == (a - 1) * p + p;
  }

  lemma OneDigit(a: nat, b: nat)
    requires a > 0 && b < Pow(10, 1)
    ensures Numeral(a * Pow(10, 1) + b) == Numeral(a) + Padded(b, 1)
  {
    assert Pow(10, 1) == 10;
    assert Padded(b, 1) == [DigitChar(b)];
    assert (a * 10 + b) / 10 == a && (a * 10 + b) % 10 == b;
  }

  /** Appending a block of `k` digits to a numeral. */
  lemma {:induction false} NumeralAppend(a: nat, b: nat, k: nat)
    requires a > 0 && k >= 1 && b < Pow(10, k)
    ensures Numeral(a * Pow(10, k) + b) == Numeral(a) + Padded(b, k)
  {
    var p := Pow(10, k - 1);
    var n := a * Pow(10, k) + b;
    LastDigit(a, b, p);
    if k == 1 {
      OneDigit(a, b);
    } else {
      PaddedStep(b, k);
      NumeralAppend(a, b / 10, k - 1);
      hide Pow, Padded;
      assert Numeral(n) == Numeral(n / 10) + [DigitChar(n % 10)];
    }
  }

  lemma {:induction false} ZerosPadded(k: nat)
    requires k >= 1
    ensures Padded(0, k) == Times("0", k)
  {
    TimesSnoc("0", k - 1);
  }

  lemma NumeralZeros(a: nat, k: nat)
    requires a > 0
    ensures Numeral(a) + Times("0", k) == Numeral(a * Pow(10, k))
  {
    if k == 0 {
      assert a * 1 == a;
    } else {
      NumeralAppend(a, 0, k);
      ZerosPadded(k);
    }
  }

  // -------------------------------------------------------------------- loops

  /** The `repeat` polyfill: binary doubling. */
  method Repeat(s: string, count: nat) returns (r: string)
    requires count < 0x1_0000_0000
    ensures r == Times(s, count)
  {
    var t, i := s, count;
    r := "";
    while i > 0
      invariant r + Times(t, i) == Times(s, count)
    {
      if i % 2 == 1 {
        assert r + (t + Times(t, i - 1)) == (r + t) + Times(t, i - 1);
        r := r + t;
      }
      TimesDouble(t, i / 2);
      assert 2 * (i / 2) == i - i % 2;
      i := i / 2;
      if i > 0 {
        t := t + t;
      }
    }
  }

  /** The power function of the `toFixed` polyfill: `a` times `e` to the power `t`, by squaring. */
  function PowerTimes(e: nat, t: nat, a: nat): (r: nat)
    ensures r == a * Pow(e, t)
    decreases t
  {
    if t == 0 then a
    else if t % 2 == 1 then
      PowerOdd(e, t, a);
      PowerTimes(e, t - 1, a * e)
    else
      PowSquare(e, t / 2);
      PowerTimes(e * e, t / 2, a)
  }

  lemma PowerOdd(e: nat, t: nat, a: nat)
    requires t > 0
    ensures (a * e) * Pow(e, t - 1) == a * Pow(e, t)
  {
    var p := Pow(e, t - 1);
    assert (a * e) * p == a * (e * p);
  }
}
