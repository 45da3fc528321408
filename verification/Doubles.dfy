/** Doubles, and how the `toFixed` polyfill takes one apart by repeated halving. */
module Doubles {
  import opened Arithmetic
  import opened Decimal
  import opened Limbs
  import opened Rounding

  /** A double: a finite one is `z / 2^t` up to its sign. */
  datatype Double = NaN | Infinite(negative: bool) | Finite(negative: bool, z: nat, t: int)

  function Numerator(x: Double): nat
    requires x.Finite?
  {
    if x.t < 0 then x.z * Pow(2, -x.t) else x.z
  }

  function Denominator(x: Double): (den: nat)
    requires x.Finite?
    ensures den > 0
  {
    if x.t > 0 then Pow(2, x.t) else 1
  }

  /** At least 1e21 in magnitude: left to the host's `String`. */
  predicate Huge(x: Double) {
    x.Infinite? || (x.Finite? && Numerator(x) >= 1_000_000_000_000_000_000_000 * Denominator(x))
  }

  /** More than 1e-21 in magnitude. */
  predicate Visible(x: Double)
    requires x.Finite?
  {
    Numerator(x) * 1_000_000_000_000_000_000_000 > Denominator(x)
  }

  /** Every double of more than 1e-21 is normal: its mantissa has 53 bits. */
  predicate IsDouble(x: Double) {
    x.Finite? && Visible(x) ==> SAFE / 2 <= x.z < SAFE
  }

  /** In numbers: at least 10^21, with the number as `z / 2^t`. */
  lemma HugeInNumbers(x: Double)
    ensures x.Infinite? ==> Huge(x)
    ensures x.Finite? && x.t >= 0 ==> (Huge(x) <==> x.z >= 1_000_000_000_000_000_000_000 * Pow(2, x.t))
    ensures x.Finite? && x.t < 0 ==> (Huge(x) <==> x.z * Pow(2, -x.t) >= 1_000_000_000_000_000_000_000)
  {
  }

  // --------------------------------------------------------- repeated halving

  /** `a` is `n` after `t` halvings, none of them below 1. */
  predicate Halved(n: real, a: real, t: nat) {
    0.0 <= a && a * Pow(2, t) as real == n && (n < 2.0 ==> t == 0) && (n >= 1.0 ==> a >= 1.0)
  }

  lemma NoneHalved(n: real)
    requires n >= 0.0
    ensures Halved(n, n, 0)
  {
    assert Pow(2, 0) == 1;
  }

  lemma HalvedMore(n: real, a: real, t: nat, k: nat, bits: nat)
    requires Halved(n, a, t) && k >= 2 && k == Pow(2, bits) && a >= k as real
    ensures Halved(n, a / k as real, t + bits)
  {
    PowAdd(2, t, bits);
    hide Pow;
    ProductReal(Pow(2, t), k);
    Regrouped(a, Pow(2, t) as real, k as real);
  }

  lemma Regrouped(a: real, p: real, k: real)
    requires a >= k >= 2.0 && p >= 1.0
    ensures (a / k) * (p * k) == a * p && a * p >= 2.0 && a / k >= 1.0
  {
    var q := a / k;
    QuotientTimes(a, k);
    assert q * (p * k) == (q * k) * p;
    LessScaled(q, 1.0, k);
    LessScaled(p, 1.0, a);
  }

  lemma SmallPowers()
    ensures Pow(2, 12) == 4096 && Pow(2, 1) == 2
  {
    assert Pow(2, 4) == 16;
    PowAdd(2, 4, 4);
    PowAdd(2, 8, 4);
  }

  lemma HalvedDown(n: real, a: real, t: nat)
    requires Halved(n, a, t) && a < 2.0
    ensures n < 2.0 ==> t == 0
    ensures n >= 1.0 ==> Pow(2, t) as real <= n < Pow(2, t + 1) as real
  {
    SmallPowers();
    PowAdd(2, t, 1);
    hide Pow;
    var p := Pow(2, t);
    ProductReal(p, 2);
    LessScaled(a, 1.0, p as real);
    LessScaled(a, 2.0, p as real);
  }

  /** The binary logarithm, rounded down; 0 below 2. */
  method Log2(n: real) returns (t: nat)
    requires n >= 0.0
    ensures n < 2.0 ==> t == 0
    ensures n >= 1.0 ==> Pow(2, t) as real <= n < Pow(2, t + 1) as real
  {
    SmallPowers();
    hide Pow, Halved;
    NoneHalved(n);
    t := 0;
    var a := n;
    while a >= 4096.0
      invariant Halved(n, a, t)
      decreases a
    {
      HalvedMore(n, a, t, 4096, 12);
      t, a := t + 12, a / 4096.0;
    }
    while a >= 2.0
      invariant Halved(n, a, t)
      decreases a
    {
      HalvedMore(n, a, t, 2, 1);
      t, a := t + 1, a / 2.0;
    }
    HalvedDown(n, a, t);
  }

  // -------------------------------------------------- exponent and mantissa

  lemma MantissaPowers()
    ensures Pow(2, 52) == SAFE / 2 == 4503599627370496 && Pow(2, 53) == SAFE && Pow(2, 70) == 0x40_0000_0000_0000_0000
  {
    SmallPowers();
    PowAdd(2, 12, 12);
    PowAdd(2, 24, 24);
    assert Pow(2, 4) == 16;
    PowAdd(2, 48, 4);
    PowAdd(2, 52, 1);
    assert Pow(2, 5) == 32;
    PowAdd(2, 12, 5);
    PowAdd(2, 53, 17);
  }

  /** No visible double needs a larger exponent. */
  lemma LeastExponent(x: Double)
    requires x.Finite? && Visible(x) && x.z < SAFE
    ensures x.t <= 122
  {
    hide Pow;
    MantissaPowers();
    PowAdd(2, 53, 70);
    MulMonotone(x.z, SAFE, 1_000_000_000_000_000_000_000);
    if x.t > 122 {
      PowMonotone(2, 123, x.t);
    }
  }

  /** Where a number lies between powers of two, over its denominator. */
  lemma MantissaRange(x: Double)
    requires x.Finite? && SAFE / 2 <= x.z < SAFE && x.t <= 121
    ensures Pow(2, 121 - x.t) * Denominator(x) <= Numerator(x) * Pow(2, 69) < Pow(2, 122 - x.t) * Denominator(x)
  {
    hide Pow;
    MantissaPowers();
    PowAdd(2, 52, 69);
    PowAdd(2, 53, 69);
    if x.t > 0 {
      PowAdd(2, 121 - x.t, x.t);
      PowAdd(2, 122 - x.t, x.t);
      Stretched(x.z, Pow(2, 52), Pow(2, 53), 1, Pow(2, 69));
    } else if x.t < 0 {
      PowAdd(2, 121, -x.t);
      PowAdd(2, 122, -x.t);
      Stretched(x.z, Pow(2, 52), Pow(2, 53), Pow(2, -x.t), Pow(2, 69));
    } else {
      Stretched(x.z, Pow(2, 52), Pow(2, 53), 1, Pow(2, 69));
    }
  }

  lemma Stretched(z: nat, low: nat, high: nat, s: nat, b: nat)
    requires low <= z < high && s > 0 && b > 0
    ensures (low * b) * s <= (z * s) * b < (high * b) * s
  {
    assert (z * s) * b == (z * b) * s && z * (b * s) == (z * b) * s;
    assert (low * b) * s == low * (b * s) && (high * b) * s == high * (b * s);
    assert b * s > 0;
    MulMonotone(low, z, b * s);
    MulMonotone(z + 1, high, b * s);
    assert (z + 1) * (b * s) == z * (b * s) + b * s;
  }

  /** Only one power of two lies below a number and above its half. */
  lemma LogUnique(n: real, r: nat, k: nat)
    requires Pow(2, r) as real <= n < Pow(2, r + 1) as real && Pow(2, k) as real <= n < Pow(2, k + 1) as real
    ensures r == k
  {
    hide Pow;
    if r < k {
      PowMonotone(2, r + 1, k);
    } else if k < r {
      PowMonotone(2, k + 1, r);
    }
  }

  /** What the logarithm finds for a number that is scaled up by 69 bits. */
  lemma LogFound(x: Double, n: real, r: nat)
    requires x.Finite? && SAFE / 2 <= x.z < SAFE && x.t <= 122
    requires n * Denominator(x) as real == (Numerator(x) * Pow(2, 69)) as real
    requires n < 2.0 ==> r == 0
    requires n >= 1.0 ==> Pow(2, r) as real <= n < Pow(2, r + 1) as real
    ensures r == if x.t <= 121 then 121 - x.t else 0
  {
    hide Pow, Numerator, Denominator;
    if x.t <= 121 {
      MantissaRange(x);
      LogBetween(n, Denominator(x), Numerator(x) * Pow(2, 69), 121 - x.t, r);
    } else {
      SmallNumber(x);
      Ordered(1, Denominator(x), Numerator(x) * Pow(2, 69), n);
    }
  }

  lemma LogBetween(n: real, den: nat, p: nat, k: nat, r: nat)
    requires den > 0 && n * den as real == p as real && Pow(2, k) * den <= p < Pow(2, k + 1) * den
    requires n >= 1.0 ==> Pow(2, r) as real <= n < Pow(2, r + 1) as real
    ensures r == k
  {
    hide Pow;
    PowMonotone(2, 0, k);
    PowZero();
    Ordered(Pow(2, k), den, p, n);
    Ordered(Pow(2, k + 1), den, p, n);
    LogUnique(n, r, k);
  }

  lemma PowZero()
    ensures Pow(2, 0) == 1
  {
  }

  lemma SmallNumber(x: Double)
    requires x.Finite? && x.z < SAFE && x.t == 122
    ensures Numerator(x) * Pow(2, 69) < Denominator(x)
  {
    hide Pow;
    MantissaPowers();
    PowAdd(2, 53, 69);
    MulMonotone(x.z + 1, SAFE, Pow(2, 69));
    assert (x.z + 1) * Pow(2, 69) == x.z * Pow(2, 69) + Pow(2, 69);
  }

  lemma Cleared(num: nat, den: nat, p: nat)
    requires den > 0
    ensures (num as real / den as real * p as real) * den as real == (num * p) as real
  {
    QuotientTimes(num as real, den as real);
    ProductReal(num, p);
    var q := num as real / den as real;
    assert (q * p as real) * den as real == (q * den as real) * p as real;
  }

  lemma Ordered(m: nat, den: nat, p: nat, n: real)
    requires den > 0 && n * den as real == p as real
    ensures m * den <= p <==> m as real <= n
  {
    ProductReal(m, den);
    LessScaled(n, m as real, den as real);
  }

  /** The mantissa that comes out, doubled: all 53 bits, or half of them in the last binade. */
  function TwiceMantissa(x: Double): nat
    requires x.Finite?
  {
    if x.t <= 121 then 2 * x.z else x.z
  }

  function ScaleOf(x: Double): int
    requires x.Finite?
  {
    if x.t <= 121 then x.t else 121
  }

  lemma ScaledUp(num: nat, den: nat, a: nat, b: nat, twice: nat)
    requires den > 0 && (num * a) * b * 2 == twice * den
    ensures num as real / den as real * a as real * b as real * 2.0 == twice as real
  {
    Cleared(num, den, a);
    var w := num as real / den as real * a as real;
    ProductReal(num * a, b);
    ProductReal(twice, den);
    assert (w * b as real * 2.0) * den as real == (w * den as real) * b as real * 2.0;
    Cancelled(w * b as real * 2.0, twice as real, den as real);
  }

  lemma Cancelled(x: real, y: real, k: real)
    requires k > 0.0 && x * k == y * k
    ensures x == y
  {
    LessScaled(x, y, k);
    LessScaled(y, x, k);
  }

  lemma ScaledDown(num: nat, den: nat, c: nat, b: nat, twice: nat)
    requires den > 0 && c > 0 && num * b * 2 == twice * (den * c)
    ensures num as real / den as real / c as real * b as real * 2.0 == twice as real
  {
    var v, w := num as real / den as real, num as real / den as real / c as real;
    QuotientTimes(num as real, den as real);
    QuotientTimes(v, c as real);
    ProductReal(num, b);
    ProductReal(den, c);
    ProductReal(twice, den * c);
    assert (w * b as real * 2.0) * (den as real * c as real) == ((w * c as real) * den as real) * b as real * 2.0;
    assert den * c > 0;
    Cancelled(w * b as real * 2.0, twice as real, (den * c) as real);
  }

  lemma MantissaUp(x: Double, e: nat)
    requires x.Finite? && x.t <= 122 && e > 0 && e == ScaleOf(x) - 52
    ensures (Numerator(x) * Pow(2, e)) * Pow(2, 52) * 2 == TwiceMantissa(x) * Denominator(x)
  {
    hide Pow;
    PowAdd(2, e, 52);
    var z, a, b := x.z, Pow(2, e), Pow(2, 52);
    assert (z * a) * b == z * (a * b);
    if x.t == 122 {
      PowAdd(2, 121, 1);
      SmallPowers();
      assert z * (a * b) * 2 == z * (a * b * 2);
    }
  }

  lemma MantissaDown(x: Double, e: nat)
    requires x.Finite? && x.t == 52 - e
    ensures Numerator(x) * Pow(2, 52) * 2 == TwiceMantissa(x) * (Denominator(x) * Pow(2, e))
  {
    hide Pow;
    if x.t > 0 {
      PowAdd(2, x.t, e);
      Doubled(x.z, 1, Pow(2, 52));
    } else if x.t < 0 {
      PowAdd(2, -x.t, 52);
      Doubled(x.z, Pow(2, -x.t), Pow(2, 52));
    } else {
      Doubled(x.z, 1, Pow(2, 52));
    }
  }

  lemma Doubled(z: nat, s: nat, b: nat)
    ensures (z * s) * b * 2 == (2 * z) * (s * b)
  {
    assert (z * s) * b == z * (s * b);
  }

  /**
   The binary exponent, by the logarithm of the number scaled up by 69 bits, and the
   mantissa scaled to 52 bits behind the point.  Every step is exact, since only powers
   of two are multiplied and divided.
   */
  method Decompose(x: Double) returns (t: int, twice: nat)
    requires x.Finite? && IsDouble(x) && Visible(x)
    ensures x.t <= 122 && t == ScaleOf(x) && twice == TwiceMantissa(x)
  {
    hide Pow, Numerator, Denominator, TwiceMantissa, Visible, ScaleOf;
    LeastExponent(x);
    var l := Numerator(x) as real / Denominator(x) as real;
    var e := Exponent(x, l);
    t := 52 - e;
    twice := ScaledTo(x, l, e);
  }

  method Exponent(x: Double, l: real) returns (e: int)
    requires x.Finite? && SAFE / 2 <= x.z < SAFE && x.t <= 122 && l == Numerator(x) as real / Denominator(x) as real
    ensures e == 52 - ScaleOf(x)
  {
    hide Pow, Numerator, Denominator, PowerTimes;
    var k := PowerTimes(2, 69, 1);
    var n := l * k as real;
    ScaledBy(x, l, k);
    var r := Log2(n);
    LogFound(x, n, r);
    e := (r as int) - 69;
  }

  lemma ScaledBy(x: Double, l: real, k: nat)
    requires x.Finite? && l == Numerator(x) as real / Denominator(x) as real && k == 1 * Pow(2, 69)
    ensures (l * k as real) * Denominator(x) as real == (Numerator(x) * Pow(2, 69)) as real
    ensures l * k as real >= 0.0
  {
    hide Pow, Numerator, Denominator;
    Cleared(Numerator(x), Denominator(x), Pow(2, 69));
    NonNegative(Numerator(x), Denominator(x), Pow(2, 69));
  }

  method ScaledTo(x: Double, l: real, e: int) returns (twice: nat)
    requires x.Finite? && x.t <= 122 && e == 52 - ScaleOf(x) && l == Numerator(x) as real / Denominator(x) as real
    ensures twice == TwiceMantissa(x)
  {
    hide Pow, Numerator, Denominator, TwiceMantissa;
    MantissaPowers();
    MantissaFound(x, e);
    var a := if e < 0 then l * PowerTimes(2, -e, 1) as real else l / PowerTimes(2, e, 1) as real;
    a := a * 4503599627370496.0;
    twice := (a * 2.0).Floor;
  }

  lemma NonNegative(num: nat, den: nat, p: nat)
    requires den > 0
    ensures num as real / den as real * p as real >= 0.0
  {
    assert num as real / den as real >= 0.0;
  }

  lemma MantissaFound(x: Double, e: int)
    requires x.Finite? && x.t <= 122 && e == 52 - ScaleOf(x)
    ensures e < 0 ==> Numerator(x) as real / Denominator(x) as real * Pow(2, -e) as real * Pow(2, 52) as real * 2.0
                      == TwiceMantissa(x) as real
    ensures e >= 0 ==> Numerator(x) as real / Denominator(x) as real / Pow(2, e) as real * Pow(2, 52) as real * 2.0
                       == TwiceMantissa(x) as real
  {
    hide Pow, Numerator, Denominator, TwiceMantissa;
    if e < 0 {
      MantissaUp(x, -e);
      ScaledUp(Numerator(x), Denominator(x), Pow(2, -e), Pow(2, 52), TwiceMantissa(x));
    } else {
      MantissaDown(x, e);
      ScaledDown(Numerator(x), Denominator(x), Pow(2, e), Pow(2, 52), TwiceMantissa(x));
    }
  }
}
