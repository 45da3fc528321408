/**
 Exact decimal formatting: the `toFixed` polyfill.  The double is scaled to an
 integer, multiplied by a power of ten, divided by powers of two, and rounded once
 at the end.  The result is the nearest decimal, the larger one on ties.
 */
module ToFixed {
  import opened Arithmetic
  import opened Decimal
  import opened Limbs
  import opened Doubles

  datatype Formatted = RangeError | HostText | Text(s: string)

  // ------------------------------------------------------------ specification

  /** How far the integer `m` is from `x * 10^d`, in units of the denominator. */
  function Distance(x: Double, d: nat, m: int): nat
    requires x.Finite?
  {
    var gap := m * Denominator(x) - Numerator(x) * Pow(10, d);
    if gap < 0 then -gap else gap
  }

  /** The integer nearest to `x * 10^d`, the larger one on ties. */
  ghost predicate IsNearest(x: Double, d: nat, n: nat)
    requires x.Finite?
  {
    forall m: int :: Distance(x, d, n) < Distance(x, d, m) || (Distance(x, d, n) == Distance(x, d, m) && m <= n)
  }

  lemma NearestUnique(x: Double, d: nat, n: nat, n': nat)
    requires x.Finite? && IsNearest(x, d, n) && IsNearest(x, d, n')
    ensures n == n'
  {
    assert Distance(x, d, n) <= Distance(x, d, n') <= Distance(x, d, n);
  }

  /** An integer with a decimal point before its last `d` digits. */
  function Fixed(n: nat, d: nat): string {
    if d == 0 then Numeral(n)
    else
      var p := Pow(10, d);
      Numeral(n / p) + "." + Padded(n % p, d)
  }

  /** Rounding half up is rounding to the nearest, the larger on ties. */
  lemma HalfUpIsNearest(x: Double, d: nat, n: nat)
    requires x.Finite?
    requires var num, den := Numerator(x) * Pow(10, d), Denominator(x);
             n * den * 2 <= 2 * num + den < n * den * 2 + 2 * den
    ensures IsNearest(x, d, n)
  {
    var num, den := Numerator(x) * Pow(10, d), Denominator(x);
    forall m: int
      ensures Distance(x, d, n) < Distance(x, d, m) || (Distance(x, d, n) == Distance(x, d, m) && m <= n)
    {
      hide Pow, Numerator, Denominator;
      var j := m - n;
      assert m * den == n * den + j * den;
      MulSign(j, den);
      MulSign(j + 1, den);
    }
  }

  /** The rounding step: adding one to the double of the quotient and halving. */
  lemma RoundingStep(x: nat, half: nat, q: nat, n: nat)
    requires half > 0 && q == x / half && n == (q + 1) / 2
    ensures n * (2 * half) * 2 <= 2 * x + 2 * half < n * (2 * half) * 2 + 2 * (2 * half)
  {
    var r := x % half;
    assert x == half * q + r;
    var b := q + 1 - 2 * n;
    assert 0 <= b <= 1;
    assert half * q == half * (2 * n) + half * b - half;
    assert half * (2 * n) == n * (2 * half);
    MulMonotone(b, 1, half);
  }

  // ------------------------------------------------------------------- strings

  /** Putting the point into a numeral, or padding it when it is too short. */
  lemma PointPlaced(n: nat, d: nat)
    requires d > 0
    ensures var f := Numeral(n);
            Fixed(n, d) == if |f| <= d then "0." + Times("0", d - |f|) + f
                           else f[..|f| - d] + "." + f[|f| - d..]
  {
    hide Pow, Times, Numeral, Padded;
    var f, p := Numeral(n), Pow(10, d);
    NumeralLength(n, d);
    PowPositive(10, d);
    if |f| <= d {
      DivModUnique(n, p, 0, n);
      ZeroNumeral();
      PaddedIs(n, d);
      assert "0" + "." + (Times("0", d - |f|) + f) == "0." + Times("0", d - |f|) + f;
    } else {
      var whole, frac := n / p, n % p;
      assert n == whole * p + frac;
      NumeralAppend(whole, frac, d);
      assert f == Numeral(whole) + Padded(frac, d);
    }
  }

  lemma PaddedIs(n: nat, d: nat)
    requires d > 0 && n < Pow(10, d) && |Numeral(n)| <= d
    ensures Padded(n, d) == Times("0", d - |Numeral(n)|) + Numeral(n)
  {
    hide Pow, Times, Numeral;
  }

  lemma PowerConstants()
    ensures Pow(10, 0) == 1 && Pow(2, 0) == 1
    ensures Pow(10, 7) == BASE
    ensures Pow(2, 23) == 0x80_0000
    ensures Pow(BASE, 6) == 1_000_000_000_000_000_000_000_000_000_000_000_000_000_000
    ensures Pow(10, 20) == 100_000_000_000_000_000_000
    ensures Pow(2, 19) == 0x8_0000 && Pow(2, 18) == 0x4_0000
  {
    assert Pow(10, 5) == 100_000;
    PowAdd(10, 5, 2);
    assert Pow(10, 2) == 100;
    PowAdd(10, 5, 5);
    PowAdd(10, 10, 10);
    assert Pow(BASE, 3) == 1_000_000_000_000_000_000_000;
    PowAdd(BASE, 3, 3);
    assert Pow(2, 9) == 512 && Pow(2, 10) == 1024 && Pow(2, 4) == 16;
    PowAdd(2, 9, 9);
    PowAdd(2, 9, 10);
    PowAdd(2, 19, 4);
  }

  lemma Room(twice: nat, k: nat)
    requires twice < 2 * SAFE && k <= 20
    ensures twice * Pow(10, k) + 2 < 2 * Pow(BASE, 6)
  {
    PowerConstants();
    PowMonotone(10, k, 20);
    MulMonotone(Pow(10, k), Pow(10, 20), twice);
    MulMonotone(twice, 2 * SAFE, Pow(10, 20));
  }

  lemma ScaleStep(z: nat, done: nat, k: nat)
    ensures Pow(10, k) * (z * Pow(10, done)) == z * Pow(10, done + k)
  {
    PowAdd(10, done, k);
    var a, b := Pow(10, done), Pow(10, k);
    assert b * (z * a) == z * (a * b);
  }

  lemma DivideStepTwo(n: nat, done: nat, k: nat)
    ensures n / Pow(2, done) / Pow(2, k) == n / Pow(2, done + k)
  {
    PowAdd(2, done, k);
    DivDiv(n, Pow(2, done), Pow(2, k));
  }

  lemma SmallShift(x: Double)
    requires x.Finite? && x.z >= SAFE / 2 && !Huge(x) && x.t <= 0
    ensures -x.t <= 18
  {
    PowerConstants();
    if -x.t >= 19 {
      PowMonotone(2, 19, -x.t);
      MulMonotone(SAFE / 2, x.z, Pow(2, -x.t));
    }
  }

  // -------------------------------------------------------------------- toFixed

  /** The first loop: times `10^d`, seven digits at a time. */
  method ScaleUp(acc: Accumulator, ghost twice: nat, d: nat)
    requires acc.Valid() && acc.Twice() == twice && twice < 2 * SAFE && d <= 20
    modifies acc`half, acc.h
    ensures acc.Valid() && acc.Twice() == twice * Pow(10, d)
  {
    PowerConstants();
    hide Pow, Value, AreLimbs;
    var r := d;
    assert twice * 1 == twice;
    while r >= 7
      invariant 0 <= r <= d && acc.Valid()
      invariant acc.Twice() == twice * Pow(10, d - r)
    {
      Room(twice, d - r + 7);
      ScaleStep(twice, d - r, 7);
      acc.MultiplyAdd(10_000_000, 0);
      r := r - 7;
    }
    PowMonotone(10, r, 7);
    ScaleStep(twice, d - r, r);
    Room(twice, d);
    acc.MultiplyAdd(PowerTimes(10, r, 1), 0);
  }

  /** The second loop: divided by `2^k`, 23 bits at a time. */
  method ShiftDown(acc: Accumulator, ghost twice: nat, k: nat)
    requires acc.Valid() && acc.Twice() == twice
    modifies acc`half, acc.h
    ensures acc.Valid() && acc.Twice() == 2 * (twice / 2 / Pow(2, k))
  {
    PowerConstants();
    hide Pow, Value, AreLimbs;
    var r := k;
    ghost var n := twice / 2;
    assert n / 1 == n;
    while r >= 23
      invariant 0 <= r <= k && acc.Valid()
      invariant acc.Twice() / 2 == n / Pow(2, k - r)
    {
      DivideStepTwo(n, k - r, 23);
      DivDiv(acc.Twice(), 2, 0x80_0000);
      acc.Divide(0x80_0000);
      r := r - 23;
    }
    PowMonotone(2, r, 23);
    DivideStepTwo(n, k - r, r);
    DivDiv(acc.Twice(), 2, Pow(2, r));
    acc.Divide(Pow(2, r));
  }

  /** The quotient that is rounded, from the doubled mantissa. */
  lemma QuotientFound(x: Double, d: nat)
    requires x.Finite? && 0 < ScaleOf(x) && x.t <= 122
    ensures x.t > 0
    ensures TwiceMantissa(x) * Pow(10, d) / 2 / Pow(2, ScaleOf(x) - 1) == x.z * Pow(10, d) / Pow(2, x.t - 1)
  {
    hide Pow;
    var p := Pow(10, d);
    if x.t <= 121 {
      assert (2 * x.z) * p == 2 * (x.z * p);
    } else {
      PowAdd(2, 1, 120);
      SmallPowers();
      DivDiv(x.z * p, 2, Pow(2, 120));
    }
  }

  /** The scaled and rounded integer as a numeral, for a number with a fractional scale. */
  method ScaledNumeral(x: Double, t: int, twice: nat, d: nat) returns (f: string, ghost n: nat)
    requires x.Finite? && x.z < SAFE && 0 < t == ScaleOf(x) && x.t <= 122 && twice == TwiceMantissa(x) && d <= 20
    ensures IsNearest(x, d, n) && f == Numeral(n)
  {
    hide Pow, Value, AreLimbs, IsNearest, DigitChar;
    var acc := new Accumulator();
    ghost var goal, half := x.z * Pow(10, d), Pow(2, x.t - 1);
    ghost var q := goal / half;
    MantissaRoom(x);
    acc.MultiplyAdd(0, twice);
    ScaleUp(acc, twice, d);
    QuotientFound(x, d);
    ShiftDown(acc, twice * Pow(10, d), t - 1);
    Room(twice, d);
    QuotientSmall(twice * Pow(10, d), Pow(2, t - 1));
    n := (q + 1) / 2;
    RoundedIsNearest(x, d, n);
    f := Rounded(acc, q);
  }

  /** One is added to the quotient, and the sum is halved. */
  method Rounded(acc: Accumulator, ghost q: nat) returns (f: string)
    requires acc.Valid() && acc.Twice() == 2 * q && 2 * q + 2 < 2 * Pow(BASE, 6)
    modifies acc`half, acc.h
    ensures f == Numeral((q + 1) / 2)
  {
    hide Pow, Value, AreLimbs, Numeral;
    acc.MultiplyAdd(1, 2);
    acc.Divide(2);
    f := acc.ToText();
  }

  lemma MantissaRoom(x: Double)
    requires x.Finite? && x.z < SAFE
    ensures TwiceMantissa(x) < 2 * SAFE && TwiceMantissa(x) < 2 * Pow(BASE, 6)
    ensures TwiceMantissa(x) % 2 == 1 ==> TwiceMantissa(x) / 2 < SAFE / 2
  {
    PowerConstants();
  }

  lemma QuotientSmall(twice: nat, p: nat)
    requires p > 0
    ensures 2 * (twice / 2 / p) <= twice
  {
    var n := twice / 2;
    assert n == p * (n / p) + n % p;
    MulMonotone(1, p, n / p);
  }

  lemma RoundedIsNearest(x: Double, d: nat, n: nat)
    requires x.Finite? && 0 < x.t
    requires n == (x.z * Pow(10, d) / Pow(2, x.t - 1) + 1) / 2
    ensures IsNearest(x, d, n)
  {
    var goal, half := x.z * Pow(10, d), Pow(2, x.t - 1);
    RoundingStep(goal, half, goal / half, n);
    assert Pow(2, x.t) == 2 * half;
    HalfUpIsNearest(x, d, n);
  }

  /** The same for a number that is an integer: no division, only zeros to append. */
  method WholeNumeral(x: Double, t: int, twice: nat, d: nat) returns (f: string, ghost n: nat)
    requires x.Finite? && SAFE / 2 <= x.z < SAFE && !Huge(x) && t == x.t <= 0 && twice == 2 * x.z && d <= 20
    ensures IsNearest(x, d, n) && f == Numeral(n)
  {
    hide Value, AreLimbs, IsNearest, Pow, Huge;
    var scale := Pow(2, -t);
    WholeFacts(x, d, scale);
    var acc := new Accumulator();
    acc.MultiplyAdd(0, twice);
    acc.MultiplyAdd(scale, 0);
    var whole := acc.ToText();
    var zeros := Repeat("0", d);
    f := whole + zeros;
    n := scale * x.z * Pow(10, d);
    NumeralZeros(scale * x.z, d);
  }

  lemma WholeFacts(x: Double, d: nat, scale: nat)
    requires x.Finite? && SAFE / 2 <= x.z < SAFE && !Huge(x) && x.t <= 0 && scale == Pow(2, -x.t)
    ensures 0 < scale <= BASE && scale * (BASE - 1) + scale < SAFE / 2
    ensures 0 < scale * x.z < Pow(BASE, 6) && x.z < Pow(BASE, 6)
    ensures scale * (2 * x.z) == 2 * (scale * x.z)
    ensures IsNearest(x, d, scale * x.z * Pow(10, d))
  {
    hide Pow, IsNearest;
    PowerConstants();
    SmallShift(x);
    PowMonotone(2, -x.t, 18);
    MulMonotone(scale, 0x4_0000, BASE - 1);
    WholeScale(x, scale);
    WholeNearest(x, d, scale);
  }

  lemma WholeScale(x: Double, scale: nat)
    requires x.Finite? && 0 < x.z < SAFE && 0 < scale <= 0x4_0000
    ensures 0 < scale * x.z < Pow(BASE, 6) && x.z < Pow(BASE, 6)
  {
    hide Pow;
    PowerConstants();
    MulMonotone(scale, 0x4_0000, x.z);
    MulSign(scale, x.z);
  }

  lemma WholeNearest(x: Double, d: nat, scale: nat)
    requires x.Finite? && x.t <= 0 && scale == Pow(2, -x.t)
    ensures IsNearest(x, d, scale * x.z * Pow(10, d))
  {
    hide IsNearest;
    assert Pow(2, 0) == 1;
    hide Pow;
    assert scale * x.z == Numerator(x);
    HalfUpIsNearest(x, d, scale * x.z * Pow(10, d));
  }

  /** `Number.prototype.toFixed` with the integer part of its argument. */
  method ToFixed(x: Double, d: int) returns (r: Formatted)
    requires IsDouble(x)
    ensures d < 0 || d > 20 ==> r == RangeError
    ensures 0 <= d <= 20 && x.NaN? ==> r == Text("NaN")
    ensures 0 <= d <= 20 && Huge(x) ==> r == HostText
    ensures 0 <= d <= 20 && x.Finite? && !Huge(x) ==>
              exists n: nat :: IsNearest(x, d, n) && r == Text((if x.negative && x.z > 0 then "-" else "") + Fixed(n, d))
  {
    hide Visible, Numeral, Times, IsNearest, Fixed, Numerator, Denominator;
    if d < 0 || d > 20 {
      return RangeError;
    }
    if x.NaN? {
      return Text("NaN");
    }
    if Huge(x) {
      return HostText;
    }
    var sign := if x.negative && x.z > 0 then "-" else "";
    var f, n := NumeralOf(x, d);
    if d > 0 {
      PointPlaced(n, d);
      var s := |f|;
      if s <= d {
        var zeros := Repeat("0", d - s);
        f := sign + ("0." + zeros + f);
      } else {
        f := sign + (f[..s - d] + "." + f[s - d..]);
      }
    } else {
      FixedWhole(n);
      f := sign + f;
    }
    r := Text(f);
  }

  /** The digits without a point. */
  method NumeralOf(x: Double, d: nat) returns (f: string, ghost n: nat)
    requires IsDouble(x) && x.Finite? && !Huge(x) && d <= 20
    ensures IsNearest(x, d, n) && f == Numeral(n)
  {
    hide Visible, Huge, Numeral, IsNearest, Numerator, Denominator, Pow;
    f, n := "0", 0;
    ZeroNumeral();
    if Visible(x) {
      var t, twice := Decompose(x);
      if t > 0 {
        f, n := ScaledNumeral(x, t, twice, d);
      } else {
        f, n := WholeNumeral(x, t, twice, d);
      }
    } else {
      InvisibleIsZero(x, d);
    }
  }

  lemma FixedWhole(n: nat)
    ensures Fixed(n, 0) == Numeral(n)
  {
  }

  lemma InvisibleIsZero(x: Double, d: nat)
    requires x.Finite? && !Visible(x) && d <= 20
    ensures IsNearest(x, d, 0)
  {
    PowerConstants();
    PowMonotone(10, d, 20);
    hide Pow, Numerator, Denominator;
    MulMonotone(Pow(10, d), Pow(10, 20), Numerator(x));
    HalfUpIsNearest(x, d, 0);
  }

  /**
   The text has exactly `d` digits after its point, no superfluous leading zero, and
   its digits denote the integer it was made from.
   */
  lemma FixedShape(n: nat, d: nat)
    requires d > 0
    ensures var s := Fixed(n, d);
            && |s| > d + 1 && s[|s| - d - 1] == '.'
            && AllDigits(s[..|s| - d - 1]) && AllDigits(s[|s| - d..])
            && (s[0] == '0' ==> |s| == d + 2)
            && Number(s[..|s| - d - 1]) == n / Pow(10, d)
            && Number(s[|s| - d..]) == n % Pow(10, d)
  {
    var p := Pow(10, d);
    hide Numeral, Number, Padded, AllDigits, Pow;
    var whole, frac := Numeral(n / p), Padded(n % p, d);
    NumeralDenotes(n / p);
    PaddedDenotes(n % p, d);
    var s := whole + "." + frac;
    assert s[..|s| - d - 1] == whole && s[|s| - d..] == frac;
    if s[0] == '0' {
      assert n / p == 0;
      ZeroNumeral();
    }
  }

  lemma ZeroNumeral()
    ensures Numeral(0) == "0"
  {
  }

  lemma PaddedDenotes(n: nat, k: nat)
    requires k >= 1 && n < Pow(10, k)
    ensures Number(Padded(n, k)) == n && AllDigits(Padded(n, k))
  {
    hide Number, Numeral, AllDigits, Times, Pow, Padded;
    NumeralLength(n, k);
    NumeralDenotes(n);
    PaddedIs(n, k);
    ZerosInFront(k - |Numeral(n)|, Numeral(n));
  }

  lemma {:induction false} ZerosInFront(k: nat, s: string)
    ensures Number(Times("0", k) + s) == Number(s)
    ensures AllDigits(s) ==> AllDigits(Times("0", k) + s)
    decreases |s|
  {
    var zeros := Times("0", k);
    OnlyZeros(k);
    ZerosAreDigits(k);
    if s == "" {
      assert zeros + s == zeros;
    } else {
      ZerosInFront(k, s[..|s| - 1]);
      hide Times;
      var t := zeros + s;
      assert t[..|t| - 1] == zeros + s[..|s| - 1];
    }
  }

  lemma {:induction false} OnlyZeros(k: nat)
    ensures Number(Times("0", k)) == 0
  {
    if k == 0 {
    } else {
      OnlyZeros(k - 1);
      TimesSnoc("0", k - 1);
      var shorter := Times("0", k - 1);
      hide Times;
      assert (shorter + "0")[..k - 1] == shorter;
    }
  }

  lemma {:induction false} ZerosAreDigits(k: nat)
    ensures AllDigits(Times("0", k))
  {
    if k == 0 {
    } else {
      ZerosAreDigits(k - 1);
    }
  }
}
