/**
 The big-number register of the `toFixed` polyfill: an integer held in six limbs of
 seven decimal digits, multiplied and divided in place.
 */
module Limbs {
  import opened Arithmetic
  import opened Decimal

  const BASE: nat := 10_000_000

  /** The integers a double represents exactly.  Every intermediate value must be one. */
  const SAFE: nat := 0x20_0000_0000_0000

  type Exact = n: int | 0 <= n < SAFE

  // ---------------------------------------------------------------- limb values

  predicate AreLimbs(h: seq<Exact>) {
    |h| == 6 && forall i :: 0 <= i < 6 ==> h[i] < BASE
  }

  /** The number the limbs from `i` up denote, the lowest first. */
  function ValueFrom(h: seq<Exact>, i: nat): nat
    requires i <= |h|
    decreases |h| - i
  {
    if i == |h| then 0 else h[i] + BASE * ValueFrom(h, i + 1)
  }

  function Value(h: seq<Exact>): nat {
    ValueFrom(h, 0)
  }

  /** The number the limbs below `i` denote. */
  function ValueBelow(h: seq<Exact>, i: nat): nat
    requires i <= |h|
  {
    if i == 0 then 0 else ValueBelow(h, i - 1) + h[i - 1] * Pow(BASE, i - 1)
  }

  lemma {:induction false} ValueSplit(h: seq<Exact>, i: nat)
    requires i <= |h|
    ensures Value(h) == ValueBelow(h, i) + Pow(BASE, i) * ValueFrom(h, i)
  {
    if i == 0 {
      assert 1 * ValueFrom(h, 0) == ValueFrom(h, 0);
    } else {
      ValueSplit(h, i - 1);
      var p, v := Pow(BASE, i - 1), ValueFrom(h, i);
      Distribute(p, h[i - 1], BASE, v);
      hide ValueBelow;
      assert Pow(BASE, i) == BASE * p;
    }
  }

  lemma {:induction false} ValueBelowPrefix(g: seq<Exact>, h: seq<Exact>, i: nat)
    requires i <= |g| && i <= |h| && g[..i] == h[..i]
    ensures ValueBelow(g, i) == ValueBelow(h, i)
  {
    if i == 0 {
    } else {
      assert g[..i][i - 1] == h[..i][i - 1];
      assert g[..i - 1] == g[..i][..i - 1] == h[..i - 1];
      ValueBelowPrefix(g, h, i - 1);
    }
  }

  lemma {:induction false} ValueFromSuffix(g: seq<Exact>, h: seq<Exact>, i: nat)
    requires |g| == |h| && i <= |g| && g[i..] == h[i..]
    ensures ValueFrom(g, i) == ValueFrom(h, i)
    decreases |h| - i
  {
    if i == |h| {
    } else {
      assert g[i..][0] == h[i..][0];
      assert g[i + 1..] == g[i..][1..] == h[i + 1..];
      ValueFromSuffix(g, h, i + 1);
    }
  }

  // ---------------------------------------------------------- the limb machine

  /**
   The register of six limbs.  A double of at least 52 bits may hold a half; only the
   lowest limb ever does, and the next division drops it.
   */
  class Accumulator {
    const h: array<Exact>
    /** The lowest limb holds a half more. */
    var half: bool

    ghost predicate Valid()
      reads h
    {
      AreLimbs(h[..])
    }

    /** Twice the number held. */
    ghost function Twice(): nat
      reads this, h
    {
      2 * Value(h[..]) + if half then 1 else 0
    }

    constructor ()
      ensures Valid() && Twice() == 0 && fresh(h)
    {
      h, half := new Exact[6](_ => 0), false;
      new;
      assert h[..] == [0, 0, 0, 0, 0, 0];
      ZeroValue(h[..], 0);
    }

    /**
     `m(e, t)`: multiply by `e` and add `t`, which is given as the number `twice` of its
     halves.  The type of `r` says that no intermediate value leaves the exactly
     representable integers; one with a half stays below half of them.
     */
    method MultiplyAdd(e: nat, twice: nat)
      requires Valid() && e <= BASE && e * (BASE - 1) + (twice + e) / 2 < SAFE
      requires (twice + if half then e else 0) % 2 == 1 ==> e * (BASE - 1) + (twice + e) / 2 < SAFE / 2
      requires e * Twice() + twice < 2 * Pow(BASE, 6)
      modifies this`half, h
      ensures Valid()
      ensures Twice() == e * old(Twice()) + twice
    {
      var carry := twice + if half then e else 0;
      ghost var held := Value(h[..]);
      MoveHalf(e, held, half, twice);
      half := carry % 2 == 1;
      MultiplyLimbs(e, carry / 2);
    }

    /** The loop, on whole limbs. */
    method MultiplyLimbs(e: nat, t: nat)
      requires Valid() && e <= BASE && e * (BASE - 1) + t < SAFE
      requires e * Value(h[..]) + t < Pow(BASE, 6)
      modifies h
      ensures Valid() && Value(h[..]) == e * old(Value(h[..])) + t
    {
      ghost var was := h[..];
      ghost var goal := e * Value(was) + t;
      var a := 0;
      var r: Exact := t;
      assert 1 * (r + e * ValueFrom(was, 0)) == goal;
      while a < 6
        invariant 0 <= a <= 6 && AreLimbs(h[..])
        invariant h[a..] == was[a..]
        invariant r <= if a == 0 then t else SAFE / BASE
        invariant ValueBelow(h[..], a) + Pow(BASE, a) * (r + e * ValueFrom(was, a)) == goal
      {
        CarryFits(e, h[a], if a == 0 then t else SAFE / BASE);
        assert h[a] == was[a];
        ghost var carry := r;
        r := r + e * h[a];
        ghost var before := h[..];
        var digit: Exact := r % BASE;
        h[a] := digit;
        assert h[..] == before[a := digit];
        ValueBelowPrefix(before, h[..], a);
        CarryStep(Pow(BASE, a), carry, e, was[a], ValueFrom(was, a + 1), BASE);
        r := r / BASE;
        a := a + 1;
      }
      ghost var p := Pow(BASE, 6);
      assert ValueFrom(was, 6) == 0;
      NoCarryOut(ValueBelow(h[..], 6), p, r);
      ValueSplit(h[..], 6);
    }

    /** `g(e)`: divide by `e`, dropping the remainder. */
    method Divide(e: nat)
      requires Valid() && 0 < e <= 0x80_0000
      modifies this`half, h
      ensures Valid() && !half
      ensures Twice() == 2 * (old(Twice()) / (2 * e))
    {
      hide Quotient;
      ghost var was := h[..];
      var t := 6;
      var a: Exact := 0;
      ghost var rest := 0;
      while t > 0
        invariant 0 <= t <= 6 && AreLimbs(h[..])
        invariant h[..t] == was[..t]
        invariant 0 <= rest < e && a == rest * BASE
        invariant ValueFrom(was, t) == e * ValueFrom(h[..], t) + rest
        decreases t
      {
        t := t - 1;
        assert h[t] == h[..t + 1][t] == was[..t + 1][t] == was[t];
        DividendFits(e, rest, h[t]);
        a := a + h[t];
        ghost var before := h[..];
        QuotientDigit(a, e, rest, was[t], BASE);
        var q: Exact := Quotient(a, e, t == 0 && half);
        h[t] := q;
        assert h[..] == before[t := q];
        DivideStep(was, before, t, e, rest, q, h[..]);
        rest := a % e;
        DividendFits(e, rest, 0);
        a := a % e * BASE;
      }
      DivModUnique(Value(was), e, Value(h[..]), rest);
      HalfDropped(Value(was), e);
      half := false;
    }

    /** `w()`: the decimal numeral of the limbs, without leading zeros. */
    method ToText() returns (t: string)
      requires Valid() && !half
      ensures t == Numeral(Value(h[..]))
    {
      t := "";
      var e := 6;
      while e > 0
        invariant 0 <= e <= 6
        invariant var v := ValueFrom(h[..], e);
                  t == if v == 0 && e > 0 then "" else Numeral(v)
        decreases e
      {
        e := e - 1;
        ghost var high := ValueFrom(h[..], e + 1);
        if t != "" || e == 0 || h[e] != 0 {
          var a := Numeral(h[e]);
          LimbNumeral(high, h[e]);
          if t == "" {
            t := a;
          } else {
            var zeros := Repeat("0", 7 - |a|);
            t := t + zeros + a;
            assert Numeral(high) + zeros + a == Numeral(high) + (zeros + a);
          }
        }
      }
    }
  }

  // --------------------------------------------------------- limb arithmetic

  /** Where the half of a number goes when it is multiplied. */
  lemma MoveHalf(e: nat, v: nat, half: bool, twice: nat)
    ensures var carry := twice + if half then e else 0;
            && carry / 2 <= (twice + e) / 2
            && 2 * (e * v + carry / 2) + carry % 2 == e * (2 * v + if half then 1 else 0) + twice
  {
    assert e * (2 * v + 1) == 2 * (e * v) + e;
    assert e * (2 * v) == 2 * (e * v);
  }

  /** The floor of the quotient of `a`, or of `a` and a half. */
  function Quotient(a: nat, e: nat, half: bool): (q: nat)
    requires e > 0
    ensures q == a / e
  {
    HalfDropped(a, e);
    if half then (2 * a + 1) / (2 * e) else a / e
  }

  /** A half does not change an integer quotient. */
  lemma HalfDropped(a: nat, e: nat)
    requires e > 0
    ensures (2 * a + 1) / (2 * e) == a / e == 2 * a / (2 * e)
  {
    var q, r := a / e, a % e;
    assert a == e * q + r;
    assert (2 * e) * q == 2 * (e * q);
    DivModUnique(2 * a, 2 * e, q, 2 * r);
    DivModUnique(2 * a + 1, 2 * e, q, 2 * r + 1);
  }

  lemma {:induction false} ZeroValue(h: seq<Exact>, i: nat)
    requires i <= |h| && forall j :: 0 <= j < |h| ==> h[j] == 0
    ensures ValueFrom(h, i) == 0
    decreases |h| - i
  {
    if i == |h| {
    } else {
      ZeroValue(h, i + 1);
    }
  }

  lemma CarryFits(e: nat, x: nat, r: nat)
    requires e <= BASE && x < BASE
    requires r <= SAFE / BASE || e * (BASE - 1) + r < SAFE
    ensures 0 <= e * x
    ensures r + e * x < SAFE && (r + e * x) / BASE <= SAFE / BASE
  {
    ProductBound(e, x, BASE);
  }

  lemma DivideStep(was: seq<Exact>, before: seq<Exact>, t: nat, e: nat, rest: nat, q: Exact, after: seq<Exact>)
    requires |was| == |before| == 6 && t < 6 && rest < e
    requires before[..t + 1] == was[..t + 1]
    requires ValueFrom(was, t + 1) == e * ValueFrom(before, t + 1) + rest
    requires after == before[t := q] && q == (rest * BASE + was[t]) / e
    ensures after[..t] == was[..t]
    ensures ValueFrom(was, t) == e * ValueFrom(after, t) + (rest * BASE + was[t]) % e
  {
    assert after[..t] == before[..t] == before[..t + 1][..t] == was[..t + 1][..t];
    ValueFromSuffix(before, after, t + 1);
    var a := rest * BASE + was[t];
    assert a == e * (a / e) + a % e;
    LongDivisionStep(was[t], rest, e, q, a % e, ValueFrom(was, t + 1), ValueFrom(after, t + 1), BASE);
  }

  lemma NoCarryOut(below: nat, p: nat, r: nat)
    requires below + p * r < p
    ensures r == 0
  {
    MulSign(r, p);
    assert r * p == p * r;
  }

  lemma DividendFits(e: nat, rest: nat, x: nat)
    requires 0 < e <= 0x80_0000 && rest < e && x < BASE
    ensures 0 <= rest * BASE && rest * BASE + x < SAFE
  {
  }

  lemma LimbNumeral(high: nat, x: nat)
    requires x < BASE
    ensures BASE == Pow(10, 7) && |Numeral(x)| <= 7
    ensures high > 0 ==> Numeral(x + BASE * high) == Numeral(high) + (Times("0", 7 - |Numeral(x)|) + Numeral(x))
    ensures high > 0 ==> x + BASE * high > 0
  {
    assert Pow(10, 7) == 10_000_000;
    NumeralLength(x, 7);
    if high > 0 {
      NumeralAppend(high, x, 7);
      assert high * BASE == BASE * high;
    }
  }
}
