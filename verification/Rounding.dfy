/** Why the quotients of doubles in the `toFixed` polyfill may be taken as quotients of integers. */
module Rounding {

  import opened Limbs

  /**
   The floor of a quotient of doubles is the integer quotient: rounding to the nearest
   double moves a quotient by at most its 2^53rd part, and an exact one not at all, which
   never takes it past an integer.
   */
  lemma FloorOfRounded(r: Exact, e: nat, y: real)
    requires e > 0
    requires var x := r as real / e as real;
             -x <= (y - x) * SAFE as real <= x && (r % e == 0 ==> y == x)
    ensures y.Floor == r / e
  {
    var x := r as real / e as real;
    QuotientTimes(r as real, e as real);
    DivisionEquation(r, e);
    Enclosed(x, y, e, r, r / e, r % e, (r / e) * e);
  }

  lemma Enclosed(x: real, y: real, e: nat, r: nat, q: nat, m: nat, below: nat)
    requires e > 0 && r < SAFE && below == q * e && r == below + m && m < e && x * e as real == r as real
    requires -x <= (y - x) * SAFE as real <= x && (m == 0 ==> y == x)
    ensures y.Floor == q
  {
    var above := below + e;
    assert (q + 1) * e == above;
    if m != 0 {
      ErrorScaled(x, y, e as real, r as real, SAFE as real);
      Apart(x, y, e as real);
    }
    FloorScaled(y, q, e, below, above);
  }

  lemma QuotientTimes(r: real, e: real)
    requires e > 0.0
    ensures (r / e) * e == r
  {
  }

  lemma DivisionEquation(r: nat, e: nat)
    requires e > 0
    ensures r == (r / e) * e + r % e && r % e < e
  {
  }

  lemma Apart(x: real, y: real, e: real)
    ensures y * e == x * e + (y - x) * e
  {
  }

  lemma LessScaled(a: real, b: real, e: real)
    requires e > 0.0
    ensures a < b <==> a * e < b * e
  {
    var x := b - a;
    assert x * e == b * e - a * e;
    assert x > 0.0 ==> x * e > 0.0;
    assert x <= 0.0 ==> x * e <= 0.0;
  }

  /** An error of at most one part in `s` of a quotient is less than one once it is multiplied out. */
  lemma ErrorScaled(x: real, y: real, e: real, r: real, s: real)
    requires e > 0.0 && 0.0 <= r < s && x * e == r && -x <= (y - x) * s <= x
    ensures -1.0 < (y - x) * e < 1.0
  {
    var z, w := (y - x) * e, (y - x) * s;
    assert z * s == w * e;
    LessScaled(x, w, e);
    LessScaled(w, -x, e);
    assert (-x) * e == -r;
    LessScaled(z, 1.0, s);
    LessScaled(-1.0, z, s);
  }

  lemma FloorScaled(y: real, q: nat, e: nat, below: nat, above: nat)
    requires e > 0 && below == q * e && above == (q + 1) * e
    requires below as real <= y * e as real < above as real
    ensures y.Floor == q
  {
    BelowScaled(y, q, e, below);
    BelowScaled(y, q + 1, e, above);
    FloorBetween(y, q);
  }

  lemma BelowScaled(y: real, q: nat, e: nat, n: nat)
    requires e > 0 && n == q * e
    ensures y < q as real <==> y * e as real < n as real
  {
    ProductReal(q, e);
    LessScaled(y, q as real, e as real);
  }

  lemma ProductReal(q: nat, e: nat)
    ensures (q * e) as real == q as real * e as real
  {
  }

  lemma FloorBetween(y: real, q: nat)
    requires q as real <= y < (q + 1) as real
    ensures y.Floor == q
  {
  }
}
