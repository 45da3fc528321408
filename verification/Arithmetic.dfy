/** Facts about products, quotients and remainders of integers. */
module Arithmetic {

  predicate Divides(m: nat, n: nat)
    requires m > 0
  {
    n % m == 0
  }

  lemma MulSign(j: int, m: nat)
    ensures j >= 1 ==> j * m >= m
    ensures j <= -1 ==> j * m + m <= 0
  {
    if j >= 1 {
      assert j * m == (j - 1) * m + m;
    } else if j <= -1 {
      assert j * m == (j + 1) * m - m;
    }
  }

  lemma MulMonotone(a: nat, b: nat, c: nat)
    requires a <= b
    ensures a * c <= b * c && c * a <= c * b
  {
    assert b * c == a * c + (b - a) * c;
  }

  /** Quotient and remainder are determined by the division equation. */
  lemma DivModUnique(n: nat, e: nat, q: nat, r: nat)
    requires n == e * q + r && r < e
    ensures q == n / e && r == n % e
  {
    var j := n / e - q;
    assert n == e * (n / e) + n % e;
    assert j * e == e * (n / e) - e * q;
    MulSign(j, e);
  }

  lemma NestedQuotient(n: nat, a: nat, b: nat, q: nat, k: nat, r1: nat, r2: nat)
    requires n == a * q + r1 && q == b * k + r2 && r1 < a && r2 < b
    ensures a * b > 0 && k == n / (a * b)
  {
    var ab := a * b;
    assert a * q == a * (b * k) + a * r2;
    assert a * (b * k) == ab * k;
    MulMonotone(r2, b - 1, a);
    assert a * (b - 1) == ab - a;
    DivModUnique(n, ab, k, a * r2 + r1);
  }

  /** Two truncating divisions are one by the product. */
  lemma DivDiv(n: nat, a: nat, b: nat)
    requires a > 0 && b > 0
    ensures a * b > 0 && n / a / b == n / (a * b)
  {
    NestedQuotient(n, a, b, n / a, n / a / b, n % a, n / a % b);
  }

  lemma ProductBound(e: nat, x: nat, b: nat)
    requires e <= b && x < b
    ensures 0 <= e * x <= e * (b - 1) <= b * (b - 1)
  {
    MulMonotone(x, b - 1, e);
    MulMonotone(e, b, b - 1);
  }

  lemma Remainder(n: nat, from: nat, m: nat)
    requires m > 0 && Divides(m, from) && from <= n < from + m
    ensures Divides(m, n) <==> n == from
  {
    var j := n / m - from / m;
    assert n - from == j * m + n % m;
    MulSign(j, m);
  }

  lemma NextMultiple(from: nat, m: nat)
    requires m > 0 && Divides(m, from)
    ensures Divides(m, from + m)
  {
    assert from + m == m * (from / m + 1) + 0;
    DivModUnique(from + m, m, from / m + 1, 0);
  }

  lemma Distribute(p: int, x: int, b: int, v: int)
    ensures p * (x + b * v) == x * p + (b * p) * v
  {
    assert p * (b * v) == (b * p) * v;
    assert p * (x + b * v) == p * x + p * (b * v);
  }

  // -------------------------------------------------- digits in any base `b`

  /** Multiply-and-carry of one digit, scaled by its weight `p`. */
  lemma CarryStep(p: nat, r: nat, e: nat, x: nat, v: nat, b: nat)
    requires b > 0
    ensures var s := r + e * x;
            p * (r + e * (x + b * v)) == (s % b) * p + (b * p) * (s / b + e * v)
  {
    var s := r + e * x;
    var d, c := s % b, s / b;
    assert s == d + b * c;
    assert e * (x + b * v) == e * x + b * (e * v);
    assert b * (c + e * v) == b * c + b * (e * v);
    assert r + e * (x + b * v) == d + b * (c + e * v);
    Distribute(p, d, b, c + e * v);
  }

  /** One step of long division by `e`. */
  lemma LongDivisionStep(x: nat, rest: nat, e: nat, q: nat, rest': nat, high: nat, highQ: nat, b: nat)
    requires rest * b + x == e * q + rest'
    requires high == e * highQ + rest
    ensures x + b * high == e * (q + b * highQ) + rest'
  {
    assert b * high == b * (e * highQ) + b * rest;
    assert b * (e * highQ) == e * (b * highQ);
    assert e * (q + b * highQ) == e * q + e * (b * highQ);
  }

  lemma QuotientDigit(a: nat, e: nat, rest: nat, x: nat, b: nat)
    requires rest < e && x < b && a == rest * b + x
    ensures a / e < b
  {
    MulMonotone(rest + 1, e, b);
    assert (rest + 1) * b == rest * b + b;
    assert a == e * (a / e) + a % e;
    var j := a / e - b;
    assert j * e == e * (a / e) - e * b;
    MulSign(j, e);
  }
}
