/**
 * Divisibility of integers and the few facts about products the number
 * theory of the prime routines and of Garner's algorithm rests on, each
 * with its nonlinear step spelled out.
 */
module Divisibility {

  /** `d` divides `x`. */
  predicate Divides(d: int, x: int) {
    d != 0 && x % d == 0
  }

  /** The sign of `a * k` for `a >= 1`: at least `a` when `k >= 1`, at most `-a` when `k <= -1`. */
  lemma MulBetween(a: int, k: int)
    requires a >= 1
    ensures k >= 1 ==> a * k >= a
    ensures k <= -1 ==> a * k <= -a
    ensures k == 0 ==> a * k == 0
  {
    if k >= 1 {
      assert a * k == a + a * (k - 1);
    } else if k <= -1 {
      assert a * k == -a + a * (k + 1);
    }
  }

  /** A positive number divides each of its multiples, with the multiplier as quotient. */
  lemma MulDivides(a: int, m: int)
    requires a >= 1
    ensures Divides(a, a * m) && (a * m) / a == m
  {
    var q, r := (a * m) / a, (a * m) % a;
    assert a * m == a * q + r && 0 <= r < a;
    assert a * (m - q) == r;
    MulBetween(a, m - q);
  }

  /** A divisor `d` of `x >= 1` splits it as `d * q` with `q` a positive divisor too. */
  lemma Cofactor(d: int, x: int) returns (q: int)
    requires d >= 1 && x >= 1 && Divides(d, x)
    ensures q == x / d && x == d * q && q >= 1 && Divides(q, x)
  {
    q := x / d;
    assert x == d * q;
    MulBetween(d, q);
    MulDivides(q, d);
    assert q * d == x;
  }

  /** Divisibility is transitive. */
  lemma DividesTrans(a: int, b: int, c: int)
    requires a >= 1 && b >= 1 && c >= 1 && Divides(a, b) && Divides(b, c)
    ensures Divides(a, c)
  {
    var p := Cofactor(a, b);
    var q := Cofactor(b, c);
    assert c == a * (p * q);
    MulDivides(a, p * q);
  }

  /** Arithmetic helper: regroups a triple product for `Garner.DigitSolves` and `Prime.TrialDivide`. */
  lemma MulAssoc(a: int, b: int, c: int)
    ensures (a * b) * c == a * (b * c)
  {
  }

  /** A common divisor of `a` and `b` divides every combination `a * u + b * v`. */
  lemma DividesLinear(d: int, a: int, b: int, u: int, v: int)
    requires d >= 1 && Divides(d, a) && Divides(d, b)
    ensures Divides(d, a * u + b * v)
  {
    var p, q := a / d, b / d;
    assert a == d * p && b == d * q;
    assert a * u + b * v == d * (p * u + q * v);
    MulDivides(d, p * u + q * v);
  }

  /** The only multiple of `m >= 1` strictly between `-m` and `m` is 0. */
  lemma SmallMultiple(m: int, x: int)
    requires m >= 1 && Divides(m, x) && -m < x < m
    ensures x == 0
  {
    var q := x / m;
    assert x == m * q;
    MulBetween(m, q);
  }
}
