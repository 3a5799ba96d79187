/**
 * Modular arithmetic under Garner's algorithm of math/garner.cpp: the C++
 * remainder, congruences, the greatest common divisor with its Bezout
 * coefficients, and the modular inverse `mod_inv` the algorithm calls.
 * The source takes `mod_inv` from extgcd.cpp, which is not part of this
 * model; `ModInv` stands for it with the contract the algorithm relies on.
 */
module ModArith {
  import opened Divisibility

  /** C++ `a % m` for `m >= 1`: the remainder of the quotient truncated toward zero, negative for a negative `a`. */
  function CRem(a: int, m: int): int
    requires m >= 1
  {
    if a >= 0 then a % m else -((-a) % m)
  }

  /** `a` and `b` are congruent modulo `m >= 1`. */
  predicate Cong(a: int, b: int, m: int) {
    m >= 1 && Divides(m, a - b)
  }

  /** The C++ remainder is congruent to `a`, lies strictly between `-m` and `m`, and adding `m` to a negative one gives the Euclidean remainder. */
  lemma CRemFacts(a: int, m: int)
    requires m >= 1
    ensures Cong(CRem(a, m), a, m) && -m < CRem(a, m) < m
    ensures a >= 0 ==> CRem(a, m) == a % m
    ensures (if CRem(a, m) < 0 then CRem(a, m) + m else CRem(a, m)) == a % m
  {
    if a >= 0 {
      CongMod(a, m);
    } else {
      var q, r := (-a) / m, (-a) % m;
      assert -a == m * q + r;
      if r == 0 {
        assert a == m * (-q);
        MulDivides(m, -q);
        MulDivides(m, -q);
        assert a % m == 0;
      } else {
        assert a == m * (-q - 1) + (m - r);
        ModUnique(a, m, -q - 1, m - r);
      }
      assert CRem(a, m) - a == m * q;
      MulDivides(m, q);
    }
  }

  /** The Euclidean quotient and remainder are the only ones with the remainder in `[0, m)`. */
  lemma ModUnique(a: int, m: int, q: int, r: int)
    requires m >= 1 && a == m * q + r && 0 <= r < m
    ensures a % m == r && a / m == q
  {
    var q', r' := a / m, a % m;
    assert m * (q - q') == r' - r;
    MulBetween(m, q - q');
  }

  /** The Euclidean remainder is congruent to `a`. */
  lemma CongMod(a: int, m: int)
    requires m >= 1
    ensures Cong(a % m, a, m)
  {
    assert a % m - a == m * (-(a / m));
    MulDivides(m, -(a / m));
  }

  /** Congruence is the same as equal Euclidean remainders. */
  lemma CongRem(a: int, b: int, m: int)
    requires m >= 1
    ensures Cong(a, b, m) <==> a % m == b % m
  {
    var qa, qb := a / m, b / m;
    assert a - b == m * (qa - qb) + (a % m - b % m);
    if Cong(a, b, m) {
      var q := (a - b) / m;
      assert a - b == m * q;
      assert a % m - b % m == m * (q - qa + qb);
      MulDivides(m, q - qa + qb);
      SmallMultiple(m, a % m - b % m);
    } else {
      if a % m == b % m {
        MulDivides(m, qa - qb);
      }
    }
  }

  lemma CongRefl(a: int, m: int)
    requires m >= 1
    ensures Cong(a, a, m)
  {
    MulDivides(m, 0);
  }

  lemma CongSym(a: int, b: int, m: int)
    requires Cong(a, b, m)
    ensures Cong(b, a, m)
  {
    DividesLinear(m, a - b, a - b, -1, 0);
  }

  lemma CongTrans(a: int, b: int, c: int, m: int)
    requires Cong(a, b, m) && Cong(b, c, m)
    ensures Cong(a, c, m)
  {
    DividesLinear(m, a - b, b - c, 1, 1);
  }

  /** Congruences add. */
  lemma CongAdd(a: int, b: int, c: int, d: int, m: int)
    requires Cong(a, b, m) && Cong(c, d, m)
    ensures Cong(a + c, b + d, m)
  {
    DividesLinear(m, a - b, c - d, 1, 1);
  }

  /** Congruences multiply. */
  lemma CongMul(a: int, b: int, c: int, d: int, m: int)
    requires Cong(a, b, m) && Cong(c, d, m)
    ensures Cong(a * c, b * d, m)
  {
    assert a * c - b * d == (a - b) * c + (c - d) * b;
    DividesLinear(m, a - b, c - d, c, b);
  }

  /** Two congruent numbers in `[0, m)` are equal. */
  lemma CongUnique(a: int, b: int, m: int)
    requires Cong(a, b, m) && 0 <= a < m && 0 <= b < m
    ensures a == b
  {
    SmallMultiple(m, a - b);
  }

  // ---------------------------------------------------------------------------
  // Greatest common divisor, Bezout coefficients, the inverse.
  // ---------------------------------------------------------------------------

  /** Euclid's algorithm. */
  function Gcd(a: nat, b: nat): nat
    decreases b
  {
    if b == 0 then a else Gcd(b, a % b)
  }

  /** `a` and `b` have no common divisor but 1. */
  predicate Coprime(a: nat, b: nat) {
    Gcd(a, b) == 1
  }

  /** The gcd divides both numbers, and is 0 only for `Gcd(0, 0)`. */
  lemma {:induction false} GcdDivides(a: nat, b: nat)
    ensures Gcd(a, b) == 0 ==> a == 0 && b == 0
    ensures Gcd(a, b) >= 1 ==> Divides(Gcd(a, b), a) && Divides(Gcd(a, b), b)
    decreases b
  {
    if b == 0 {
      if a >= 1 {
        MulDivides(a, 1);
        MulDivides(a, 0);
      }
    } else {
      var g := Gcd(a, b);
      GcdDivides(b, a % b);
      assert a == b * (a / b) + a % b;
      if g >= 1 {
        DividesLinear(g, b, a % b, a / b, 1);
      }
    }
  }

  /** The step of the extended algorithm: Bezout coefficients for `(b, a % b)` give ones for `(a, b)`. */
  lemma BezoutStep(a: nat, b: nat, x: int, y: int, g: int)
    requires b >= 1 && b * x + (a % b) * y == g
    ensures a * y + b * (x - (a / b) * y) == g
  {
    var q := a / b;
    assert a % b == a - b * q;
    assert (a - b * q) * y == a * y - b * (q * y);
    assert b * (x - q * y) == b * x - b * (q * y);
  }

  /** The extended Euclidean algorithm: coefficients `(u, v)` with `a * u + b * v == Gcd(a, b)`. */
  function ExtGcd(a: nat, b: nat): (r: (int, int))
    ensures a * r.0 + b * r.1 == Gcd(a, b)
    decreases b
  {
    if b == 0 then (1, 0)
    else
      var (x, y) := ExtGcd(b, a % b);
      BezoutStep(a, b, x, y, Gcd(a, b));
      (y, x - (a / b) * y)
  }

  /** A divisor of 1 that is at least 1 is 1. */
  lemma DividesOne(g: int)
    requires g >= 1 && Divides(g, 1)
    ensures g == 1
  {
    var q := 1 / g;
    assert 1 == g * q;
    MulBetween(g, q);
  }

  /** A combination `a * u + b * v == 1` makes `a` and `b` coprime. */
  lemma BezoutOne(a: nat, b: nat, u: int, v: int)
    requires a * u + b * v == 1
    ensures Coprime(a, b)
  {
    var g := Gcd(a, b);
    GcdDivides(a, b);
    if g >= 1 {
      DividesLinear(g, a, b, u, v);
      DividesOne(g);
    }
  }

  /** Coprimality is symmetric. */
  lemma CoprimeSym(a: nat, b: nat)
    requires Coprime(a, b)
    ensures Coprime(b, a)
  {
    var (u, v) := ExtGcd(a, b);
    BezoutOne(b, a, v, u);
  }

  /** A product of two numbers coprime to `m` is coprime to `m`. */
  lemma CoprimeMul(a: nat, b: nat, m: nat)
    requires Coprime(a, m) && Coprime(b, m)
    ensures Coprime(a * b, m)
  {
    var (u1, v1) := ExtGcd(a, m);
    var (u2, v2) := ExtGcd(b, m);
    ProductOfOnes(a * u1, b * u2, m, v1, v2);
    MulSwap(a, b, u1, u2);
    BezoutOne(a * b, m, u1 * u2, v1 + v2 - m * v1 * v2);
  }

  /** Arithmetic helper: reorders the factors of the Bezout product in `CoprimeMul`. */
  lemma MulSwap(a: int, b: int, c: int, d: int)
    ensures (a * b) * (c * d) == (a * c) * (b * d)
  {
  }

  /** The product of two numbers congruent to 1 modulo `m`, with the multiple of `m` written out. */
  lemma ProductOfOnes(x: int, y: int, m: int, v: int, w: int)
    requires x + m * v == 1 && y + m * w == 1
    ensures x * y + m * (v + w - m * v * w) == 1
  {
    assert x == 1 - m * v && y == 1 - m * w;
    calc {
      x * y;
      (1 - m * v) * y;
      y - (m * v) * y;
      { assert (m * v) * y == (m * v) * (1 - m * w) == m * v - (m * v) * (m * w); }
      y - m * v + (m * v) * (m * w);
    }
    assert (m * v) * (m * w) == m * (m * v * w);
  }

  /** A number congruent to one coprime to `m` is coprime to `m`. */
  lemma CoprimeCong(a: nat, b: nat, m: nat)
    requires m >= 1 && Cong(a, b, m) && Coprime(b, m)
    ensures Coprime(a, m)
  {
    var (u, v) := ExtGcd(b, m);
    var q := (a - b) / m;
    ShiftCombination(a, b, m, q, u, v);
    BezoutOne(a, m, u, v - q * u);
  }

  /** Moving `b` by a multiple of `m` moves its Bezout combination with `m` by the same multiple. */
  lemma ShiftCombination(a: int, b: int, m: int, q: int, u: int, v: int)
    requires m >= 1 && (a - b) % m == 0 && q == (a - b) / m && b * u + m * v == 1
    ensures a * u + m * (v - q * u) == 1
  {
    assert a == b + m * q;
    assert a * u == b * u + m * (q * u);
  }

  /**
   * `mod_inv(c, m)` for `c` coprime to `m`: the `r` in `[0, m)` with
   * `c * r` congruent to 1 modulo `m`.
   */
  function ModInv(c: nat, m: nat): (r: int)
    requires m >= 1 && Coprime(c, m)
    ensures 0 <= r < m && (c * r) % m == 1 % m
  {
    var (u, v) := ExtGcd(c, m);
    InverseOf(c, m, u, v);
    u % m
  }

  /** Reducing the Bezout coefficient of `c` modulo `m` gives the inverse. */
  lemma InverseOf(c: nat, m: nat, u: int, v: int)
    requires m >= 1 && c * u + m * v == 1
    ensures (c * (u % m)) % m == 1 % m
  {
    var r := u % m;
    assert c * u - 1 == m * (-v);
    MulDivides(m, -v);
    assert Cong(c * u, 1, m);
    CongMod(u, m);
    CongRefl(c, m);
    CongMul(c, c, r, u, m);
    CongTrans(c * r, c * u, 1, m);
    CongRem(c * r, 1, m);
  }

  /**
   * Two coprime moduli that both divide `d` divide it together: the step of
   * the uniqueness half of the Chinese remainder theorem.
   */
  lemma CoprimeDivides(p: nat, q: nat, d: int)
    requires p >= 1 && q >= 1 && Coprime(p, q) && Divides(p, d) && Divides(q, d)
    ensures Divides(p * q, d)
  {
    var (u, v) := ExtGcd(p, q);
    BothDivide(p, q, u, v, d);
    MulBetween(p, q);
    MulDivides(p * q, (d / q) * u + (d / p) * v);
  }

  /** `d == d * (p * u + q * v)` with `d == q * e == p * f` is a multiple of `p * q`. */
  lemma BothDivide(p: int, q: int, u: int, v: int, d: int)
    requires p >= 1 && q >= 1 && p * u + q * v == 1 && d % q == 0 && d % p == 0
    ensures d == (p * q) * ((d / q) * u + (d / p) * v)
  {
    var e, f := d / q, d / p;
    assert d == q * e && d == p * f;
    assert d == d * (p * u) + d * (q * v);
    assert d * (p * u) == (q * e) * (p * u) == (p * q) * (e * u);
    assert d * (q * v) == (p * f) * (q * v) == (p * q) * (f * v);
  }
}
