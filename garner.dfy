/**
 * Garner's algorithm of math/garner.cpp: from the residues `b[k]` of an
 * unknown `x` modulo pairwise coprime moduli `m[k]`, the mixed-radix digits
 * of the smallest such `x` are found one at a time, and `x` itself is
 * accumulated modulo every later modulus, the extra modulus `mod` last;
 * the result is `x % mod`.
 *
 * Round `k` picks the digit `t_k` in `[0, m[k])`; after it, `coeffs[i]` is
 * `m[0] * ... * m[k]` and `consts[i]` is `t_0 + t_1 * m[0] + ... + t_k * m[0] * ... * m[k-1]`,
 * both reduced modulo `m[i]`, for every later `i`.
 */
module Garner {
  import opened Divisibility
  import opened ModArith

  /** The product of a sequence of moduli, 1 for the empty one. */
  function Prod(s: seq<int>): int {
    if |s| == 0 then 1 else Prod(s[..|s| - 1]) * s[|s| - 1]
  }

  /** The number whose mixed-radix digits over the moduli `ms` are `ts`: the sum of `ts[j] * Prod(ms[..j])`. */
  function Mixed(ts: seq<int>, ms: seq<int>): int
    requires |ts| <= |ms|
  {
    if |ts| == 0 then 0 else Mixed(ts[..|ts| - 1], ms) + ts[|ts| - 1] * Prod(ms[..|ts| - 1])
  }

  /** Moduli are positive. */
  predicate Positive(ms: seq<int>) {
    forall i :: 0 <= i < |ms| ==> ms[i] >= 1
  }

  /** Positive, pairwise coprime moduli. */
  predicate Moduli(ms: seq<int>) {
    Positive(ms) && forall i, j :: 0 <= i < j < |ms| ==> Coprime(ms[i], ms[j])
  }

  /** `x` is the solution in `[0, Prod(m))` of `x == b[k] (mod m[k])` for every `k`. */
  predicate Solves(x: int, b: seq<int>, m: seq<int>) {
    |b| >= |m| && 0 <= x < Prod(m) && forall k :: 0 <= k < |m| ==> Cong(x, b[k], m[k])
  }

  // ---------------------------------------------------------------------------
  // Products and mixed-radix numbers.
  // ---------------------------------------------------------------------------

  lemma ProdAppend(ms: seq<int>, k: nat)
    requires k < |ms|
    ensures Prod(ms[..k + 1]) == Prod(ms[..k]) * ms[k]
  {
    assert ms[..k + 1][..k] == ms[..k];
  }

  lemma MixedAppend(ts: seq<int>, t: int, ms: seq<int>)
    requires |ts| < |ms|
    ensures Mixed(ts + [t], ms) == Mixed(ts, ms) + t * Prod(ms[..|ts|])
  {
    assert (ts + [t])[..|ts|] == ts;
  }

  /** A product of moduli is positive and is a multiple of each of them. */
  lemma {:induction false} ProdDivisible(s: seq<int>)
    requires forall j :: 0 <= j < |s| ==> s[j] >= 1
    ensures Prod(s) >= 1
    ensures forall j :: 0 <= j < |s| ==> Divides(s[j], Prod(s))
  {
    if |s| > 0 {
      var init, last := s[..|s| - 1], s[|s| - 1];
      ProdDivisible(init);
      var p := Prod(init);
      MulBetween(p, last);
      forall j | 0 <= j < |s|
        ensures Divides(s[j], Prod(s))
      {
        if j == |s| - 1 {
          MulDivides(last, p);
        } else {
          assert s[j] == init[j];
          DividesLinear(s[j], p, p, last, 0);
        }
      }
    }
  }

  /** A product of numbers coprime to `c` is coprime to `c`. */
  lemma {:induction false} ProdCoprime(s: seq<int>, c: nat)
    requires forall j :: 0 <= j < |s| ==> s[j] >= 1 && Coprime(s[j], c)
    ensures Prod(s) >= 1 && Coprime(Prod(s), c)
  {
    ProdDivisible(s);
    if |s| == 0 {
      BezoutOne(1, c, 1, 0);
    } else {
      var init := s[..|s| - 1];
      ProdCoprime(init, c);
      ProdDivisible(init);
      CoprimeMul(Prod(init), s[|s| - 1], c);
    }
  }

  /** One more digit below its modulus keeps the number below the product of the moduli. */
  lemma DigitBound(x: int, p: int, t: int, q: int)
    requires 0 <= x < p && 0 <= t < q
    ensures 0 <= x + t * p < p * q
  {
    MulBetween(p, t);
    MulBetween(p, q - 1 - t);
    assert p * (q - 1 - t) == p * q - p - p * t;
  }

  /** Digits below their moduli make a number in `[0, Prod(ms[..|ts|]))`. */
  lemma {:induction false} MixedBound(ts: seq<int>, ms: seq<int>)
    requires |ts| <= |ms|
    requires forall j :: 0 <= j < |ts| ==> ms[j] >= 1 && 0 <= ts[j] < ms[j]
    ensures 0 <= Mixed(ts, ms) < Prod(ms[..|ts|])
  {
    if |ts| > 0 {
      var k := |ts| - 1;
      var init := ts[..k];
      MixedBound(init, ms);
      assert ts == init + [ts[k]];
      MixedAppend(init, ts[k], ms);
      ProdAppend(ms, k);
      DigitBound(Mixed(init, ms), Prod(ms[..k]), ts[k], ms[k]);
    }
  }

  /** Adding a multiple of `c` keeps a congruence modulo a divisor of `c`. */
  lemma CongShift(x: int, y: int, t: int, c: int, q: int)
    requires Cong(x, y, q) && Divides(q, c)
    ensures Cong(x + t * c, y, q)
  {
    assert (x + t * c) - y == (x - y) * 1 + c * t;
    DividesLinear(q, x - y, c, 1, t);
  }

  /** Removing a multiple of `c` keeps a congruence modulo a divisor of `c`. */
  lemma CongUnshift(x: int, y: int, t: int, c: int, q: int)
    requires Cong(x + t * c, y, q) && Divides(q, c)
    ensures Cong(x, y, q)
  {
    assert x - y == ((x + t * c) - y) * 1 + c * (-t);
    DividesLinear(q, (x + t * c) - y, c, 1, -t);
  }

  // ---------------------------------------------------------------------------
  // The Chinese remainder theorem: at most one solution below the product.
  // ---------------------------------------------------------------------------

  /** A number divisible by each of pairwise coprime moduli is divisible by their product. */
  lemma {:induction false} AllDivide(m: seq<int>, d: int, k: nat)
    requires Moduli(m) && k <= |m|
    requires forall j :: 0 <= j < |m| ==> Divides(m[j], d)
    ensures Divides(Prod(m[..k]), d)
  {
    if k == 0 {
      assert d == 1 * d;
    } else {
      AllDivide(m, d, k - 1);
      var pre := m[..k - 1];
      ProdCoprime(pre, m[k - 1]);
      ProdAppend(m, k - 1);
      CoprimeDivides(Prod(pre), m[k - 1], d);
    }
  }

  /** Two solutions of the same residues modulo pairwise coprime moduli are equal. */
  lemma CrtUnique(x: int, y: int, b: seq<int>, m: seq<int>)
    requires Moduli(m) && Solves(x, b, m) && Solves(y, b, m)
    ensures x == y
  {
    forall j | 0 <= j < |m|
      ensures Divides(m[j], x - y)
    {
      CongSym(y, b[j], m[j]);
      CongTrans(x, b[j], y, m[j]);
    }
    AllDivide(m, x - y, |m|);
    assert m[..|m|] == m;
    SmallMultiple(Prod(m), x - y);
  }

  // ---------------------------------------------------------------------------
  // The algorithm.
  // ---------------------------------------------------------------------------

  /**
   * Lines 12-13: the digit `t` in `[0, mk)` that makes `ck + t * ak` congruent
   * to `bk`, from the inverse of `ak` modulo `mk`; the C++ remainder is
   * negative for a negative product and is then moved up by `mk`.
   */
  function Digit(bk: int, ck: int, ak: nat, mk: int): (t: int)
    requires mk >= 1 && Coprime(ak, mk)
    ensures 0 <= t < mk && Cong(ck + t * ak, bk, mk)
  {
    var inv := ModInv(ak, mk);
    var x := (bk - ck) * inv;
    CRemFacts(x, mk);
    DigitSolves(bk, ck, ak, mk, inv, x);
    var t := CRem(x, mk);
    if t < 0 then t + mk else t
  }

  /** The Euclidean remainder of `(bk - ck) * inv` is the digit, `inv` being an inverse of `ak`. */
  lemma DigitSolves(bk: int, ck: int, ak: nat, mk: int, inv: int, x: int)
    requires mk >= 1 && (ak * inv) % mk == 1 % mk && x == (bk - ck) * inv
    ensures 0 <= x % mk < mk
    ensures Cong(ck + (x % mk) * ak, bk, mk)
  {
    var r := x % mk;
    assert Cong(r * ak, x * ak, mk) by {
      CongMod(x, mk);
      CongRefl(ak, mk);
      CongMul(r, x, ak, ak, mk);
    }
    assert Cong(x * ak, bk - ck, mk) by {
      CongRem(ak * inv, 1, mk);
      CongRefl(bk - ck, mk);
      CongMul(bk - ck, bk - ck, ak * inv, 1, mk);
      MulAssoc(bk - ck, inv, ak);
      assert x * ak == (bk - ck) * (ak * inv);
    }
    assert Cong(r * ak, bk - ck, mk) by {
      CongTrans(r * ak, x * ak, bk - ck, mk);
    }
    CongRefl(ck, mk);
    CongAdd(ck, ck, r * ak, bk - ck, mk);
  }

  /** Digits found so far are below their moduli and make a number with the residues `b[j]`. */
  ghost predicate Digits(b: seq<int>, ms: seq<int>, ts: seq<int>)
    requires |ts| <= |ms| <= |b|
  {
    forall j :: 0 <= j < |ts| ==> 0 <= ts[j] < ms[j] && Cong(Mixed(ts, ms), b[j], ms[j])
  }

  /** Every modulus from the next round on holds the product so far and the number so far, reduced. */
  ghost predicate Tail(ms: seq<int>, ts: seq<int>, coeffs: seq<int>, consts: seq<int>)
    requires |ts| <= |ms| == |coeffs| == |consts|
  {
    forall i :: |ts| <= i < |ms| ==>
      0 <= coeffs[i] && Cong(coeffs[i], Prod(ms[..|ts|]), ms[i]) &&
      0 <= consts[i] < ms[i] && Cong(consts[i], Mixed(ts, ms), ms[i])
  }

  /** The entry of the modulus of the last round holds the number before that round's digit, reduced. */
  ghost predicate Last(ms: seq<int>, ts: seq<int>, consts: seq<int>)
    requires |ts| <= |ms| == |consts|
  {
    |ts| >= 1 ==>
      var k := |ts| - 1;
      0 <= consts[k] < ms[k] && Cong(consts[k], Mixed(ts[..k], ms), ms[k])
  }

  /** The state of `garner` after the rounds that found the digits `ts`. */
  ghost predicate State(b: seq<int>, ms: seq<int>, ts: seq<int>, coeffs: seq<int>, consts: seq<int>) {
    Moduli(ms) && |ts| <= |ms| <= |b| && |coeffs| == |consts| == |ms| &&
    Digits(b, ms, ts) && Tail(ms, ts, coeffs, consts) && Last(ms, ts, consts)
  }

  /** The modulus of the next round is coprime to the entry of `coeffs` the round inverts. */
  lemma StateCoprime(b: seq<int>, ms: seq<int>, ts: seq<int>, coeffs: seq<int>, consts: seq<int>)
    requires State(b, ms, ts, coeffs, consts) && |ts| < |ms|
    ensures coeffs[|ts|] >= 0 && Coprime(coeffs[|ts|], ms[|ts|])
  {
    var k := |ts|;
    var pre := ms[..k];
    ProdCoprime(pre, ms[k]);
    CongSym(coeffs[k], Prod(pre), ms[k]);
    CoprimeCong(coeffs[k], Prod(pre), ms[k]);
  }

  /** Lines 14-17: the inner loop of round `k`, which folds the digit `t` into every later modulus. */
  method Propagate(ms: seq<int>, k: nat, t: int, coeffs: seq<int>, consts: seq<int>)
    returns (coeffs': seq<int>, consts': seq<int>)
    requires k < |ms| == |coeffs| == |consts| && t >= 0
    requires forall i :: k <= i < |ms| ==> ms[i] >= 1 && coeffs[i] >= 0 && consts[i] >= 0
    ensures |coeffs'| == |consts'| == |ms|
    ensures forall i :: 0 <= i <= k ==> coeffs'[i] == coeffs[i] && consts'[i] == consts[i]
    ensures forall i :: k < i < |ms| ==>
      consts'[i] == (consts[i] + t * coeffs[i]) % ms[i] && coeffs'[i] == (coeffs[i] * ms[k]) % ms[i]
  {
    coeffs', consts' := coeffs, consts;
    var i := k + 1;
    while i < |ms|
      invariant k + 1 <= i <= |ms|
      invariant |coeffs'| == |consts'| == |ms|
      invariant forall j :: 0 <= j <= k ==> coeffs'[j] == coeffs[j] && consts'[j] == consts[j]
      invariant forall j :: k < j < i ==>
        consts'[j] == (consts[j] + t * coeffs[j]) % ms[j] && coeffs'[j] == (coeffs[j] * ms[k]) % ms[j]
      invariant forall j :: i <= j < |ms| ==> coeffs'[j] == coeffs[j] && consts'[j] == consts[j]
    {
      MulBetween(ms[k], coeffs'[i]);
      MulBetween(coeffs'[i] + 1, t);
      assert t * coeffs'[i] >= 0 by { NonnegProduct(t, coeffs'[i]); }
      consts' := consts'[i := CRem(consts'[i] + t * coeffs'[i], ms[i])];
      coeffs' := coeffs'[i := CRem(coeffs'[i] * ms[k], ms[i])];
      i := i + 1;
    }
  }

  lemma NonnegProduct(a: int, c: int)
    requires a >= 0 && c >= 0
    ensures a * c >= 0
  {
    if a >= 1 {
      MulBetween(a, c);
    }
  }

  /** One modulus past round `k`: its entries move from the old product and number to the new ones. */
  lemma TailEntry(c: int, d: int, p: int, x: int, t: int, mk: int, mi: int, c': int, d': int)
    requires mk >= 1 && mi >= 1 && c >= 0 && t >= 0 && 0 <= d
    requires Cong(c, p, mi) && Cong(d, x, mi)
    requires d' == (d + t * c) % mi && c' == (c * mk) % mi
    ensures 0 <= c' && Cong(c', p * mk, mi)
    ensures 0 <= d' < mi && Cong(d', x + t * p, mi)
  {
    CongMod(d + t * c, mi);
    CongMod(c * mk, mi);
    CongRefl(mk, mi);
    CongMul(c, p, mk, mk, mi);
    CongTrans(c', c * mk, p * mk, mi);
    CongRefl(t, mi);
    CongMul(t, t, c, p, mi);
    CongAdd(d, x, t * c, t * p, mi);
    CongTrans(d', d + t * c, x + t * p, mi);
  }

  /** Round `k` keeps the state: digit `t` is appended and `Propagate` has run. */
  lemma RoundStep(b: seq<int>, ms: seq<int>, ts: seq<int>, t: int,
                  coeffs: seq<int>, consts: seq<int>, coeffs': seq<int>, consts': seq<int>)
    requires State(b, ms, ts, coeffs, consts) && |ts| < |ms|
    requires 0 <= t < ms[|ts|] && Cong(consts[|ts|] + t * coeffs[|ts|], b[|ts|], ms[|ts|])
    requires |coeffs'| == |consts'| == |ms|
    requires forall i :: 0 <= i <= |ts| ==> coeffs'[i] == coeffs[i] && consts'[i] == consts[i]
    requires forall i :: |ts| < i < |ms| ==>
      consts'[i] == (consts[i] + t * coeffs[i]) % ms[i] && coeffs'[i] == (coeffs[i] * ms[|ts|]) % ms[i]
    ensures State(b, ms, ts + [t], coeffs', consts')
  {
    var k := |ts|;
    var ts' := ts + [t];
    var p, x := Prod(ms[..k]), Mixed(ts, ms);
    MixedAppend(ts, t, ms);
    ProdAppend(ms, k);
    ProdDivisible(ms[..k]);
    DigitsStep(b, ms, ts, t, consts[k], coeffs[k]);
    forall i | k + 1 <= i < |ms|
      ensures 0 <= coeffs'[i] && Cong(coeffs'[i], Prod(ms[..k + 1]), ms[i])
      ensures 0 <= consts'[i] < ms[i] && Cong(consts'[i], Mixed(ts', ms), ms[i])
    {
      TailEntry(coeffs[i], consts[i], p, x, t, ms[k], ms[i], coeffs'[i], consts'[i]);
    }
    assert ts'[..k] == ts;
  }

  /** The new digit makes the number agree with `b[k]` modulo `ms[k]`, and keeps the earlier residues. */
  lemma DigitsStep(b: seq<int>, ms: seq<int>, ts: seq<int>, t: int, c: int, a: int)
    requires Moduli(ms) && |ts| < |ms| <= |b| && Digits(b, ms, ts)
    requires Cong(c, Mixed(ts, ms), ms[|ts|]) && Cong(a, Prod(ms[..|ts|]), ms[|ts|])
    requires 0 <= t < ms[|ts|] && Cong(c + t * a, b[|ts|], ms[|ts|])
    ensures Digits(b, ms, ts + [t])
  {
    var k := |ts|;
    var ts' := ts + [t];
    var p, x := Prod(ms[..k]), Mixed(ts, ms);
    MixedAppend(ts, t, ms);
    ProdDivisible(ms[..k]);
    forall j | 0 <= j < k
      ensures Cong(x + t * p, b[j], ms[j])
    {
      assert ms[..k][j] == ms[j];
      CongShift(x, b[j], t, p, ms[j]);
    }
    NewResidue(x, c, a, p, t, b[k], ms[k]);
  }

  /** `x + t * p` is congruent to `c + t * a` when `c`, `a` are congruent to `x`, `p`. */
  lemma NewResidue(x: int, c: int, a: int, p: int, t: int, bk: int, mk: int)
    requires Cong(c, x, mk) && Cong(a, p, mk) && Cong(c + t * a, bk, mk)
    ensures Cong(x + t * p, bk, mk)
  {
    assert Cong(x + t * p, c + t * a, mk) by {
      CongSym(c, x, mk);
      CongRefl(t, mk);
      CongSym(a, p, mk);
      CongMul(t, t, p, a, mk);
      CongAdd(x, c, t * p, t * a, mk);
    }
    CongTrans(x + t * p, c + t * a, bk, mk);
  }

  /** The state before the first round. */
  lemma InitState(b: seq<int>, ms: seq<int>, coeffs: seq<int>, consts: seq<int>)
    requires Moduli(ms) && |ms| <= |b|
    requires |coeffs| == |consts| == |ms|
    requires forall i :: 0 <= i < |ms| ==> coeffs[i] == 1 && consts[i] == 0
    ensures State(b, ms, [], coeffs, consts)
  {
    forall i | 0 <= i < |ms|
      ensures Cong(1, Prod(ms[..0]), ms[i]) && Cong(0, Mixed([], ms), ms[i])
    {
      CongRefl(1, ms[i]);
      CongRefl(0, ms[i]);
    }
  }

  /** After the last round the entry of `mod` is `x % mod` for the solution `x` over the moduli `m`. */
  lemma Final(b: seq<int>, m: seq<int>, mod: int, ts: seq<int>, consts: seq<int>)
    requires Positive(m + [mod]) && |ts| == |m| + 1 <= |b| && |consts| == |m| + 1
    requires Digits(b, m + [mod], ts) && Last(m + [mod], ts, consts)
    ensures 0 <= consts[|m|] < mod
    ensures Solves(Mixed(ts[..|m|], m + [mod]), b, m)
    ensures consts[|m|] == Mixed(ts[..|m|], m + [mod]) % mod
  {
    var ms, n := m + [mod], |m|;
    var x := Mixed(ts[..n], ms);
    ReducedIsRem(consts[n], x, mod);
    LastDigit(b, m, mod, ts);
    DropLast(b, m, mod, ts);
  }

  /** Without its last digit the number solves the residues modulo `m`. */
  lemma DropLast(b: seq<int>, m: seq<int>, mod: int, ts: seq<int>)
    requires Positive(m + [mod]) && |ts| == |m| + 1 <= |b|
    requires forall j :: 0 <= j < |m| ==> 0 <= ts[j] < m[j]
    requires forall j :: 0 <= j < |m| ==>
      Cong(Mixed(ts[..|m|], m + [mod]) + ts[|m|] * Prod(m), b[j], m[j]) && Divides(m[j], Prod(m))
    ensures Solves(Mixed(ts[..|m|], m + [mod]), b, m)
  {
    var x := Mixed(ts[..|m|], m + [mod]);
    LastBound(m, mod, ts);
    UnshiftAll(x, ts[|m|], Prod(m), b, m);
  }

  /** Without its last digit the number is below the product of `m`. */
  lemma LastBound(m: seq<int>, mod: int, ts: seq<int>)
    requires Positive(m + [mod]) && |ts| == |m| + 1
    requires forall j :: 0 <= j < |m| ==> 0 <= ts[j] < m[j]
    ensures 0 <= Mixed(ts[..|m|], m + [mod]) < Prod(m)
  {
    var ms := m + [mod];
    assert ms[..|m|] == m;
    MixedBound(ts[..|m|], ms);
  }

  /**
   * The number is the one without its last digit plus that digit times the
   * product of `m`, which every modulus of `m` divides.
   */
  lemma LastDigit(b: seq<int>, m: seq<int>, mod: int, ts: seq<int>)
    requires Positive(m + [mod]) && |ts| == |m| + 1 <= |b| && Digits(b, m + [mod], ts)
    ensures forall j :: 0 <= j < |m| ==> 0 <= ts[j] < m[j]
    ensures forall j :: 0 <= j < |m| ==>
      Cong(Mixed(ts[..|m|], m + [mod]) + ts[|m|] * Prod(m), b[j], m[j]) && Divides(m[j], Prod(m))
  {
    var ms, n := m + [mod], |m|;
    var pre := ts[..n];
    assert ms[..n] == m;
    assert ts == pre + [ts[n]];
    MixedAppend(pre, ts[n], ms);
    assert forall j :: 0 <= j < n ==> ms[j] == m[j];
    ProdDivisible(m);
  }

  /** Removing a multiple of `p` keeps every congruence modulo a divisor of `p`. */
  lemma UnshiftAll(x: int, t: int, p: int, b: seq<int>, m: seq<int>)
    requires |m| <= |b|
    requires forall j :: 0 <= j < |m| ==> Cong(x + t * p, b[j], m[j]) && Divides(m[j], p)
    ensures forall j :: 0 <= j < |m| ==> Cong(x, b[j], m[j])
  {
    forall j | 0 <= j < |m|
      ensures Cong(x, b[j], m[j])
    {
      CongUnshift(x, b[j], t, p, m[j]);
    }
  }

  /** A value in `[0, mod)` congruent to `x` is `x % mod`. */
  lemma ReducedIsRem(c: int, x: int, mod: int)
    requires 0 <= c < mod && Cong(c, x, mod)
    ensures c == x % mod
  {
    CongMod(x, mod);
    CongSym(c, x, mod);
    CongTrans(x % mod, x, c, mod);
    CongUnique(x % mod, c, mod);
  }

  /**
   * `garner(b, m, mod)`: for pairwise coprime moduli `m`, also coprime to
   * `mod`, and at least `|m| + 1` residues (the last round reads `b[|m|]`),
   * the result is `x % mod` for the unique `x` in `[0, m[0] * ... * m[|m|-1])`
   * with `x == b[k] (mod m[k])` for every `k`.
   */
  method Garner(b: seq<int>, m: seq<int>, mod: int) returns (r: int)
    requires |b| > |m| && Moduli(m + [mod])
    ensures 0 <= r < mod
    ensures exists x :: Solves(x, b, m) && r == x % mod
    ensures forall x :: Solves(x, b, m) ==> r == x % mod
  {
    var ms := m + [mod];
    var n := |ms|;
    var coeffs := seq(n, _ => 1);
    var consts := seq(n, _ => 0);
    ghost var ts: seq<int> := [];
    InitState(b, ms, coeffs, consts);
    var k := 0;
    while k < n
      invariant k == |ts| <= n
      invariant State(b, ms, ts, coeffs, consts)
    {
      StateCoprime(b, ms, ts, coeffs, consts);
      var t := Digit(b[k], consts[k], coeffs[k], ms[k]);
      var coeffs', consts' := Propagate(ms, k, t, coeffs, consts);
      RoundStep(b, ms, ts, t, coeffs, consts, coeffs', consts');
      coeffs, consts, ts := coeffs', consts', ts + [t];
      k := k + 1;
    }
    r := consts[n - 1];
    Final(b, m, mod, ts, consts);
    ModuliPrefix(m, mod);
    OnlySolution(Mixed(ts[..|m|], ms), b, m, mod, r);
  }

  /** A residue of one solution modulo `mod` is the residue of every solution. */
  lemma OnlySolution(x: int, b: seq<int>, m: seq<int>, mod: int, r: int)
    requires Moduli(m) && mod >= 1 && Solves(x, b, m) && r == x % mod
    ensures forall y :: Solves(y, b, m) ==> r == y % mod
  {
    forall y | Solves(y, b, m)
      ensures r == y % mod
    {
      CrtUnique(x, y, b, m);
    }
  }

  /** Moduli that stay pairwise coprime with one more appended are pairwise coprime. */
  lemma ModuliPrefix(m: seq<int>, mod: int)
    requires Moduli(m + [mod])
    ensures Moduli(m)
  {
    var ms := m + [mod];
    assert forall i :: 0 <= i < |m| ==> m[i] == ms[i];
  }
}
