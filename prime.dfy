/**
 * The prime number routines of math/prime.cpp: a 6k +- 1 trial-division
 * primality test, the sieve of Eratosthenes over odd numbers, and
 * factorisation by trial division into a map from primes to exponents.
 */
module Prime {
  import opened Divisibility

  /** The reference definition: at least 2, with no divisor strictly between 1 and itself. */
  predicate IsPrime(n: int) {
    n >= 2 && forall d :: 2 <= d < n ==> !Divides(d, n)
  }

  /** `x >= 2` has no divisor `d` with `2 <= d < i` other than possibly itself. */
  predicate NoFactorBelow(x: int, i: int) {
    x >= 2 && forall d :: 2 <= d < i && d < x ==> !Divides(d, x)
  }

  /** `b^e`. */
  function Pow(b: int, e: nat): int {
    if e == 0 then 1 else b * Pow(b, e - 1)
  }

  // ---------------------------------------------------------------------------
  // Trial division stops at the square root.
  // ---------------------------------------------------------------------------

  /** Two factors of at least `i` have a product of at least `i * i`. */
  lemma SquareBelow(d: int, q: int, i: int)
    requires 0 <= i <= d
    ensures i <= q ==> i * i <= d * q
  {
    if i <= q {
      assert d * q - i * i == (d - i) * q + i * (q - i);
      assert (d - i) * q >= 0 && i * (q - i) >= 0;
    }
  }

  /** A divisor `d >= i` of `x < i * i` leaves a cofactor in `[2, i)` that divides `x` too. */
  lemma LargeDivisor(d: int, x: int, i: int)
    requires 2 <= i <= d < x && x < i * i
    ensures Divides(d, x) ==> 2 <= x / d < i && x / d < x && Divides(x / d, x)
  {
    if Divides(d, x) {
      var q := Cofactor(d, x);
      SquareBelow(d, q, i);
      MulBetween(q, d - 1);
      assert x == q + q * (d - 1);
    }
  }

  /**
   * The stopping rule of every trial division here: a number with no factor
   * below `i` and smaller than `i * i` is prime.
   */
  lemma SqrtBound(x: int, i: int)
    requires i >= 2 && NoFactorBelow(x, i) && x < i * i
    ensures IsPrime(x)
  {
    forall d | 2 <= d < x
      ensures !Divides(d, x)
    {
      if d >= i {
        LargeDivisor(d, x, i);
      }
    }
  }

  /** A non-prime `i >= 2` has a divisor `e` with `2 <= e < i`. */
  lemma CompositeWitness(i: int) returns (e: int)
    requires i >= 2 && !IsPrime(i)
    ensures 2 <= e < i && Divides(e, i)
  {
    e :| 2 <= e < i && Divides(e, i);
  }

  /** An even number is a multiple of 2. */
  lemma EvenDivides(x: int)
    requires x % 2 == 0
    ensures Divides(2, x)
  {
  }

  // ---------------------------------------------------------------------------
  // is_prime
  // ---------------------------------------------------------------------------

  /** No factor below 5 once 2 and 3 do not divide `n`. */
  lemma NoFactorBelowFive(n: int)
    requires n >= 5 && !Divides(2, n) && !Divides(3, n)
    ensures NoFactorBelow(n, 5)
  {
    if Divides(4, n) {
      assert Divides(2, 4);
      DividesTrans(2, 4, n);
    }
  }

  /**
   * One round of the 6k +- 1 loop: with `i == 6k + 5`, the numbers `i + 1`,
   * `i + 3`, `i + 4` and `i + 5` are multiples of 2 or 3, so once `i` and
   * `i + 2` do not divide `n` nothing below `i + 6` does.
   */
  lemma WheelStep(n: int, i: int, k: nat)
    requires i == 6 * k + 5 && n >= 2 && !Divides(2, n) && !Divides(3, n)
    requires forall d :: 2 <= d < i ==> !Divides(d, n)
    requires !Divides(i, n) && !Divides(i + 2, n)
    ensures forall d :: 2 <= d < i + 6 ==> !Divides(d, n)
  {
    MulDivides(2, 3 * k + 3);
    MulDivides(2, 3 * k + 4);
    MulDivides(3, 2 * k + 3);
    MulDivides(2, 3 * k + 5);
    forall d | i <= d < i + 6
      ensures !Divides(d, n)
    {
      if Divides(d, n) {
        if d == i + 1 || d == i + 3 || d == i + 5 {
          DividesTrans(2, d, n);
        } else if d == i + 4 {
          DividesTrans(3, d, n);
        }
      }
    }
  }

  /** `is_prime(n)`: trial division by 2, 3 and the numbers `6k +- 1` up to the square root. */
  method IsPrimeTest(n: int) returns (b: bool)
    ensures b == IsPrime(n)
  {
    if n <= 1 {
      return false;
    }
    if n <= 3 {
      return true;
    }
    if n % 2 == 0 || n % 3 == 0 {
      assert Divides(2, n) || Divides(3, n);
      return false;
    }
    NoFactorBelowFive(n);
    if n < 9 {
      SqrtBound(n, 5);
      return true;
    }
    var i := 5;
    ghost var k: nat := 0;
    while i * i <= n
      invariant i == 6 * k + 5 && k >= 0
      invariant forall d :: 2 <= d < i ==> !Divides(d, n)
      decreases n - i
    {
      MulBetween(i, i - 4);
      if n % i == 0 || n % (i + 2) == 0 {
        assert i + 2 < n;
        assert Divides(i, n) || Divides(i + 2, n);
        return false;
      }
      WheelStep(n, i, k);
      i, k := i + 6, k + 1;
    }
    SqrtBound(n, i);
    b := true;
  }

  // ---------------------------------------------------------------------------
  // prime_table
  // ---------------------------------------------------------------------------

  /** The odd sieve, once every odd `i' < i` has been processed, clears exactly the numbers with a factor below `i`. */
  ghost predicate SieveUpTo(a: array<bool>, i: int)
    reads a
  {
    forall x :: 0 <= x < a.Length ==> a[x] == NoFactorBelow(x, i)
  }

  /** `x` is one of `i * i`, `i * i + 2i`, `i * i + 4i`, ...: a number the inner loop for `i` clears. */
  predicate Struck(x: int, i: int) {
    i >= 1 && i * i <= x && Divides(2 * i, x - i * i)
  }

  /** A struck number is a proper multiple of `i`. */
  lemma StruckIsMultiple(x: int, i: int)
    requires i >= 3 && Struck(x, i)
    ensures i < x && Divides(i, x)
  {
    MulBetween(i, i);
    MulBetween(i, i - 1);
    var s := (x - i * i) / (2 * i);
    assert x - i * i == 2 * i * s;
    MulBetween(2 * i, s);
    assert x == i * (i + 2 * s);
    MulDivides(i, i + 2 * s);
  }

  /** A multiple `i * m` with `m` even is even. */
  lemma EvenFactor(i: int, m: int)
    ensures m % 2 == 0 ==> Divides(2, i * m)
  {
    if m % 2 == 0 {
      var h := m / 2;
      assert i * m == 2 * (i * h);
      MulDivides(2, i * h);
    }
  }

  /**
   * A proper multiple of the odd `i` with no factor below `i` is struck: it is
   * `i * m` with `m` odd (2 is below `i`) and `m >= i` (a smaller `m` would be
   * a factor below `i`).
   */
  lemma MultipleIsStruck(x: int, i: int)
    requires i >= 3 && i % 2 == 1 && i < x && Divides(i, x) && NoFactorBelow(x, i)
    ensures Struck(x, i)
  {
    var m := Cofactor(i, x);
    MulBetween(m, i - 1);
    assert x == m + m * (i - 1);
    EvenFactor(i, m);
    OddCofactorStruck(i, m, x);
  }

  /** `i * m` with `m` odd and at least the odd `i` is `i * i` plus a multiple of `2i`. */
  lemma OddCofactorStruck(i: int, m: int, x: int)
    requires i >= 1 && i % 2 == 1 && x == i * m
    ensures m % 2 == 1 && m >= i ==> Struck(x, i)
  {
    if m % 2 == 1 && m >= i {
      var s := (m - i) / 2;
      assert m == i + 2 * s;
      assert x - i * i == 2 * i * s;
      MulDivides(2 * i, s);
      SquareBelow(i, m, i);
    }
  }

  /** A multiple of the even `i + 1` is even. */
  lemma EvenMultiple(x: int, i: int)
    requires i >= 1 && i % 2 == 1 && x >= 1 && Divides(i + 1, x)
    ensures Divides(2, x)
  {
    assert Divides(2, i + 1);
    DividesTrans(2, i + 1, x);
  }

  /** Processing the prime `i`: the numbers with no factor below `i + 2` are those with none below `i` that were not struck. */
  lemma SieveStrike(x: int, i: int)
    requires i >= 3 && i % 2 == 1 && NoFactorBelow(i, i)
    ensures NoFactorBelow(x, i + 2) == (NoFactorBelow(x, i) && !Struck(x, i))
  {
    if NoFactorBelow(x, i) {
      if Struck(x, i) {
        StruckIsMultiple(x, i);
      } else {
        if i < x && Divides(i, x) {
          MultipleIsStruck(x, i);
        }
        if i + 1 < x && Divides(i + 1, x) {
          EvenMultiple(x, i);
        }
      }
    }
  }

  /** Skipping a composite `i`: its multiples already have the smaller factor of `i`, and `i + 1` is even. */
  lemma SieveSkip(x: int, i: int)
    requires i >= 3 && i % 2 == 1 && !NoFactorBelow(i, i)
    ensures NoFactorBelow(x, i + 2) == NoFactorBelow(x, i)
  {
    if NoFactorBelow(x, i) {
      if i < x && Divides(i, x) {
        var e := CompositeWitness(i);
        DividesTrans(e, i, x);
      }
      if i + 1 < x && Divides(i + 1, x) {
        EvenMultiple(x, i);
      }
    }
  }

  /** After clearing the even numbers from 4 on, the sieve is right for factors below 3. */
  lemma EvensCleared(x: int)
    ensures NoFactorBelow(x, 3) == (x >= 2 && !(x >= 4 && x % 2 == 0))
  {
    if x >= 4 && x % 2 == 0 {
      EvenDivides(x);
    }
  }

  /** `prime_table(n)`: entry `x` of the result says whether `x` is prime. The source writes `prime[1]`, so `n >= 1`. */
  method PrimeTable(n: int) returns (prime: array<bool>)
    requires n >= 1
    ensures prime.Length == n + 1
    ensures forall x :: 0 <= x <= n ==> prime[x] == IsPrime(x)
  {
    prime := new bool[n + 1](_ => true);
    prime[0], prime[1] := false, false;
    ClearEvens(prime);
    var i := 3;
    while i * i <= n
      invariant i >= 3 && i % 2 == 1
      invariant SieveUpTo(prime, i)
      decreases n - i
    {
      MulBetween(i, i);
      if !prime[i] {
        SieveSkipAll(prime, i);
      } else {
        Strike(prime, i);
      }
      i := i + 2;
    }
    SieveDone(prime, i);
  }

  /** The first loop of the sieve: clear the even numbers from 4 on. */
  method ClearEvens(prime: array<bool>)
    requires forall x :: 0 <= x < prime.Length ==> prime[x] == (x >= 2)
    modifies prime
    ensures SieveUpTo(prime, 3)
  {
    var j := 4;
    while j < prime.Length
      invariant 4 <= j && j % 2 == 0
      invariant forall x :: 0 <= x < prime.Length ==> prime[x] == (x >= 2 && !(4 <= x < j && x % 2 == 0))
      decreases prime.Length - j
    {
      prime[j] := false;
      j := j + 2;
    }
    forall x | 0 <= x < prime.Length
      ensures prime[x] == NoFactorBelow(x, 3)
    {
      EvensCleared(x);
    }
  }

  /** Skipping a composite `i` leaves the table right for factors below `i + 2`. */
  lemma SieveSkipAll(prime: array<bool>, i: int)
    requires i >= 3 && i % 2 == 1 && i < prime.Length && SieveUpTo(prime, i) && !prime[i]
    ensures SieveUpTo(prime, i + 2)
  {
    forall x | 0 <= x < prime.Length
      ensures prime[x] == NoFactorBelow(x, i + 2)
    {
      SieveSkip(x, i);
    }
  }

  /** Once `i * i` passes the last index, the entries with no factor below `i` are exactly the primes. */
  lemma SieveDone(prime: array<bool>, i: int)
    requires i >= 2 && SieveUpTo(prime, i) && prime.Length <= i * i
    ensures forall x :: 0 <= x < prime.Length ==> prime[x] == IsPrime(x)
  {
    forall x | 0 <= x < prime.Length
      ensures prime[x] == IsPrime(x)
    {
      if NoFactorBelow(x, i) {
        SqrtBound(x, i);
      }
    }
  }

  /** The inner loop of the sieve for a prime `i`: clear `i * i`, `i * i + 2i`, ... */
  method Strike(prime: array<bool>, i: int)
    requires i >= 3 && i % 2 == 1 && i < prime.Length && SieveUpTo(prime, i) && prime[i]
    modifies prime
    ensures SieveUpTo(prime, i + 2)
  {
    ghost var before := prime[..];
    var j := i * i;
    MulDivides(2 * i, 0);
    while j < prime.Length
      invariant j >= i * i && Divides(2 * i, j - i * i)
      invariant StruckBelow(prime[..], before, i, j)
      decreases prime.Length - j
    {
      StruckStep(prime[..], before, i, j);
      prime[j] := false;
      j := j + 2 * i;
    }
    StrikeDone(prime, before, i, j);
  }

  /** `now` is `before` with the struck numbers below `j` cleared. */
  ghost predicate StruckBelow(now: seq<bool>, before: seq<bool>, i: int, j: int) {
    |now| == |before| && forall x :: 0 <= x < |now| ==> now[x] == (before[x] && !(Struck(x, i) && x < j))
  }

  /** Once every struck number is cleared, the sieve is right for factors below `i + 2`. */
  lemma StrikeDone(prime: array<bool>, before: seq<bool>, i: int, j: int)
    requires i >= 3 && i % 2 == 1 && i < |before| && j >= prime.Length
    requires (forall x :: 0 <= x < |before| ==> before[x] == NoFactorBelow(x, i)) && before[i]
    requires StruckBelow(prime[..], before, i, j)
    ensures SieveUpTo(prime, i + 2)
  {
    forall x | 0 <= x < prime.Length
      ensures prime[x] == NoFactorBelow(x, i + 2)
    {
      assert prime[..][x] == prime[x];
      SieveStrike(x, i);
    }
  }

  /**
   * One step of the inner loop: clearing `j` and moving on by `2i` keeps
   * exactly the struck numbers below the new `j` cleared, since `j` is the
   * only struck number in `[j, j + 2i)`.
   */
  lemma StruckStep(now: seq<bool>, before: seq<bool>, i: int, j: int)
    requires i >= 1 && j >= i * i && Divides(2 * i, j - i * i) && 0 <= j < |now|
    requires StruckBelow(now, before, i, j)
    ensures Divides(2 * i, j + 2 * i - i * i)
    ensures StruckBelow(now[j := false], before, i, j + 2 * i)
  {
    var s := (j - i * i) / (2 * i);
    assert j - i * i == 2 * i * s;
    assert j + 2 * i - i * i == 2 * i * (s + 1);
    MulDivides(2 * i, s + 1);
    forall x | 0 <= x < |now|
      ensures now[j := false][x] == (before[x] && !(Struck(x, i) && x < j + 2 * i))
    {
      if j <= x < j + 2 * i {
        StruckOnce(j, s, x, i);
      }
    }
  }

  /** Two numbers at a multiple of `2i` from `i * i` that are less than `2i` apart are equal. */
  lemma StruckOnce(j: int, s: int, x: int, i: int)
    requires i >= 1 && j - i * i == 2 * i * s && j <= x < j + 2 * i
    ensures Struck(x, i) ==> x == j
  {
    var t, r := (x - i * i) / (2 * i), (x - i * i) % (2 * i);
    assert x - i * i == 2 * i * t + r;
    assert x - j == 2 * i * (t - s) + r;
    MulBetween(2 * i, t - s);
  }

  // ---------------------------------------------------------------------------
  // prime_factor
  // ---------------------------------------------------------------------------

  /** The product of `p^e` over the keys `ks` of `m`. */
  function Product(m: map<int, nat>, ks: seq<int>): int
    requires forall k :: k in ks ==> k in m
  {
    if |ks| == 0 then 1 else Product(m, ks[..|ks| - 1]) * Pow(ks[|ks| - 1], m[ks[|ks| - 1]])
  }

  /** `ks` lists the keys of `m` in increasing order, each a prime with exponent at least 1: a prime factorisation. */
  ghost predicate Factorisation(m: map<int, nat>, ks: seq<int>) {
    (forall a, b :: 0 <= a < b < |ks| ==> ks[a] < ks[b]) &&
    (forall k :: k in m <==> k in ks) &&
    (forall k :: k in m ==> IsPrime(k) && m[k] >= 1)
  }

  /** Adding a key outside `ks` to `m` leaves the product over `ks` alone. */
  lemma {:induction false} ProductFrame(m: map<int, nat>, ks: seq<int>, p: int, e: nat)
    requires forall k :: k in ks ==> k in m
    requires p !in ks
    ensures Product(m[p := e], ks) == Product(m, ks)
  {
    if |ks| > 0 {
      ProductFrame(m, ks[..|ks| - 1], p, e);
    }
  }

  /** Recording a new largest prime `p` with exponent `e` multiplies the product by `p^e`. */
  lemma ProductExtend(m: map<int, nat>, ks: seq<int>, p: int, e: nat)
    requires forall k :: k in ks ==> k in m
    requires p !in ks
    ensures Product(m[p := e], ks + [p]) == Product(m, ks) * Pow(p, e)
  {
    assert (ks + [p])[..|ks|] == ks;
    ProductFrame(m, ks, p, e);
  }

  /** Prime powers with positive exponents are at least 2. */
  lemma {:induction false} PowAtLeast(p: int, e: nat)
    requires p >= 2 && e >= 1
    ensures Pow(p, e) >= 2
  {
    if e > 1 {
      PowAtLeast(p, e - 1);
      MulBetween(p, Pow(p, e - 1));
    }
  }

  /** The product of a factorisation is 1 exactly when it has no factor. */
  lemma {:induction false} ProductOne(m: map<int, nat>, ks: seq<int>)
    requires forall k :: k in ks ==> k in m && k >= 2 && m[k] >= 1
    ensures Product(m, ks) >= 1
    ensures Product(m, ks) == 1 <==> |ks| == 0
  {
    if |ks| > 0 {
      var last := ks[|ks| - 1];
      var init := ks[..|ks| - 1];
      forall k | k in init
        ensures k in ks
      {
        var j :| 0 <= j < |init| && init[j] == k;
        assert ks[j] == k;
      }
      ProductOne(m, init);
      PowAtLeast(last, m[last]);
      MulBetween(Pow(last, m[last]), Product(m, ks[..|ks| - 1]));
      assert Product(m, ks) == Product(m, ks[..|ks| - 1]) * Pow(last, m[last]);
    }
  }

  /** Dividing out one factor `i` keeps `i^cnt * rest` fixed and keeps `rest` free of factors below `i`. */
  lemma DivideOut(i: int, cnt: nat, rest: int)
    requires i >= 2 && rest >= 1 && Divides(i, rest)
    requires forall d :: 2 <= d < i ==> !Divides(d, rest)
    ensures Pow(i, cnt + 1) * (rest / i) == Pow(i, cnt) * rest
    ensures 1 <= rest / i < rest
    ensures forall d :: 2 <= d < i ==> !Divides(d, rest / i)
  {
    var q := Cofactor(i, rest);
    var p := Pow(i, cnt);
    assert Pow(i, cnt + 1) * q == (i * p) * q == p * (i * q);
    MulBetween(q, i - 1);
    assert rest == q + q * (i - 1);
    forall d | 2 <= d < i
      ensures !Divides(d, q)
    {
      if Divides(d, q) {
        DividesTrans(d, q, rest);
      }
    }
  }

  /** Past an odd trial divisor `i` that no longer divides `rest`, nothing below `i + 2` does. */
  lemma NoFactorAfter(rest: int, i: int)
    requires i >= 2 && i % 2 == 1 && rest >= 1
    requires (forall d :: 2 <= d < i ==> !Divides(d, rest)) && !Divides(i, rest)
    ensures forall d :: 2 <= d < i + 2 ==> !Divides(d, rest)
  {
    if Divides(i + 1, rest) {
      EvenMultiple(rest, i);
    }
  }

  /** A trial divisor `i` that divides `rest` is prime: a smaller factor of it would divide `rest`. */
  lemma TrialDivisorPrime(rest: int, i: int)
    requires i >= 2 && rest >= 1 && (forall d :: 2 <= d < i ==> !Divides(d, rest)) && Divides(i, rest)
    ensures IsPrime(i)
  {
    if !IsPrime(i) {
      var e := CompositeWitness(i);
      DividesTrans(e, i, rest);
    }
  }

  /** Recording a prime `p` above every recorded key, with exponent `e >= 1`, extends the factorisation by `p^e`. */
  lemma Record(m: map<int, nat>, ks: seq<int>, p: int, e: nat)
    requires Factorisation(m, ks) && (forall k :: k in ks ==> k < p) && IsPrime(p) && e >= 1
    ensures Factorisation(m[p := e], ks + [p])
    ensures Product(m[p := e], ks + [p]) == Product(m, ks) * Pow(p, e)
  {
    ProductExtend(m, ks, p, e);
  }

  /**
   * The inner `while (n % i == 0)` loop: divides `rest` by `i` as long as it
   * can, counting the divisions. The factors below `i` stay absent.
   */
  method DivideOutAll(rest: int, i: int) returns (cnt: nat, rest': int)
    requires i >= 2 && rest >= 1
    requires forall d :: 2 <= d < i ==> !Divides(d, rest)
    ensures 1 <= rest' <= rest && Pow(i, cnt) * rest' == rest && !Divides(i, rest')
    ensures cnt >= 1 <==> Divides(i, rest)
    ensures forall d :: 2 <= d < i + 1 ==> !Divides(d, rest')
  {
    cnt, rest' := 0, rest;
    while rest' % i == 0
      invariant 1 <= rest' <= rest && Pow(i, cnt) * rest' == rest
      invariant cnt == 0 ==> rest' == rest
      invariant cnt >= 1 ==> Divides(i, rest)
      invariant forall d :: 2 <= d < i ==> !Divides(d, rest')
      decreases rest'
    {
      DivideOut(i, cnt, rest');
      cnt, rest' := cnt + 1, rest' / i;
    }
  }

  /** The state of the factorisation loop at trial divisor `i`: recorded primes below `i`, and `rest` free of factors below `i`. */
  ghost predicate TrialState(n: int, ret: map<int, nat>, ks: seq<int>, rest: int, i: int) {
    rest >= 1 && Factorisation(ret, ks) && (forall k :: k in ks ==> k < i) &&
    Product(ret, ks) * rest == n && (forall d :: 2 <= d < i ==> !Divides(d, rest))
  }

  /**
   * `prime_factor(n)` for `n >= 1` (the source never stops at `n == 0`): a map
   * from the prime factors of `n` to their exponents whose product is `n`.
   * `ks` lists its keys in the increasing order the source inserts them.
   */
  method PrimeFactor(n: int) returns (ret: map<int, nat>, ghost ks: seq<int>)
    requires n >= 1
    ensures Factorisation(ret, ks)
    ensures Product(ret, ks) == n
    ensures ret == map[] <==> n == 1
  {
    ret, ks := map[], [];
    var rest := n;
    if rest % 2 == 0 {
      var cnt;
      cnt, rest := DivideOutAll(rest, 2);
      assert IsPrime(2);
      Record(ret, ks, 2, cnt);
      ret, ks := ret[2 := cnt], ks + [2];
    }
    var i := 3;
    while i * i <= rest
      invariant i >= 3 && i % 2 == 1 && TrialState(n, ret, ks, rest, i)
      decreases rest - i
    {
      MulBetween(i, i);
      ret, ks, rest := TrialDivide(n, ret, ks, rest, i);
      i := i + 2;
    }
    if rest != 1 {
      ret, ks := RecordRest(n, ret, ks, rest, i);
    }
    ProductOne(ret, ks);
    if |ks| > 0 {
      assert ks[0] in ret;
    } else {
      assert forall k :: k !in ret.Keys;
      assert ret.Keys == {};
      assert ret == map[];
    }
  }

  /** One round of the odd trial loop at `i`: divide out `i` entirely if it divides `rest`, recording its exponent. */
  method TrialDivide(ghost n: int, ret: map<int, nat>, ghost ks: seq<int>, rest: int, i: int)
    returns (ret': map<int, nat>, ghost ks': seq<int>, rest': int)
    requires i >= 3 && i % 2 == 1 && i * i <= rest && TrialState(n, ret, ks, rest, i)
    ensures TrialState(n, ret', ks', rest', i + 2) && rest' <= rest
  {
    ret', ks', rest' := ret, ks, rest;
    if rest % i == 0 {
      TrialDivisorPrime(rest, i);
      var cnt;
      cnt, rest' := DivideOutAll(rest, i);
      Record(ret, ks, i, cnt);
      ret', ks' := ret[i := cnt], ks + [i];
      MulAssoc(Product(ret, ks), Pow(i, cnt), rest');
    }
    NoFactorAfter(rest', i);
  }

  /** After the loop, a `rest` other than 1 has no factor below `i` and is below `i * i`: it is the last prime, recorded with exponent 1. */
  method RecordRest(ghost n: int, ret: map<int, nat>, ghost ks: seq<int>, rest: int, i: int)
    returns (ret': map<int, nat>, ghost ks': seq<int>)
    requires i >= 3 && rest < i * i && rest != 1 && TrialState(n, ret, ks, rest, i)
    ensures IsPrime(rest) && rest !in ret && ret' == ret[rest := 1] && ks' == ks + [rest]
    ensures Factorisation(ret', ks') && Product(ret', ks') == n
  {
    SqrtBound(rest, i);
    assert rest >= i by {
      assert Divides(rest, rest);
    }
    Record(ret, ks, rest, 1);
    ret', ks' := ret[rest := 1], ks + [rest];
  }
}
