/**
 * The bit tricks the data structures rely on, stated on unbounded naturals:
 * powers of two, `31 - __builtin_clz(x)` (the floor of log2), the bit length
 * `32 - __builtin_clz(x)`, exclusive or, and the lowest set bit `i & -i`.
 */
module BitOps {

  function Pow2(k: nat): (r: nat)
    ensures r >= 1
  {
    if k == 0 then 1 else 2 * Pow2(k - 1)
  }

  lemma {:induction false} Pow2Monotone(j: nat, k: nat)
    requires j <= k
    ensures Pow2(j) <= Pow2(k)
    decreases k
  {
    if j < k {
      Pow2Monotone(j, k - 1);
    }
  }

  /** `31 - __builtin_clz(x)` for `x >= 1`: the largest `k` with `2^k <= x`. */
  function Log2(x: nat): (k: nat)
    requires x >= 1
    ensures Pow2(k) <= x < Pow2(k + 1)
  {
    if x == 1 then 0 else 1 + Log2(x / 2)
  }

  /** The number of binary digits of `x`, `32 - __builtin_clz(x)` for `x >= 1`, and 0 for 0. */
  function BitLength(x: nat): (k: nat)
    ensures x < Pow2(k)
    ensures x >= 1 ==> k >= 1 && Pow2(k - 1) <= x
  {
    if x == 0 then 0 else 1 + BitLength(x / 2)
  }

  /** Bitwise exclusive or of two naturals. */
  function Xor(x: nat, y: nat): nat {
    if x == 0 && y == 0 then 0
    else 2 * Xor(x / 2, y / 2) + (if x % 2 == y % 2 then 0 else 1)
  }

  /** `x >> k`. */
  function Shift(x: nat, k: nat): nat {
    if k == 0 then x else Shift(x / 2, k - 1)
  }

  /** The lowest set bit of `j >= 1`, the value `j & -j` has in two's complement. */
  function Low(j: nat): (r: nat)
    requires j >= 1
    ensures 1 <= r <= j
  {
    if j % 2 == 1 then 1 else 2 * Low(j / 2)
  }

  /** `j` with its trailing zero bits removed. */
  function OddPart(j: nat): (r: nat)
    requires j >= 1
  {
    if j % 2 == 1 then j else OddPart(j / 2)
  }

  /** `Low(j)` is the power of two that splits `j` into an odd part: exactly the lowest set bit. */
  lemma {:induction false} LowestSetBit(j: nat) returns (k: nat)
    requires j >= 1
    ensures Low(j) == Pow2(k)
    ensures Low(j) * OddPart(j) == j && OddPart(j) % 2 == 1
    decreases j
  {
    if j % 2 == 1 {
      k := 0;
    } else {
      var k' := LowestSetBit(j / 2);
      k := k' + 1;
      calc {
        Low(j) * OddPart(j);
        2 * Low(j / 2) * OddPart(j / 2);
        2 * (j / 2);
        j;
      }
    }
  }

  /** Adding the lowest set bit carries into a strictly higher bit. */
  lemma {:induction false} LowCarry(c: nat)
    requires c >= 1
    ensures Low(c + Low(c)) >= 2 * Low(c)
    decreases c
  {
    if c % 2 == 0 {
      LowCarry(c / 2);
      assert (c + Low(c)) / 2 == c / 2 + Low(c / 2);
    }
  }

  /** Adding less than the lowest set bit of `c` leaves the lowest set bit of the addend. */
  lemma {:induction false} LowSkip(c: nat, r: nat)
    requires c >= 1 && 0 < r < Low(c)
    ensures Low(c + r) == Low(r)
    decreases c
  {
    if r % 2 == 0 {
      LowSkip(c / 2, r / 2);
      assert (c + r) / 2 == c / 2 + r / 2;
    }
  }

  /** Shifting by one more bit halves the shifted value. */
  lemma {:induction false} ShiftSucc(x: nat, k: nat)
    ensures Shift(x, k + 1) == Shift(x, k) / 2
    decreases k
  {
    if k > 0 {
      ShiftSucc(x / 2, k - 1);
    }
  }

  /** Multiplication by a natural keeps the order. */
  lemma MulMonotone(a: int, b: int, p: nat)
    requires a <= b
    ensures a * p <= b * p
  {
    assert b * p - a * p == (b - a) * p;
  }

  lemma Distribute(s: int, p: int)
    ensures s * (2 * p) == 2 * (s * p)
    ensures (s + 1) * p == s * p + p
  {
  }

  /** `x >> k` is the index of the aligned block of width `2^k` that contains `x`. */
  lemma {:induction false} ShiftBounds(x: nat, k: nat)
    ensures Shift(x, k) * Pow2(k) <= x < (Shift(x, k) + 1) * Pow2(k)
    decreases k
  {
    if k > 0 {
      ShiftBounds(x / 2, k - 1);
      var s, p := Shift(x, k), Pow2(k - 1);
      assert Pow2(k) == 2 * p;
      Distribute(s, p);
      Distribute(s + 1, p);
      Distribute(s, 2 * p);
    }
  }

  /** Only one aligned block of width `2^k` contains `x`. */
  lemma ShiftUnique(x: nat, k: nat, c: nat)
    requires c * Pow2(k) <= x < (c + 1) * Pow2(k)
    ensures Shift(x, k) == c
  {
    ShiftBounds(x, k);
    var s := Shift(x, k);
    if s < c {
      MulMonotone(s + 1, c, Pow2(k));
    } else if s > c {
      MulMonotone(c + 1, s, Pow2(k));
    }
  }

  lemma {:induction false} XorSelf(x: nat)
    ensures Xor(x, x) == 0
  {
    if x > 0 {
      XorSelf(x / 2);
    }
  }

  /** Two numbers whose exclusive or vanishes are equal. */
  lemma {:induction false} XorZero(x: nat, y: nat)
    requires Xor(x, y) == 0
    ensures x == y
  {
    if x != 0 || y != 0 {
      XorZero(x / 2, y / 2);
    }
  }

  /** The exclusive or of two numbers below `2^k` is below `2^k`. */
  lemma {:induction false} XorBelow(x: nat, y: nat, k: nat)
    requires x < Pow2(k) && y < Pow2(k)
    ensures Xor(x, y) < Pow2(k)
  {
    if k > 0 && (x != 0 || y != 0) {
      XorBelow(x / 2, y / 2, k - 1);
    }
  }

  /** A number below `2^k` has at most `k` binary digits. */
  lemma BitLengthAtMost(x: nat, k: nat)
    requires x < Pow2(k)
    ensures BitLength(x) <= k
  {
    if x >= 1 && BitLength(x) > k {
      Pow2Monotone(k, BitLength(x) - 1);
    }
  }

  /**
   * For `x < y`, with `k` the bit length of `x xor y` (one past the highest
   * differing bit): `x` and `y` lie in the same aligned block of width `2^k`,
   * `x` in its lower half and `y` in its upper half.
   */
  lemma {:induction false} HighestDifferingBit(x: nat, y: nat)
    requires x < y
    ensures BitLength(Xor(x, y)) >= 1
    ensures Shift(x, BitLength(Xor(x, y))) == Shift(y, BitLength(Xor(x, y)))
    ensures Shift(x, BitLength(Xor(x, y)) - 1) == 2 * Shift(x, BitLength(Xor(x, y)))
    ensures Shift(y, BitLength(Xor(x, y)) - 1) == 2 * Shift(x, BitLength(Xor(x, y))) + 1
    decreases y
  {
    var k := BitLength(Xor(x, y));
    if x / 2 == y / 2 {
      XorSelf(x / 2);
      assert Xor(x, y) == 1;
      assert k == 1;
    } else {
      var x', y' := x / 2, y / 2;
      HighestDifferingBit(x', y');
      var k' := BitLength(Xor(x', y'));
      assert Xor(x, y) / 2 == Xor(x', y');
      assert k == k' + 1;
      assert Shift(x, k) == Shift(x', k') && Shift(y, k) == Shift(y', k');
      assert Shift(x, k') == Shift(x', k' - 1) && Shift(y, k') == Shift(y', k' - 1);
    }
  }
}
