/**
 * The disjoint sparse table of data-structure/disjoint_sparse_table.cpp,
 * instantiated with the commutative monoid `(int, +, 0)`.
 *
 * Level `i >= 1` cuts the array into aligned blocks of width `2^i`. In a block
 * whose midpoint `m` lies inside the array, an index `j` left of `m` holds the
 * sum of `v[j..m)` and an index right of it the sum of `v[m..j]`. A query
 * `[l, r)` with `r - l >= 2` uses the level whose blocks put `l` and `r - 1`
 * on opposite sides of one midpoint.
 */
module DisjointSparseTableSum {
  import opened BitOps
  import opened SeqSum

  /** The midpoint of the level-`i` block that contains `j`. */
  function Mid(i: nat, j: nat): nat
    requires i >= 1
  {
    Shift(j, i) * Pow2(i) + Pow2(i - 1)
  }

  /** What level `i` holds at `j` when the midpoint of `j`'s block lies inside `v`. */
  function Expected(v: seq<int>, i: nat, j: nat): int
    requires i >= 1 && j < |v| && Mid(i, j) < |v|
  {
    var m := Mid(i, j);
    if j < m then Total(v[j..m]) else Total(v[m..j + 1])
  }

  /** Every index of the block `[c * 2^i, (c + 1) * 2^i)` has that block's midpoint. */
  lemma BlockMid(i: nat, c: nat, j: nat)
    requires i >= 1 && c * Pow2(i) <= j < c * Pow2(i) + Pow2(i)
    ensures Mid(i, j) == c * Pow2(i) + Pow2(i - 1)
  {
    Distribute(c, Pow2(i));
    ShiftUnique(j, i, c);
  }

  /** Indices at or past the start of block `c` belong to block `c` or a later one. */
  lemma MidBeyond(i: nat, c: nat, j: nat)
    requires i >= 1 && c * Pow2(i) <= j
    ensures Mid(i, j) >= c * Pow2(i) + Pow2(i - 1)
  {
    ShiftBounds(j, i);
    var s := Shift(j, i);
    if s < c {
      MulMonotone(s + 1, c, Pow2(i));
    } else {
      MulMonotone(c, s, Pow2(i));
    }
  }

  /**
   * The level `fold` reads for `r - l >= 2`: `i = bitlength(l xor (r - 1))`
   * is a level of the table, and `l` and `r - 1` share the level-`i` block
   * whose midpoint `m` satisfies `l < m <= r - 1`.
   */
  lemma FoldLevel(l: nat, r: nat, n: nat, b: nat)
    requires l + 1 < r <= n <= Pow2(b)
    ensures 1 <= BitLength(Xor(l, r - 1)) <= b
    ensures Mid(BitLength(Xor(l, r - 1)), l) == Mid(BitLength(Xor(l, r - 1)), r - 1)
    ensures l < Mid(BitLength(Xor(l, r - 1)), l) <= r - 1
  {
    var y := r - 1;
    HighestDifferingBit(l, y);
    XorBelow(l, y, b);
    BitLengthAtMost(Xor(l, y), b);
    BlockHalves(l, y, BitLength(Xor(l, y)));
  }

  /** Two indices in the lower and upper half of one aligned block of width `2^i` straddle its midpoint. */
  lemma BlockHalves(l: nat, y: nat, i: nat)
    requires i >= 1 && Shift(l, i) == Shift(y, i)
    requires Shift(l, i - 1) == 2 * Shift(l, i) && Shift(y, i - 1) == 2 * Shift(l, i) + 1
    ensures Mid(i, l) == Mid(i, y) && l < Mid(i, l) <= y
  {
    ShiftBounds(l, i - 1);
    ShiftBounds(y, i - 1);
    MidBetween(Shift(l, i), Shift(l, i - 1), Shift(y, i - 1), Pow2(i - 1), Pow2(i), l, y);
  }

  /** The arithmetic of `FoldLevel`: block `2s` of width `h` holds `l`, block `2s + 1` holds `y`. */
  lemma MidBetween(s: nat, sl: nat, sy: nat, h: nat, p: nat, l: nat, y: nat)
    requires sl == 2 * s && sy == 2 * s + 1 && p == 2 * h
    requires sl * h <= l < (sl + 1) * h && sy * h <= y
    ensures l < s * p + h <= y
  {
    assert sl * h == 2 * (s * h);
    assert (sl + 1) * h == 2 * (s * h) + h;
    assert sy * h == 2 * (s * h) + h;
    assert s * p == 2 * (s * h);
  }

  /** Row 0 is `v`. */
  ghost predicate RowZero(a: array2<int>, v: seq<int>)
    reads a
  {
    a.Length0 >= 1 && a.Length1 == |v| && forall j {:trigger a[0, j]} :: 0 <= j < |v| ==> a[0, j] == v[j]
  }

  /** Levels `1 .. i - 1` are complete. */
  ghost predicate LevelsBelow(a: array2<int>, v: seq<int>, i: nat)
    reads a
  {
    forall i', j {:trigger a[i', j]} ::
      1 <= i' < i && i' < a.Length0 && 0 <= j < a.Length1 && j < |v| && Mid(i', j) < |v| ==>
        a[i', j] == Expected(v, i', j)
  }

  /** Level `i` is complete below column `c`. */
  ghost predicate LevelPrefix(a: array2<int>, v: seq<int>, i: nat, c: nat)
    reads a
  {
    1 <= i < a.Length0 &&
    forall j {:trigger a[i, j]} :: 0 <= j < c && j < a.Length1 && j < |v| && Mid(i, j) < |v| ==> a[i, j] == Expected(v, i, j)
  }

  /** The build state at level `i` before the block starting at `c`. */
  ghost predicate Built(a: array2<int>, v: seq<int>, i: nat, c: nat)
    reads a
  {
    RowZero(a, v) && LevelsBelow(a, v, i) && LevelPrefix(a, v, i, c)
  }

  /** Level `i` holds, from `j` up to the midpoint `m`, the suffix sums ending at `m`. */
  ghost predicate LeftFrom(a: array2<int>, v: seq<int>, i: nat, j: nat, m: nat)
    reads a
  {
    i < a.Length0 && j <= m <= |v| && a.Length1 == |v| &&
    forall j' {:trigger a[i, j']} :: j <= j' < m ==> a[i, j'] == Total(v[j'..m])
  }

  /** Level `i` holds, from the midpoint `m` up to `j`, the prefix sums starting at `m`. */
  ghost predicate RightUpTo(a: array2<int>, v: seq<int>, i: nat, m: nat, j: nat)
    reads a
  {
    i < a.Length0 && m <= j <= |v| && a.Length1 == |v| &&
    forall j' {:trigger a[i, j']} :: m <= j' < j ==> a[i, j'] == Total(v[m..j' + 1])
  }

  /**
   * The backward loop of one block: suffix sums from `m - 1` down to `lo`,
   * with `v[j]` as the left operand (the order `DisjointFoldOrder.Left` shows
   * right for every monoid; for `+` both orders agree).
   */
  method FillLeft(a: array2<int>, v: seq<int>, i: nat, lo: nat, m: nat)
    requires Built(a, v, i, lo) && lo < m < |v|
    modifies a
    ensures Built(a, v, i, lo) && LeftFrom(a, v, i, lo, m)
  {
    a[i, m - 1] := v[m - 1];
    assert v[m - 1..m] == [v[m - 1]];
    var j: int := m - 2;
    while j >= lo
      invariant lo - 1 <= j <= m - 2
      invariant Built(a, v, i, lo) && LeftFrom(a, v, i, j + 1, m)
      decreases j
    {
      TotalPrepend(v, j, m);
      a[i, j] := v[j] + a[i, j + 1];
      j := j - 1;
    }
  }

  /** The forward loop of one block: prefix sums from `m` up to the block end or the array end. */
  method FillRight(a: array2<int>, v: seq<int>, i: nat, lo: nat, m: nat, hi: nat)
    requires Built(a, v, i, lo) && LeftFrom(a, v, i, lo, m) && lo < m < hi <= |v|
    modifies a
    ensures Built(a, v, i, lo) && LeftFrom(a, v, i, lo, m) && RightUpTo(a, v, i, m, hi)
  {
    a[i, m] := v[m];
    assert v[m..m + 1] == [v[m]];
    var j := m + 1;
    while j < hi
      invariant m + 1 <= j <= hi
      invariant Built(a, v, i, lo) && LeftFrom(a, v, i, lo, m) && RightUpTo(a, v, i, m, j)
      decreases hi - j
    {
      TotalExtend(v, m, j);
      a[i, j] := a[i, j - 1] + v[j];
      j := j + 1;
    }
  }

  /** A finished block `c` of level `i` extends the complete prefix of that level past the block. */
  lemma BlockDone(a: array2<int>, v: seq<int>, i: nat, c: nat, hi: nat)
    requires 1 <= i && c * Pow2(i) + Pow2(i - 1) < |v|
    requires hi == if c * Pow2(i) + Pow2(i) < |v| then c * Pow2(i) + Pow2(i) else |v|
    requires LevelPrefix(a, v, i, c * Pow2(i))
    requires LeftFrom(a, v, i, c * Pow2(i), c * Pow2(i) + Pow2(i - 1))
    requires RightUpTo(a, v, i, c * Pow2(i) + Pow2(i - 1), hi)
    ensures LevelPrefix(a, v, i, c * Pow2(i) + Pow2(i))
  {
    var lo, m := c * Pow2(i), c * Pow2(i) + Pow2(i - 1);
    forall j | lo <= j < lo + Pow2(i) && j < a.Length1 && j < |v| && Mid(i, j) < |v|
      ensures a[i, j] == Expected(v, i, j)
    {
      BlockMid(i, c, j);
      if j < m {
        assert a[i, j] == Total(v[j..m]);
      } else {
        assert j < hi;
        assert a[i, j] == Total(v[m..j + 1]);
      }
    }
  }

  /** One block of the level loop. */
  method FillBlock(a: array2<int>, v: seq<int>, i: nat, lo: nat, ghost c: nat)
    requires lo == c * Pow2(i) && Built(a, v, i, lo) && lo + Pow2(i - 1) < |v|
    modifies a
    ensures Built(a, v, i, lo + Pow2(i))
  {
    var len := Pow2(i);
    var m := lo + len / 2;
    assert len / 2 == Pow2(i - 1);
    var hi := if lo + len < |v| then lo + len else |v|;
    FillLeft(a, v, i, lo, m);
    FillRight(a, v, i, lo, m, hi);
    BlockDone(a, v, i, c, hi);
  }

  /** Past the last block with a midpoint inside `v` nothing is left to build on level `i`. */
  lemma LevelDone(a: array2<int>, v: seq<int>, i: nat, c: nat)
    requires Built(a, v, i, c * Pow2(i)) && c * Pow2(i) + Pow2(i - 1) >= |v|
    ensures RowZero(a, v) && LevelsBelow(a, v, i + 1)
  {
    forall j | c * Pow2(i) <= j {
      MidBeyond(i, c, j);
    }
  }

  /** The block loop of level `i`. */
  method FillLevel(a: array2<int>, v: seq<int>, i: nat)
    requires 1 <= i < a.Length0 && RowZero(a, v) && LevelsBelow(a, v, i)
    modifies a
    ensures RowZero(a, v) && LevelsBelow(a, v, i + 1)
  {
    var len := Pow2(i);
    var lo := 0;
    ghost var c: nat := 0;
    while lo + len / 2 < |v|
      invariant lo == c * len && Built(a, v, i, lo)
      decreases |v| - lo
    {
      assert len / 2 == Pow2(i - 1);
      FillBlock(a, v, i, lo, c);
      Distribute(c, len);
      lo := lo + len;
      c := c + 1;
    }
    assert len / 2 == Pow2(i - 1);
    LevelDone(a, v, i, c);
  }

  class DisjointSparseTable {
    const n: nat
    /** The highest level: the least `b` with `2^b >= n`. */
    const b: nat
    const lookup: array2<int>
    /** The sequence the table was built from. */
    ghost const values: seq<int>

    ghost predicate Valid()
      reads this, lookup
    {
      |values| == n && n <= Pow2(b) && lookup.Length0 == b + 1 && RowZero(lookup, values) && LevelsBelow(lookup, values, b + 1)
    }

    /** The level-by-level build; entries in blocks whose midpoint lies past the end stay 0. */
    constructor (v: seq<int>)
      ensures Valid() && values == v && n == |v|
      ensures (b == 0 || Pow2(b - 1) < n) && n <= Pow2(b)
    {
      var size := |v|;
      var levels: nat := 0;
      while Pow2(levels) < size
        invariant levels == 0 || Pow2(levels - 1) < size
        decreases size - Pow2(levels)
      {
        levels := levels + 1;
      }
      var a := new int[levels + 1, size]((_, _) => 0);
      for j := 0 to size
        invariant forall j' :: 0 <= j' < j ==> a[0, j'] == v[j']
      {
        a[0, j] := v[j];
      }
      for i := 1 to levels + 1
        invariant RowZero(a, v) && LevelsBelow(a, v, i)
      {
        FillLevel(a, v, i);
      }
      n, b, lookup, values := size, levels, a, v;
    }

    /** `fold(l, r)`: the sum of the values in `[l, r)`, 0 for the empty range. */
    function Fold(l: int, r: int): (x: int)
      reads this, lookup
      requires Valid() && 0 <= l <= r <= n
      ensures x == Total(values[l..r])
    {
      if l == r then
        assert values[l..r] == [];
        0
      else if r - l == 1 then
        assert values[l..r] == [values[l]];
        assert [values[l]][..0] == [];
        lookup[0, l]
      else
        var i := BitLength(Xor(l, r - 1));
        FoldLevel(l, r, n, b);
        TotalSplit(values, l, Mid(i, l), r);
        lookup[i, l] + lookup[i, r - 1]
    }
  }
}
