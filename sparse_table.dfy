/**
 * The sparse table of data-structure/sparse_table.cpp, instantiated with the
 * idempotent operation `min` over integers.
 *
 * Row `i` of `lookup` holds, at column `j`, the minimum of the `2^i` values
 * starting at `j`; `fold(l, r)` answers with the minimum of two overlapping
 * windows of the largest power-of-two width that fits in `[l, r)`.
 */
module SparseTableMin {
  import opened BitOps

  function Min(x: int, y: int): int {
    if x <= y then x else y
  }

  /** The minimum of a non-empty sequence. */
  function MinOf(s: seq<int>): int
    requires |s| > 0
  {
    if |s| == 1 then s[0] else Min(MinOf(s[..|s| - 1]), s[|s| - 1])
  }

  /** `MinOf` is an element of the sequence that is no larger than any other. */
  lemma {:induction false} MinOfIsMinimum(s: seq<int>)
    requires |s| > 0
    ensures MinOf(s) in s
    ensures forall k :: 0 <= k < |s| ==> MinOf(s) <= s[k]
  {
    if |s| > 1 {
      var init := s[..|s| - 1];
      MinOfIsMinimum(init);
      assert forall k :: 0 <= k < |s| - 1 ==> init[k] == s[k];
    }
  }

  /** Any element that is no larger than the others is the minimum. */
  lemma MinOfUnique(s: seq<int>, m: int)
    requires m in s && forall k :: 0 <= k < |s| ==> m <= s[k]
    ensures MinOf(s) == m
  {
    MinOfIsMinimum(s);
  }

  /**
   * Two windows `[lo, b)` and `[a, hi)` that overlap or touch (`a <= b`) and
   * together cover `[lo, hi)`: the minimum of the whole range is the smaller
   * of the two windows' minima. The doubling build uses it with `a == b`, the
   * fold with overlapping windows.
   */
  lemma MinOfCover(s: seq<int>, lo: nat, a: nat, b: nat, hi: nat)
    requires lo <= a <= b <= hi <= |s| && lo < b && a < hi
    ensures MinOf(s[lo..hi]) == Min(MinOf(s[lo..b]), MinOf(s[a..hi]))
  {
    var m1, m2 := MinOf(s[lo..b]), MinOf(s[a..hi]);
    var m := Min(m1, m2);
    MinOfIsMinimum(s[lo..b]);
    MinOfIsMinimum(s[a..hi]);
    forall k | lo <= k < hi ensures m <= s[k] {
      if k < b {
        assert s[lo..b][k - lo] == s[k];
      } else {
        assert s[a..hi][k - a] == s[k];
      }
    }
    var k1 :| lo <= k1 < b && s[k1] == m1 by {
      var t :| 0 <= t < b - lo && s[lo..b][t] == m1;
      assert s[lo + t] == m1;
    }
    var k2 :| a <= k2 < hi && s[k2] == m2 by {
      var t :| 0 <= t < hi - a && s[a..hi][t] == m2;
      assert s[a + t] == m2;
    }
    var k := if m1 <= m2 then k1 else k2;
    assert s[lo..hi][k - lo] == m;
    forall t | 0 <= t < hi - lo ensures m <= s[lo..hi][t] {
      assert s[lo..hi][t] == s[lo + t];
    }
    MinOfUnique(s[lo..hi], m);
  }

  /** `fold` picks `i = Log2(r - l)`: both windows of width `2^i` lie inside `[l, r)` and together cover it. */
  lemma FoldWindows(l: nat, r: nat, i: nat)
    requires l < r && i == Log2(r - l)
    ensures l + Pow2(i) <= r && r - Pow2(i) >= l
    ensures r - Pow2(i) <= l + Pow2(i)
  {
    assert Pow2(i + 1) == 2 * Pow2(i);
  }

  /** The level `fold` reads exists: `2^i <= r - l <= n < 2^b` forces `i < b`. */
  lemma LevelExists(i: nat, b: nat, n: nat)
    requires Pow2(i) <= n < Pow2(b)
    ensures i < b
  {
    if i >= b {
      Pow2Monotone(b, i);
    }
  }

  /** The build formula of level `i >= 1` from the two halves at level `i - 1`. */
  lemma Doubling(v: seq<int>, i: nat, j: nat)
    requires i >= 1 && j + Pow2(i) <= |v|
    ensures Pow2(i) == 2 * Pow2(i - 1)
    ensures MinOf(v[j..j + Pow2(i)])
         == Min(MinOf(v[j..j + Pow2(i - 1)]), MinOf(v[j + Pow2(i - 1)..j + Pow2(i)]))
  {
    var h := Pow2(i - 1);
    MinOfCover(v, j, j + h, j + h, j + 2 * h);
  }

  /** Rows below `i` hold the minima of their windows. */
  ghost predicate RowsBelow(a: array2<int>, v: seq<int>, i: nat)
    reads a
  {
    forall i', j {:trigger a[i', j]} :: 0 <= i' < i && i' < a.Length0 && 0 <= j < a.Length1 && j + Pow2(i') <= |v| ==>
      a[i', j] == MinOf(v[j..j + Pow2(i')])
  }

  /** Row `i` holds the minima of its windows at the columns below `j`. */
  ghost predicate RowPrefix(a: array2<int>, v: seq<int>, i: nat, j: nat)
    reads a
  {
    i < a.Length0 && j <= a.Length1 &&
    forall j' {:trigger a[i, j']} :: 0 <= j' < j && j' + Pow2(i) <= |v| ==> a[i, j'] == MinOf(v[j'..j' + Pow2(i)])
  }

  class SparseTable {
    const n: nat
    /** The number of levels: the least `b` with `2^b > n`. */
    const b: nat
    const lookup: array2<int>
    /** The sequence the table was built from. */
    ghost const values: seq<int>

    ghost predicate Valid()
      reads this, lookup
    {
      |values| == n && n < Pow2(b) && lookup.Length0 == b && lookup.Length1 == n && RowsBelow(lookup, values, b)
    }

    /** The doubling build. The source writes row 0 without checking, so `v` must be non-empty. */
    constructor (v: seq<int>)
      requires |v| > 0
      ensures Valid() && values == v && n == |v|
      ensures b >= 1 && Pow2(b - 1) <= n < Pow2(b)
      ensures forall j :: 0 <= j < n ==> lookup[0, j] == v[j]
    {
      var size := |v|;
      var levels: nat := 0;
      while Pow2(levels) <= size
        invariant levels == 0 || Pow2(levels - 1) <= size
        decreases size - Pow2(levels)
      {
        levels := levels + 1;
      }
      var a := new int[levels, size];
      for j := 0 to size
        invariant forall j' :: 0 <= j' < j ==> a[0, j'] == v[j']
      {
        a[0, j] := v[j];
      }
      assert RowsBelow(a, v, 1) by {
        forall j | 0 <= j < size && j + Pow2(0) <= size ensures a[0, j] == MinOf(v[j..j + Pow2(0)]) {
          assert v[j..j + 1] == [v[j]];
        }
      }
      for i := 1 to levels
        invariant RowsBelow(a, v, i)
      {
        FillRow(a, v, i);
      }
      forall j | 0 <= j < size ensures a[0, j] == v[j] {
        assert v[j..j + Pow2(0)] == [v[j]];
      }
      n, b, lookup, values := size, levels, a, v;
    }

    /** The inner build loop for level `i`, from the two halves at level `i - 1`. */
    static method FillRow(a: array2<int>, v: seq<int>, i: nat)
      requires 1 <= i < a.Length0 && a.Length1 == |v| && RowsBelow(a, v, i)
      modifies a
      ensures RowsBelow(a, v, i + 1)
    {
      var j := 0;
      while j + Pow2(i) <= |v|
        invariant j == 0 || j + Pow2(i) <= |v| + 1
        invariant RowsBelow(a, v, i) && RowPrefix(a, v, i, j)
        decreases |v| - j
      {
        FillCell(a, v, i, j);
        j := j + 1;
      }
    }

    /** One step of the inner build loop: `lookup[i][j] = op(lookup[i - 1][j], lookup[i - 1][j + 2^(i - 1)])`. */
    static method FillCell(a: array2<int>, v: seq<int>, i: nat, j: nat)
      requires 1 <= i < a.Length0 && a.Length1 == |v| && j + Pow2(i) <= |v|
      requires RowsBelow(a, v, i) && RowPrefix(a, v, i, j)
      modifies a
      ensures RowsBelow(a, v, i) && RowPrefix(a, v, i, j + 1)
    {
      Doubling(v, i, j);
      var h := Pow2(i - 1);
      a[i, j] := Min(a[i - 1, j], a[i - 1, j + h]);
    }

    /** `fold(l, r)` for `l < r` (the source's bit count is undefined at `r - l == 0`): the minimum of the values in `[l, r)`. */
    function Fold(l: int, r: int): (x: int)
      reads this, lookup
      requires Valid() && 0 <= l < r <= n
      ensures x == MinOf(values[l..r])
    {
      var i := Log2(r - l);
      FoldWindows(l, r, i);
      LevelExists(i, b, n);
      MinOfCover(values, l, r - Pow2(i), l + Pow2(i), r);
      Min(lookup[i, l], lookup[i, r - Pow2(i)])
    }
  }
}
