/**
 * The range-update Fenwick tree of data-structure/range_fenwick_tree.cpp.
 *
 * Two Fenwick arrays `data0` and `data1` (1-indexed, length `n + 1`) hold the
 * difference sequence `D` of the abstract array `values` and the weighted
 * sequence `W[k] = -(k - 1) * D[k]`. A prefix sum of `values` is then
 * `sum(D, i) * (i - 1) + sum(W, i)`, and adding `x` on `[l, r]` touches `D`
 * and `W` at two indices each.
 */
module RangeFenwick {
  import opened BitOps
  import opened SeqSum

  /** A Fenwick array `data` (index 0 unused) stores, at `j`, the sum of the `Low(j)` entries of `b` ending just before `j`. */
  ghost predicate Represents(data: seq<int>, b: seq<int>) {
    |data| == |b| + 1 && forall j {:trigger data[j]} :: 1 <= j <= |b| ==> data[j] == Total(b[j - Low(j)..j])
  }

  /** `b` with `x` added at index `i`; an index past the end changes nothing. */
  function Bump(b: seq<int>, i: nat, x: int): (r: seq<int>)
    ensures |r| == |b|
    ensures forall k :: 0 <= k < |b| ==> r[k] == b[k] + (if k == i then x else 0)
    ensures i >= |b| ==> r == b
  {
    if i < |b| then b[i := b[i] + x] else b
  }

  /** A range that does not contain `i` has the same sum after a bump at `i`. */
  lemma BumpOutside(b: seq<int>, i: nat, x: int, lo: nat, hi: nat)
    requires lo <= hi <= |b| && (i < lo || hi <= i)
    ensures Total(Bump(b, i, x)[lo..hi]) == Total(b[lo..hi])
  {
    assert Bump(b, i, x)[lo..hi] == b[lo..hi];
  }

  /** A range that contains `i` gains exactly `x`. */
  lemma BumpInside(b: seq<int>, i: nat, x: int, lo: nat, hi: nat)
    requires lo <= i < hi <= |b|
    ensures Total(Bump(b, i, x)[lo..hi]) == Total(b[lo..hi]) + x
  {
    var c := Bump(b, i, x);
    TotalSplit(b, lo, i, hi);
    TotalSplit(c, lo, i, hi);
    TotalSplit(b, i, i + 1, hi);
    TotalSplit(c, i, i + 1, hi);
    assert c[lo..i] == b[lo..i] && c[i + 1..hi] == b[i + 1..hi];
    assert c[i..i + 1] == [b[i] + x] && b[i..i + 1] == [b[i]];
    assert [b[i] + x][..0] == [] && [b[i]][..0] == [];
  }

  /** The private `add(data, i, x)` raises the private `sum(data, j)` by `x` exactly for `j >= i + 1`. */
  lemma BumpPrefix(b: seq<int>, i: nat, x: int, j: nat)
    requires i < |b| && j <= |b|
    ensures Total(Bump(b, i, x)[..j]) == Total(b[..j]) + (if i < j then x else 0)
  {
    assert Bump(b, i, x)[..j] == Bump(b, i, x)[0..j] && b[..j] == b[0..j];
    if i < j { BumpInside(b, i, x, 0, j); } else { BumpOutside(b, i, x, 0, j); }
  }

  /** The difference sequence: `D[k] = A[k] - A[k - 1]`, with `A[-1] = 0`. */
  function Diff(a: seq<int>): (d: seq<int>)
    ensures |d| == |a|
  {
    seq(|a|, k requires 0 <= k < |a| => a[k] - (if k == 0 then 0 else a[k - 1]))
  }

  /** The weighted sequence kept in `data1`: `W[k] = -(k - 1) * D[k]`. */
  function Weighted(d: seq<int>): (w: seq<int>)
    ensures |w| == |d|
  {
    seq(|d|, k requires 0 <= k < |d| => -(k - 1) * d[k])
  }

  /**
   * The abstract effect of the public `add(l, r, x)`: `x` added from index `l`
   * on and taken away again from index `r + 1` on.
   */
  function RangeAdd(a: seq<int>, l: int, r: int, x: int): (a': seq<int>)
    ensures |a'| == |a|
  {
    seq(|a|, k requires 0 <= k < |a| => a[k] + (if l <= k then x else 0) - (if r + 1 <= k then x else 0))
  }

  /** For a proper range `l <= r + 1` that is exactly `x` added on `[l, r]` and nothing elsewhere. */
  lemma RangeAddInterval(a: seq<int>, l: int, r: int, x: int)
    requires l <= r + 1
    ensures forall k :: 0 <= k < |a| ==> RangeAdd(a, l, r, x)[k] == a[k] + (if l <= k <= r then x else 0)
  {
  }

  /** The difference sequence telescopes: its prefix sums are the array's entries. */
  lemma {:induction false} DiffTelescopes(a: seq<int>, i: nat)
    requires 1 <= i <= |a|
    ensures Total(Diff(a)[..i]) == a[i - 1]
  {
    TotalAppend(Diff(a), i - 1);
    if i > 1 {
      DiffTelescopes(a, i - 1);
    } else {
      assert Diff(a)[..0] == [];
    }
  }

  /**
   * The identity the public `sum` relies on: `sum(D, i) * (i - 1) + sum(W, i)`
   * is the prefix sum of the first `i` entries of the array.
   */
  lemma {:induction false} PrefixIdentity(a: seq<int>, i: nat)
    requires i <= |a|
    ensures Total(Diff(a)[..i]) * (i - 1) + Total(Weighted(Diff(a))[..i]) == Total(a[..i])
  {
    var d, w := Diff(a), Weighted(Diff(a));
    if i == 0 {
      assert d[..0] == [] && w[..0] == [] && a[..0] == [];
    } else {
      PrefixIdentity(a, i - 1);
      TotalAppend(d, i - 1);
      TotalAppend(w, i - 1);
      TotalAppend(a, i - 1);
      DiffTelescopes(a, i);
      var prev := if i == 1 then 0 else a[i - 2];
      if i > 1 { DiffTelescopes(a, i - 1); } else { assert d[..0] == []; }
      assert w[i - 1] == -(i - 2) * (a[i - 1] - prev);
      PrefixStep(i, a[i - 1], prev, Total(w[..i - 1]), Total(a[..i - 1]));
    }
  }

  /** The arithmetic of one step of `PrefixIdentity`. */
  lemma PrefixStep(i: int, cur: int, prev: int, tw: int, ta: int)
    requires prev * (i - 2) + tw == ta
    ensures cur * (i - 1) + (tw + -(i - 2) * (cur - prev)) == ta + cur
  {
    assert -(i - 2) * (cur - prev) == -(i - 2) * cur + (i - 2) * prev;
  }

  /** The two bumps of `add(l, r, x)` on `data0` turn the difference sequence of `a` into that of the updated array. */
  lemma DiffOfRangeAdd(a: seq<int>, l: nat, r: int, x: int)
    requires r + 1 >= 0
    ensures Bump(Bump(Diff(a), l, x), r + 1, -x) == Diff(RangeAdd(a, l, r, x))
  {
    var lhs, rhs := Bump(Bump(Diff(a), l, x), r + 1, -x), Diff(RangeAdd(a, l, r, x));
    forall k | 0 <= k < |a| ensures lhs[k] == rhs[k] {
    }
  }

  /** The two bumps of `add(l, r, x)` on `data1` turn the weighted sequence of `a` into that of the updated array. */
  lemma WeightedOfRangeAdd(a: seq<int>, l: nat, r: int, x: int)
    requires r + 1 >= 0
    ensures Bump(Bump(Weighted(Diff(a)), l, -x * (l - 1)), r + 1, x * r) == Weighted(Diff(RangeAdd(a, l, r, x)))
  {
    DiffOfRangeAdd(a, l, r, x);
    var d, d' := Diff(a), Diff(RangeAdd(a, l, r, x));
    var lhs, rhs := Bump(Bump(Weighted(d), l, -x * (l - 1)), r + 1, x * r), Weighted(d');
    forall k | 0 <= k < |a| ensures lhs[k] == rhs[k] {
      var dk := d[k];
      assert d'[k] == dk + (if k == l then x else 0) + (if k == r + 1 then -x else 0);
      assert Weighted(d)[k] == -(k - 1) * dk;
      WeightShift(k, l, r, x, dk);
    }
  }

  /** Pointwise arithmetic behind `WeightedOfRangeAdd`. */
  lemma WeightShift(k: int, l: int, r: int, x: int, dk: int)
    ensures -(k - 1) * (dk + (if k == l then x else 0) + (if k == r + 1 then -x else 0))
         == -(k - 1) * dk + (if k == l then -x * (l - 1) else 0) + (if k == r + 1 then x * r else 0)
  {
    var e := (if k == l then x else 0) + (if k == r + 1 then -x else 0);
    assert -(k - 1) * (dk + e) == -(k - 1) * dk - (k - 1) * e;
    assert (k - 1) * e == (if k == l then (l - 1) * x else 0) + (if k == r + 1 then -r * x else 0);
  }

  /** A fresh tree represents the all-zero array. */
  lemma ZerosRepresented(n: nat, data: seq<int>)
    requires |data| == n + 1 && forall j :: 0 <= j <= n ==> data[j] == 0
    ensures Represents(data, Diff(seq(n, _ => 0))) && Represents(data, Weighted(Diff(seq(n, _ => 0))))
  {
    var z := seq(n, _ => 0);
    assert Diff(z) == z && Weighted(z) == z;
    forall j | 1 <= j <= n ensures Total(z[j - Low(j)..j]) == 0 {
      TotalZero(z[j - Low(j)..j]);
    }
  }

  lemma {:induction false} TotalZero(s: seq<int>)
    requires forall k :: 0 <= k < |s| ==> s[k] == 0
    ensures Total(s) == 0
  {
    if |s| > 0 { TotalZero(s[..|s| - 1]); }
  }

  /** During the private `add`: the partial sums at indices below `k` already include the bump, the others not yet. */
  ghost predicate UpdatedBelow(data: seq<int>, b: seq<int>, b': seq<int>, k: nat)
    requires |b'| == |b|
  {
    |data| == |b| + 1 && forall j {:trigger data[j]} :: 1 <= j <= |b| ==> data[j] == Total((if j < k then b' else b)[j - Low(j)..j])
  }

  /** Before the first step no partial sum below `i + 1` covers index `i`. */
  lemma {:induction false} AddStart(data: seq<int>, b: seq<int>, i: nat, x: int)
    requires Represents(data, b)
    ensures UpdatedBelow(data, b, Bump(b, i, x), i + 1)
  {
    forall j | 1 <= j <= |b| && j < i + 1 ensures Total(Bump(b, i, x)[j - Low(j)..j]) == Total(b[j - Low(j)..j]) {
      BumpOutside(b, i, x, j - Low(j), j);
    }
  }

  /**
   * One step of the private `add`, at one index `j`: the partial sum at `k`
   * covers `i` and gains `x`; those strictly between `k` and `k + Low(k)` do not
   * cover `i`.
   */
  lemma {:induction false} AddStepAt(b: seq<int>, i: nat, x: int, k: nat, j: nat)
    requires 1 <= k <= |b| && k - Low(k) <= i < k && k <= j <= |b|
    ensures j == k ==> Total(Bump(b, i, x)[j - Low(j)..j]) == Total(b[j - Low(j)..j]) + x
    ensures k < j < k + Low(k) ==> Total(Bump(b, i, x)[j - Low(j)..j]) == Total(b[j - Low(j)..j])
  {
    if j == k {
      BumpInside(b, i, x, k - Low(k), k);
    } else if j < k + Low(k) {
      LowSkip(k, j - k);
      BumpOutside(b, i, x, j - Low(j), j);
    }
  }

  /** One step of the private `add` keeps the loop invariant, and the next index covers `i` again. */
  lemma {:induction false} AddStep(data: seq<int>, b: seq<int>, i: nat, x: int, k: nat)
    requires 1 <= k <= |b| && k - Low(k) <= i < k
    requires UpdatedBelow(data, b, Bump(b, i, x), k)
    ensures UpdatedBelow(data[k := data[k] + x], b, Bump(b, i, x), k + Low(k))
    ensures k + Low(k) <= |b| ==> k + Low(k) - Low(k + Low(k)) <= i
  {
    var b', d' := Bump(b, i, x), data[k := data[k] + x];
    forall j | 1 <= j <= |b| ensures d'[j] == Total((if j < k + Low(k) then b' else b)[j - Low(j)..j]) {
      if k <= j {
        AddStepAt(b, i, x, k, j);
      }
    }
    LowCarry(k);
  }

  /** After the last step every partial sum includes the bump. */
  lemma {:induction false} AddEnd(data: seq<int>, b: seq<int>, i: nat, x: int, k: nat)
    requires k > |b| && UpdatedBelow(data, b, Bump(b, i, x), k)
    ensures Represents(data, Bump(b, i, x))
  {
  }

  class RangeFenwickTree {
    const n: nat
    const data0: array<int>
    const data1: array<int>
    /** The array the tree stands for. */
    ghost var values: seq<int>

    ghost predicate Valid()
      reads this, data0, data1
    {
      && data0 != data1 && data0.Length == n + 1 && data1.Length == n + 1 && |values| == n
      && Represents(data0[..], Diff(values)) && Represents(data1[..], Weighted(Diff(values)))
    }

    /** A tree over `n` zeros. */
    constructor (n: nat)
      ensures Valid() && this.n == n && values == seq(n, _ => 0)
      ensures fresh(data0) && fresh(data1)
    {
      this.n := n;
      data0 := new int[n + 1](_ => 0);
      data1 := new int[n + 1](_ => 0);
      values := seq(n, _ => 0);
      new;
      ZerosRepresented(n, data0[..]);
      ZerosRepresented(n, data1[..]);
    }

    /** The private `sum(data, i)`: walks down by lowest set bits, adding up the stored partial sums. */
    method FenwickSum(data: array<int>, i: int, ghost b: seq<int>) returns (ret: int)
      requires Represents(data[..], b) && i <= |b|
      ensures ret == if i <= 0 then 0 else Total(b[..i])
    {
      ret := 0;
      if i <= 0 {
        return;
      }
      var k: nat := i;
      while k > 0
        invariant k <= i
        invariant ret + Total(b[..k]) == Total(b[..i])
        decreases k
      {
        var lo := k - Low(k);
        assert data[..][k] == Total(b[lo..k]);
        TotalSplit(b, 0, lo, k);
        assert b[0..k] == b[..k] && b[0..lo] == b[..lo];
        ret := ret + data[k];
        k := lo;
      }
      assert b[..0] == [];
    }

    /** The private `add(data, i, x)`: walks up from `i + 1` by lowest set bits, adding `x` to every partial sum that covers index `i`. */
    method FenwickAdd(data: array<int>, i: nat, x: int, ghost b: seq<int>)
      requires data.Length == n + 1 && Represents(data[..], b)
      modifies data
      ensures Represents(data[..], Bump(b, i, x))
    {
      ghost var b' := Bump(b, i, x);
      var k := i + 1;
      AddStart(data[..], b, i, x);
      while k <= n
        invariant i + 1 <= k
        invariant k <= n ==> k - Low(k) <= i
        invariant UpdatedBelow(data[..], b, b', k)
        decreases n + 1 - k
      {
        ghost var d := data[..];
        AddStep(d, b, i, x, k);
        data[k] := data[k] + x;
        assert data[..] == d[k := d[k] + x];
        k := k + Low(k);
      }
      AddEnd(data[..], b, i, x, k);
    }

    /** The public `sum(i)`: the sum of the first `i` entries of the array (0 for `i <= 0`). */
    method Sum(i: int) returns (s: int)
      requires Valid() && i <= n
      ensures s == if i <= 0 then 0 else Total(values[..i])
    {
      var s0 := FenwickSum(data0, i, Diff(values));
      var s1 := FenwickSum(data1, i, Weighted(Diff(values)));
      s := s0 * (i - 1) + s1;
      if i > 0 {
        PrefixIdentity(values, i);
      }
    }

    /**
     * The public `add(l, r, x)`: adds `x` to every entry with index in `[l, r]`
     * (see `RangeAddInterval`); indices past the end are ignored.
     */
    method Add(l: nat, r: int, x: int)
      requires Valid() && r + 1 >= 0
      modifies data0, data1, this`values
      ensures Valid() && values == RangeAdd(old(values), l, r, x)
    {
      ghost var a := values;
      AddTwice(data0, l, x, r + 1, -x, Diff(a));
      AddTwice(data1, l, -x * (l - 1), r + 1, x * r, Weighted(Diff(a)));
      values := RangeAdd(a, l, r, x);
      DiffOfRangeAdd(a, l, r, x);
      WeightedOfRangeAdd(a, l, r, x);
      assert Represents(data0[..], Diff(values));
      assert Represents(data1[..], Weighted(Diff(values)));
    }

    /** Two private `add` calls on the same Fenwick array. */
    method AddTwice(data: array<int>, i: nat, x: int, j: nat, y: int, ghost b: seq<int>)
      requires data.Length == n + 1 && Represents(data[..], b)
      modifies data
      ensures Represents(data[..], Bump(Bump(b, i, x), j, y))
    {
      FenwickAdd(data, i, x, b);
      FenwickAdd(data, j, y, Bump(b, i, x));
    }
  }
}
