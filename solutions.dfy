/**
 * Reading the solutions of a linear system off the reduced row echelon form
 * of its augmented matrix, as `solve_system` of math/matrix/matrix.cpp
 * (lines 126-147) does: a particular solution puts the last column of each
 * pivot row at that row's pivot column, and each non-pivot column `f` gives
 * a solution of the homogeneous system with 1 at `f` and minus column `f` of
 * each earlier pivot row at that row's pivot column.
 */
module Solutions {
  import opened MatrixAlgebra
  import opened RowReduction

  /**
   * The first `c` pivot rows of the echelon form `sol` (of `n + 1` columns)
   * have been read into the flags `independent`, the particular solution `x0`
   * and the vectors `bases`, all pivot columns read so far being before the
   * last column.
   */
  ghost predicate Read(sol: seq<seq<real>>, n: nat, cols: seq<int>, c: nat,
                       independent: seq<bool>, x0: seq<real>, bases: seq<seq<real>>)
  {
    IsMatrix(sol, |sol|, n + 1) && c <= |cols| && c <= |sol| &&
    |independent| == n && |x0| == n && IsMatrix(bases, n, n) &&
    (forall r :: 0 <= r < c ==> 0 <= cols[r] < n && x0[cols[r]] == sol[r][n]) &&
    (forall l :: 0 <= l < n ==> (independent[l] <==> l in cols[..c])) &&
    (forall l :: 0 <= l < n && l !in cols[..c] ==> x0[l] == 0.0) &&
    (forall f :: 0 <= f < n ==> bases[f][f] == 1.0) &&
    (forall f, r :: 0 <= f < n && 0 <= r < c && cols[r] < f ==> bases[f][cols[r]] == -sol[r][f]) &&
    (forall f, l :: 0 <= f < n && 0 <= l < n && l != f && (l !in cols[..c] || f < l) ==> bases[f][l] == 0.0)
  }

  /** Nothing read: no column independent, the zero vector, and the identity. */
  lemma ReadStart(sol: seq<seq<real>>, n: nat, cols: seq<int>, bases: seq<seq<real>>)
    requires IsMatrix(sol, |sol|, n + 1) && IsMatrix(bases, n, n)
    requires forall f, l :: 0 <= f < n && 0 <= l < n ==> bases[f][l] == if f == l then 1.0 else 0.0
    ensures Read(sol, n, cols, 0, seq(n, _ => false), ZeroVec(n), bases)
  {
  }

  /**
   * Reading pivot row `c`, whose pivot column `j` is before the last one:
   * `j` becomes independent, the particular solution takes the row's last
   * entry at `j`, and every later basis vector `k` takes minus the row's
   * entry `k` at `j`.
   */
  lemma ReadStep(sol: seq<seq<real>>, n: nat, cols: seq<int>, c: nat,
                 independent: seq<bool>, x0: seq<real>, bases: seq<seq<real>>, bases': seq<seq<real>>)
    requires Echelon(sol, n + 1, cols, n + 1) && Read(sol, n, cols, c, independent, x0, bases)
    requires c < |cols| && cols[c] < n
    requires |bases'| == n
    requires forall k :: 0 <= k < n ==> bases'[k] == if k > cols[c] then bases[k][cols[c] := -sol[c][k]] else bases[k]
    ensures Read(sol, n, cols, c + 1, independent[cols[c] := true], x0[cols[c] := sol[c][n]], bases')
  {
    var j := cols[c];
    var independent', x0' := independent[j := true], x0[j := sol[c][n]];
    assert cols[..c + 1] == cols[..c] + [j];
    forall r | 0 <= r < c
      ensures cols[r] < j
    {
    }
    assert j !in cols[..c];
    forall r | 0 <= r < c + 1
      ensures 0 <= cols[r] < n && x0'[cols[r]] == sol[r][n]
    {
    }
    forall l | 0 <= l < n
      ensures independent'[l] <==> l in cols[..c + 1]
    {
    }
    forall l | 0 <= l < n && l !in cols[..c + 1]
      ensures x0'[l] == 0.0
    {
    }
    forall f | 0 <= f < n
      ensures |bases'[f]| == n && bases'[f][f] == 1.0
    {
    }
    forall f, r | 0 <= f < n && 0 <= r < c + 1 && cols[r] < f
      ensures bases'[f][cols[r]] == -sol[r][f]
    {
    }
    forall f, l | 0 <= f < n && 0 <= l < n && l != f && (l !in cols[..c + 1] || f < l)
      ensures bases'[f][l] == 0.0
    {
      if l == j {
        assert f < j && bases'[f] == bases[f];
      }
    }
  }

  /** The products of entries vanish wherever the requires says they do. */
  lemma TermsVanish(u: seq<real>, v: seq<real>, p: nat, q: nat)
    requires |u| == |v|
    requires forall l :: 0 <= l < |u| && l != p && l != q ==> u[l] * v[l] == 0.0
    ensures forall l :: 0 <= l < |u| && l != p && l != q ==> Terms(u, v)[l] == 0.0
  {
  }

  /** Entry `p` of the products of entries. */
  lemma TermAt(u: seq<real>, v: seq<real>, p: nat)
    requires |u| == |v| && p < |u|
    ensures Terms(u, v)[p] == u[p] * v[p]
  {
  }

  /** The dot product of rows whose products vanish but at two places `p` and `q`. */
  lemma DotTwo(u: seq<real>, v: seq<real>, p: nat, q: nat)
    requires |u| == |v| && p < |u| && q < |u| && p != q
    requires forall l :: 0 <= l < |u| && l != p && l != q ==> u[l] * v[l] == 0.0
    ensures Dot(u, v) == u[p] * v[p] + u[q] * v[q]
  {
    TermsVanish(u, v, p, q);
    DotIsSum(u, v);
    SumTwo(Terms(u, v), p, q);
    TermAt(u, v, p);
    TermAt(u, v, q);
  }

  /** The dot product of a row that is zero but possibly at `p`. */
  lemma DotOne(u: seq<real>, v: seq<real>, p: nat)
    requires |u| == |v| && p < |u|
    requires forall l :: 0 <= l < |u| && l != p ==> u[l] == 0.0
    ensures Dot(u, v) == u[p] * v[p]
  {
    TermsVanish(u, v, p, p);
    DotIsSum(u, v);
    SumOne(Terms(u, v), p);
    TermAt(u, v, p);
  }

  /** Some earlier pivot row has pivot column `l`. */
  lemma PivotOf(cols: seq<int>, c: nat, l: int) returns (s: nat)
    requires c <= |cols| && l in cols[..c]
    ensures s < c && cols[s] == l
  {
    var t :| 0 <= t < c && cols[..c][t] == l;
    s := t;
  }

  /** Row `r` of the echelon form is solved by the particular solution followed by -1. */
  lemma RowParticular(sol: seq<seq<real>>, n: nat, cols: seq<int>, independent: seq<bool>,
                      x0: seq<real>, bases: seq<seq<real>>, r: nat)
    requires Echelon(sol, n + 1, cols, n + 1) && Read(sol, n, cols, |cols|, independent, x0, bases)
    requires r < |sol|
    ensures Dot(sol[r], x0 + [-1.0]) == 0.0
  {
    var x := x0 + [-1.0];
    if r < |cols| {
      var p := cols[r];
      forall l | 0 <= l < n + 1 && l != p && l != n
        ensures sol[r][l] * x[l] == 0.0
      {
        if l in cols[..|cols|] {
          var s := PivotOf(cols, |cols|, l);
          assert sol[r][cols[s]] == 0.0;
        } else {
          assert x[l] == x0[l] == 0.0;
        }
      }
      DotTwo(sol[r], x, p, n);
    } else {
      DotOne(sol[r], x, n);
    }
  }

  /** Row `r` of the echelon form is solved by the basis vector of a non-pivot column `f` followed by 0. */
  lemma RowBasis(sol: seq<seq<real>>, n: nat, cols: seq<int>, independent: seq<bool>,
                 x0: seq<real>, bases: seq<seq<real>>, f: nat, r: nat)
    requires Echelon(sol, n + 1, cols, n + 1) && Read(sol, n, cols, |cols|, independent, x0, bases)
    requires f < n && !independent[f] && r < |sol|
    ensures Dot(sol[r], bases[f] + [0.0]) == 0.0
  {
    var v := bases[f] + [0.0];
    assert f !in cols[..|cols|];
    if r < |cols| {
      var p := cols[r];
      assert p in cols[..|cols|];
      forall l | 0 <= l < n + 1 && l != p && l != f
        ensures sol[r][l] * v[l] == 0.0
      {
        if l < n && l in cols[..|cols|] {
          var s := PivotOf(cols, |cols|, l);
          assert sol[r][cols[s]] == 0.0;
        }
      }
      DotTwo(sol[r], v, p, f);
      if f < p {
        assert sol[r][f] == 0.0;
      }
    } else {
      DotOne(sol[r], v, f);
    }
  }

  /**
   * Once every pivot row is read and no pivot is in the last column, the
   * particular solution followed by -1, and each basis vector of a
   * non-pivot column followed by 0, solve the homogeneous system of the
   * echelon form.
   */
  lemma ReadDone(sol: seq<seq<real>>, n: nat, cols: seq<int>, independent: seq<bool>,
                 x0: seq<real>, bases: seq<seq<real>>)
    requires Echelon(sol, n + 1, cols, n + 1) && Read(sol, n, cols, |cols|, independent, x0, bases)
    ensures Annihilates(sol, x0 + [-1.0])
    ensures forall f :: 0 <= f < n && !independent[f] ==> Annihilates(sol, bases[f] + [0.0])
  {
    forall r | 0 <= r < |sol|
      ensures Dot(sol[r], x0 + [-1.0]) == 0.0
    {
      RowParticular(sol, n, cols, independent, x0, bases, r);
    }
    forall f | 0 <= f < n && !independent[f]
      ensures Annihilates(sol, bases[f] + [0.0])
    {
      forall r | 0 <= r < |sol|
        ensures Dot(sol[r], bases[f] + [0.0]) == 0.0
      {
        RowBasis(sol, n, cols, independent, x0, bases, f, r);
      }
    }
  }

  /** Line 142: a row that is zero but for a nonzero last entry has no solution followed by -1. */
  lemma NoSolution(sol: seq<seq<real>>, n: nat, i: nat)
    requires IsMatrix(sol, |sol|, n + 1) && i < |sol|
    requires forall l :: 0 <= l < n ==> sol[i][l] == 0.0
    requires sol[i][n] != 0.0
    ensures forall x :: |x| == n ==> !Annihilates(sol, x + [-1.0])
  {
    forall x | |x| == n
      ensures !Annihilates(sol, x + [-1.0])
    {
      DotOne(sol[i], x + [-1.0], n);
    }
  }

  /** Line 130: the identity matrix of order `n`, one diagonal entry at a time. */
  method IdentityRows(n: nat) returns (bases: seq<seq<real>>)
    ensures IsMatrix(bases, n, n)
    ensures forall f, l :: 0 <= f < n && 0 <= l < n ==> bases[f][l] == if f == l then 1.0 else 0.0
  {
    bases := seq(n, _ => ZeroVec(n));
    var f := 0;
    while f < n
      invariant 0 <= f <= n && IsMatrix(bases, n, n)
      invariant forall g, l :: 0 <= g < n && 0 <= l < n ==> bases[g][l] == if g == l && g < f then 1.0 else 0.0
    {
      bases := bases[f := bases[f][f := 1.0]];
      f := f + 1;
    }
  }

  /** Lines 133-134: the first column from `j` on where `row` holds 1, or `n` when there is none. */
  method ScanRow(row: seq<real>, n: nat, j: nat) returns (j': nat)
    requires j <= n <= |row|
    ensures j <= j' <= n
    ensures forall l :: j <= l < j' ==> row[l] != 1.0
    ensures j' < n ==> row[j'] == 1.0
  {
    j' := j;
    while j' < n && row[j'] != 1.0
      invariant j <= j' <= n
      invariant forall l :: j <= l < j' ==> row[l] != 1.0
    {
      j' := j' + 1;
    }
  }

  /** In the echelon form, the scan of row `i` stops at its pivot column, if it has one before the last. */
  lemma ScanFinds(sol: seq<seq<real>>, n: nat, cols: seq<int>, i: nat, j: nat, j': nat)
    requires Echelon(sol, n + 1, cols, n + 1) && i < |sol|
    requires j <= j' <= n && (i < |cols| ==> j <= cols[i])
    requires forall l :: j <= l < j' ==> sol[i][l] != 1.0
    requires j' < n ==> sol[i][j'] == 1.0
    ensures j' < n ==> i < |cols| && j' == cols[i]
    ensures j' == n && i < |cols| ==> cols[i] == n && forall l :: 0 <= l < n ==> sol[i][l] == 0.0
    ensures j' == n && i >= |cols| ==> sol[i][n] == 0.0
  {
  }

  /** Lines 136-138: column `j` of every later basis vector `k` set to minus entry `k` of `row`. */
  method FillColumn(bases: seq<seq<real>>, row: seq<real>, n: nat, j: nat) returns (bases': seq<seq<real>>)
    requires IsMatrix(bases, n, n) && j < n <= |row|
    ensures |bases'| == n
    ensures forall k :: 0 <= k < n ==> bases'[k] == if k > j then bases[k][j := -row[k]] else bases[k]
  {
    bases' := bases;
    var k := j + 1;
    while k < n
      invariant j + 1 <= k <= n && |bases'| == n
      invariant forall g :: 0 <= g < n ==> bases'[g] == if j < g < k then bases[g][j := -row[g]] else bases[g]
    {
      bases' := bases'[k := bases'[k][j := -row[k]]];
      k := k + 1;
    }
  }

  /** Lines 145-147: the particular solution followed by the basis vector of every dependent column, in order. */
  method CollectFree(x0: seq<real>, bases: seq<seq<real>>, independent: seq<bool>, n: nat) returns (ret: seq<seq<real>>, ghost free: seq<int>)
    requires |independent| == n && |bases| == n
    ensures |ret| == |free| + 1 && ret[0] == x0
    ensures forall k :: 0 <= k < |free| ==> 0 <= free[k] < n && !independent[free[k]]
    ensures forall k :: 1 <= k < |ret| ==> ret[k] == bases[free[k - 1]]
    ensures forall a, b :: 0 <= a < b < |free| ==> free[a] < free[b]
    ensures forall l :: 0 <= l < n && !independent[l] ==> l in free
  {
    ret, free := [x0], [];
    var f := 0;
    while f < n
      invariant 0 <= f <= n && |ret| == |free| + 1 && ret[0] == x0
      invariant forall k :: 0 <= k < |free| ==> 0 <= free[k] < f && !independent[free[k]] && ret[k + 1] == bases[free[k]]
      invariant forall a, b :: 0 <= a < b < |free| ==> free[a] < free[b]
      invariant forall l :: 0 <= l < f && !independent[l] ==> l in free
    {
      if !independent[f] {
        ret, free := ret + [bases[f]], free + [f];
      }
      f := f + 1;
    }
    forall k | 1 <= k < |ret|
      ensures ret[k] == bases[free[k - 1]]
    {
    }
  }

  /** What the particular solution and the collected basis vectors satisfy once every row is read. */
  lemma Collected(sol: seq<seq<real>>, n: nat, cols: seq<int>, independent: seq<bool>,
                  x0: seq<real>, bases: seq<seq<real>>, ret: seq<seq<real>>, free: seq<int>)
    requires Echelon(sol, n + 1, cols, n + 1) && Read(sol, n, cols, |cols|, independent, x0, bases)
    requires |ret| == |free| + 1 && ret[0] == x0
    requires forall k :: 0 <= k < |free| ==> 0 <= free[k] < n && !independent[free[k]]
    requires forall k :: 1 <= k < |ret| ==> ret[k] == bases[free[k - 1]]
    requires forall l :: 0 <= l < n && !independent[l] ==> l in free
    requires forall a, b :: 0 <= a < b < |free| ==> free[a] < free[b]
    ensures forall k :: 0 <= k < |ret| ==> |ret[k]| == n
    ensures Annihilates(sol, ret[0] + [-1.0])
    ensures forall k :: 0 <= k < |free| ==> free[k] !in cols
    ensures forall l :: 0 <= l < n && l !in cols ==> l in free
    ensures forall k :: 1 <= k < |ret| ==> Annihilates(sol, ret[k] + [0.0]) && ret[k][free[k - 1]] == 1.0
    ensures forall k, a :: 1 <= k < |ret| && 0 <= a < |free| && a != k - 1 ==> ret[k][free[a]] == 0.0
  {
    ReadDone(sol, n, cols, independent, x0, bases);
    assert cols[..|cols|] == cols;
    forall k, a | 1 <= k < |ret| && 0 <= a < |free| && a != k - 1
      ensures ret[k][free[a]] == 0.0
    {
      assert free[a] != free[k - 1];
    }
  }

  /**
   * Lines 126-147: the solutions read off the echelon form `sol` of an
   * augmented matrix with `n` unknowns. The result is empty when a row says
   * 0 = 1; otherwise its first vector solves the system, and each further
   * vector solves the homogeneous system, has 1 in its own non-pivot column
   * `free[k]` and 0 in every other non-pivot column, one for each non-pivot
   * column in increasing order.
   */
  method ReadSolutions(sol: seq<seq<real>>, n: nat, ghost cols: seq<int>) returns (ret: seq<seq<real>>, ghost free: seq<int>)
    requires Echelon(sol, n + 1, cols, n + 1)
    ensures forall k :: 0 <= k < |ret| ==> |ret[k]| == n
    ensures |ret| == 0 ==> forall x :: |x| == n ==> !Annihilates(sol, x + [-1.0])
    ensures |ret| > 0 ==> Annihilates(sol, ret[0] + [-1.0])
    ensures |ret| > 0 ==> |free| == |ret| - 1
    ensures forall k :: 0 <= k < |free| ==> 0 <= free[k] < n && free[k] !in cols
    ensures forall a, b :: 0 <= a < b < |free| ==> free[a] < free[b]
    ensures |ret| > 0 ==> forall l :: 0 <= l < n && l !in cols ==> l in free
    ensures forall k :: 1 <= k < |ret| ==> Annihilates(sol, ret[k] + [0.0]) && ret[k][free[k - 1]] == 1.0
    ensures forall k, a :: 1 <= k < |ret| && 0 <= a < |free| && a != k - 1 ==> ret[k][free[a]] == 0.0
  {
    var independent := seq(n, _ => false);
    var x0 := ZeroVec(n);
    var bases := IdentityRows(n);
    ReadStart(sol, n, cols, bases);
    var i, j := 0, 0;
    ghost var c := 0;
    while i < |sol|
      invariant 0 <= i <= |sol| && 0 <= j <= n
      invariant c == if i <= |cols| then i else |cols|
      invariant Read(sol, n, cols, c, independent, x0, bases)
      invariant i < |cols| ==> j <= cols[i]
    {
      var j' := ScanRow(sol[i], n, j);
      ScanFinds(sol, n, cols, i, j, j');
      j := j';
      if j < n {
        var bases' := FillColumn(bases, sol[i], n, j);
        ReadStep(sol, n, cols, c, independent, x0, bases, bases');
        independent := independent[j := true];
        x0 := x0[j := sol[i][n]];
        bases := bases';
        c := c + 1;
      } else if sol[i][n] != 0.0 {
        NoSolution(sol, n, i);
        return [], [];
      }
      i := i + 1;
    }
    ret, free := CollectFree(x0, bases, independent, n);
    Collected(sol, n, cols, independent, x0, bases, ret, free);
  }
}
