/**
 * The row operations of `rref` in math/matrix/matrix.cpp (lines 79-103) on
 * matrices as values, the reduced row echelon shape it builds column by
 * column, and the proof that each operation keeps the solution set of the
 * homogeneous system: swapping two rows, dividing the pivot row by its
 * pivot, and subtracting multiples of the pivot row from every other row.
 */
module RowReduction {
  import opened MatrixAlgebra

  /** Line 87: rows `i` and `p` exchanged. */
  function Swapped(a: seq<seq<real>>, i: nat, p: nat): (b: seq<seq<real>>)
    requires i < |a| && p < |a|
    ensures |b| == |a|
  {
    a[i := a[p]][p := a[i]]
  }

  /** Line 90: the entries of `row` from column `j` on divided by `p`. */
  function ScaledRow(row: seq<real>, j: nat, p: real): (r: seq<real>)
    requires p != 0.0
    ensures |r| == |row|
  {
    seq(|row|, l requires 0 <= l < |row| => if l >= j then row[l] / p else row[l])
  }

  /** Lines 95-97: `v` times the pivot row subtracted from `row`, from column `j` on. */
  function ReducedRow(row: seq<real>, prow: seq<real>, j: nat, v: real): (r: seq<real>)
    requires |row| == |prow|
    ensures |r| == |row|
  {
    seq(|row|, l requires 0 <= l < |row| => if l >= j then row[l] - prow[l] * v else row[l])
  }

  /**
   * Reduced row echelon form in the columns before `j`, with pivot columns
   * `cols`: row `r` of the first `|cols|` has a leading 1 in column `cols[r]`
   * that is the only nonzero entry of its column, the pivot columns increase,
   * and the rows below the pivot rows are zero before column `j`.
   */
  ghost predicate Echelon(a: seq<seq<real>>, n: nat, cols: seq<int>, j: nat) {
    IsMatrix(a, |a|, n) && j <= n && |cols| <= |a| &&
    (forall r :: 0 <= r < |cols| ==> 0 <= cols[r] < j) &&
    (forall r, s :: 0 <= r < s < |cols| ==> cols[r] < cols[s]) &&
    (forall r :: 0 <= r < |cols| ==> a[r][cols[r]] == 1.0) &&
    (forall r, l :: 0 <= r < |cols| && 0 <= l < cols[r] ==> a[r][l] == 0.0) &&
    (forall r, k :: 0 <= r < |cols| && 0 <= k < |a| && k != r ==> a[k][cols[r]] == 0.0) &&
    (forall k, l :: |cols| <= k < |a| && 0 <= l < j ==> a[k][l] == 0.0)
  }

  // ---------------------------------------------------------------------------
  // Solution sets.
  // ---------------------------------------------------------------------------

  lemma SameKernelRefl(a: seq<seq<real>>, n: nat)
    requires IsMatrix(a, |a|, n)
    ensures SameKernel(a, a, n)
  {
  }

  lemma SameKernelTrans(a: seq<seq<real>>, b: seq<seq<real>>, c: seq<seq<real>>, n: nat)
    requires IsMatrix(a, |a|, n) && IsMatrix(b, |b|, n) && IsMatrix(c, |c|, n)
    requires SameKernel(a, b, n) && SameKernel(b, c, n)
    ensures SameKernel(a, c, n)
  {
    forall x | |x| == n
      ensures Annihilates(a, x) <==> Annihilates(c, x)
    {
      assert Annihilates(a, x) <==> Annihilates(b, x);
      assert Annihilates(b, x) <==> Annihilates(c, x);
    }
  }

  /** Exchanging two rows keeps the solutions. */
  lemma SwapKernel(a: seq<seq<real>>, n: nat, i: nat, p: nat)
    requires IsMatrix(a, |a|, n) && i < |a| && p < |a|
    ensures IsMatrix(Swapped(a, i, p), |a|, n)
    ensures SameKernel(a, Swapped(a, i, p), n)
  {
    var b := Swapped(a, i, p);
    forall x | |x| == n
      ensures Annihilates(a, x) <==> Annihilates(b, x)
    {
      if Annihilates(a, x) {
        assert forall k :: 0 <= k < |b| ==> Dot(b[k], x) == 0.0 by {
          forall k | 0 <= k < |b|
            ensures Dot(b[k], x) == 0.0
          {
            assert b[k] == a[if k == p then i else if k == i then p else k];
          }
        }
      }
      if Annihilates(b, x) {
        forall k | 0 <= k < |a|
          ensures Dot(a[k], x) == 0.0
        {
          assert a[k] == b[if k == p then i else if k == i then p else k];
        }
      }
    }
  }

  /** Dividing a row that is zero before column `j` by a nonzero `p` keeps the solutions. */
  lemma ScaleKernel(a: seq<seq<real>>, n: nat, r: nat, j: nat, p: real)
    requires IsMatrix(a, |a|, n) && r < |a| && p != 0.0
    requires forall l :: 0 <= l < j && l < n ==> a[r][l] == 0.0
    ensures IsMatrix(a[r := ScaledRow(a[r], j, p)], |a|, n)
    ensures SameKernel(a, a[r := ScaledRow(a[r], j, p)], n)
  {
    var w := ScaledRow(a[r], j, p);
    var b := a[r := w];
    assert forall l :: 0 <= l < n ==> w[l] == a[r][l] / p;
    forall x | |x| == n
      ensures Annihilates(a, x) <==> Annihilates(b, x)
    {
      DotScale(a[r], w, x, p);
      if Annihilates(b, x) {
        assert Dot(a[r], x) == 0.0 by {
          assert Dot(b[r], x) == 0.0;
        }
        assert forall k :: 0 <= k < |a| && k != r ==> Dot(a[k], x) == Dot(b[k], x);
      }
    }
  }

  /**
   * Subtracting, from every row but the pivot row `pv`, the multiple of the
   * pivot row given by that row's entry in column `j` keeps the solutions when
   * the pivot row is zero before column `j`.
   */
  lemma EliminateKernel(a: seq<seq<real>>, b: seq<seq<real>>, n: nat, pv: nat, j: nat)
    requires IsMatrix(a, |a|, n) && pv < |a| && j < n && |b| == |a|
    requires forall l :: 0 <= l < j ==> a[pv][l] == 0.0
    requires b[pv] == a[pv]
    requires forall k :: 0 <= k < |a| && k != pv ==> b[k] == ReducedRow(a[k], a[pv], j, a[k][j])
    ensures IsMatrix(b, |b|, n)
    ensures SameKernel(a, b, n)
  {
    forall x | |x| == n
      ensures Annihilates(a, x) <==> Annihilates(b, x)
    {
      EliminateAt(a, b, n, pv, j, x);
    }
  }

  /** `EliminateKernel` for one vector `x`. */
  lemma EliminateAt(a: seq<seq<real>>, b: seq<seq<real>>, n: nat, pv: nat, j: nat, x: seq<real>)
    requires IsMatrix(a, |a|, n) && pv < |a| && j < n && |b| == |a| && |x| == n
    requires forall l :: 0 <= l < j ==> a[pv][l] == 0.0
    requires b[pv] == a[pv]
    requires forall k :: 0 <= k < |a| && k != pv ==> b[k] == ReducedRow(a[k], a[pv], j, a[k][j])
    ensures IsMatrix(b, |b|, n)
    ensures Annihilates(a, x) <==> Annihilates(b, x)
  {
    if Annihilates(a, x) || Annihilates(b, x) {
      assert Dot(a[pv], x) == 0.0 by {
        assert Dot(b[pv], x) == Dot(a[pv], x);
      }
      forall k | 0 <= k < |a| && k != pv
        ensures Dot(b[k], x) == Dot(a[k], x)
      {
        ReducedKeeps(a[k], a[pv], j, a[k][j], x);
      }
    }
  }

  /** A row reduced by a pivot row that solves `x` solves `x` exactly when the row does. */
  lemma ReducedKeeps(row: seq<real>, prow: seq<real>, j: nat, v: real, x: seq<real>)
    requires |row| == |prow| == |x| && j < |row|
    requires forall l :: 0 <= l < j ==> prow[l] == 0.0
    requires Dot(prow, x) == 0.0
    ensures Dot(ReducedRow(row, prow, j, v), x) == Dot(row, x)
  {
    ReducedEntries(row, prow, j, v);
    DotReduce(row, prow, ReducedRow(row, prow, j, v), x, v);
  }

  /** Every entry of a reduced row is reduced, when the pivot row is zero before column `j`. */
  lemma ReducedEntries(row: seq<real>, prow: seq<real>, j: nat, v: real)
    requires |row| == |prow| && j < |row|
    requires forall l :: 0 <= l < j ==> prow[l] == 0.0
    ensures Combination(ReducedRow(row, prow, j, v), row, prow, v)
  {
    forall l | 0 <= l < |row|
      ensures ReducedRow(row, prow, j, v)[l] == row[l] - prow[l] * v
    {
      if l < j {
        ReducedBefore(row, prow, j, v, l);
        ZeroProduct(row[l], prow[l], v);
      } else {
        ReducedFrom(row, prow, j, v, l);
      }
    }
  }

  /** Entries before column `j` are not reduced. */
  lemma ReducedBefore(row: seq<real>, prow: seq<real>, j: nat, v: real, l: nat)
    requires |row| == |prow| && l < j && l < |row|
    ensures ReducedRow(row, prow, j, v)[l] == row[l]
  {
  }

  /** Entries from column `j` on are reduced. */
  lemma ReducedFrom(row: seq<real>, prow: seq<real>, j: nat, v: real, l: nat)
    requires |row| == |prow| && j <= l < |row|
    ensures ReducedRow(row, prow, j, v)[l] == row[l] - prow[l] * v
  {
  }

  /** Arithmetic helper: subtracting a multiple of zero changes nothing, for `ReducedEntries`. */
  lemma ZeroProduct(a: real, b: real, c: real)
    requires b == 0.0
    ensures a - b * c == a && a - c * b == a
  {
  }

  // ---------------------------------------------------------------------------
  // The echelon shape, one column at a time.
  // ---------------------------------------------------------------------------

  /** Before the first column there is nothing to check. */
  lemma EchelonStart(a: seq<seq<real>>, n: nat)
    requires IsMatrix(a, |a|, n)
    ensures Echelon(a, n, [], 0)
  {
  }

  /** Line 85: a column with no nonzero entry below the pivot rows adds no pivot. */
  lemma NoPivot(a: seq<seq<real>>, n: nat, cols: seq<int>, j: nat)
    requires Echelon(a, n, cols, j) && j < n
    requires forall k :: |cols| <= k < |a| ==> a[k][j] == 0.0
    ensures Echelon(a, n, cols, j + 1)
  {
  }

  /** Line 87: moving a row with a nonzero entry in column `j` up to the pivot position keeps the shape. */
  lemma SwapEchelon(a: seq<seq<real>>, n: nat, cols: seq<int>, j: nat, i: nat)
    requires Echelon(a, n, cols, j) && |cols| <= i < |a|
    ensures Echelon(Swapped(a, i, |cols|), n, cols, j)
  {
    var b := Swapped(a, i, |cols|);
    assert forall k :: 0 <= k < |a| ==> b[k] == a[if k == |cols| then i else if k == i then |cols| else k];
  }

  /** Line 90: dividing the pivot row from column `j` on leaves the columns before `j` alone. */
  lemma ScaleEchelon(a: seq<seq<real>>, n: nat, cols: seq<int>, j: nat, p: real)
    requires Echelon(a, n, cols, j) && |cols| < |a| && j < n && p == a[|cols|][j] && p != 0.0
    ensures Echelon(a[|cols| := ScaledRow(a[|cols|], j, p)], n, cols, j)
    ensures a[|cols| := ScaledRow(a[|cols|], j, p)][|cols|][j] == 1.0
  {
    var b := a[|cols| := ScaledRow(a[|cols|], j, p)];
    assert forall l :: 0 <= l < j ==> b[|cols|][l] == a[|cols|][l];
  }

  /**
   * Lines 92-100: once every other row has had its multiple of the pivot row
   * subtracted, column `j` is a pivot column and the shape extends to it.
   */
  lemma EliminateEchelon(a: seq<seq<real>>, b: seq<seq<real>>, n: nat, cols: seq<int>, j: nat)
    requires Echelon(a, n, cols, j) && |cols| < |a| && j < n && a[|cols|][j] == 1.0 && |b| == |a|
    requires b[|cols|] == a[|cols|]
    requires forall k :: 0 <= k < |a| && k != |cols| ==> b[k] == ReducedRow(a[k], a[|cols|], j, a[k][j])
    ensures Echelon(b, n, cols + [j], j + 1)
  {
    var pv := |cols|;
    var cols' := cols + [j];
    forall k, l | 0 <= k < |a| && 0 <= l < j
      ensures b[k][l] == a[k][l]
    {
    }
    forall k | 0 <= k < |a| && k != pv
      ensures b[k][j] == 0.0
    {
    }
    assert forall r :: 0 <= r < |cols| ==> cols'[r] == cols[r];
  }
}
