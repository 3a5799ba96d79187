/**
 * The matrix class of math/matrix/matrix.cpp over the field of reals: a
 * row-major table `mat` of `m` rows and `n` columns, updated in place by
 * `+=` and `-=`, and the operations that build new matrices from it —
 * concatenation, sum, difference, transpose, product, reduced row echelon
 * form, rank and the solution of a linear system.
 */
module MatrixClass {
  import opened MatrixAlgebra
  import opened RowReduction
  import opened Solutions

  class Matrix {
    var mat: seq<seq<real>>
    var m: int
    var n: int

    /** `mat` has `m` rows of `n` entries each. */
    ghost predicate Valid()
      reads this
    {
      m >= 0 && n >= 0 && IsMatrix(mat, m, n)
    }

    /** Line 23: the `m x n` matrix of zeros. */
    constructor (m: nat, n: nat)
      ensures Valid() && this.m == m && this.n == n && mat == Zeros(m, n)
    {
      this.mat := Zeros(m, n);
      this.m := m;
      this.n := n;
    }

    /** Lines 24-28: the matrix with the given rows, appended one at a time. */
    constructor FromRows(rows: seq<seq<real>>)
      requires |rows| > 0 && IsMatrix(rows, |rows|, |rows[0]|)
      ensures Valid() && mat == rows && m == |rows| && n == |rows[0]|
    {
      var acc: seq<seq<real>> := [];
      var i := 0;
      while i < |rows|
        invariant 0 <= i <= |rows| && acc == rows[..i]
      {
        acc := acc + [rows[i]];
        i := i + 1;
      }
      mat := acc;
      m := |acc|;
      n := |acc[0]|;
    }

    /** The copy `Matrix(*this)` of lines 53-54 and 80. */
    constructor Copy(other: Matrix)
      requires other.Valid()
      ensures Valid() && mat == other.mat && m == other.m && n == other.n
    {
      mat := other.mat;
      m := other.m;
      n := other.n;
    }

    /** Lines 12-20: `A` and `B` side by side, each row copied in two pieces. */
    static method Concat(A: Matrix, B: Matrix) returns (C: Matrix)
      requires A.Valid() && B.Valid() && A.m == B.m
      ensures fresh(C) && C.Valid() && C.m == A.m && C.n == A.n + B.n
      ensures C.mat == SideBySide(A.mat, B.mat, A.m, A.n, B.n)
    {
      C := new Matrix(A.m, A.n + B.n);
      var i := 0;
      while i < A.m
        invariant 0 <= i <= A.m && C.Valid() && C.m == A.m && C.n == A.n + B.n
        invariant forall r :: 0 <= r < i ==> C.mat[r] == A.mat[r] + B.mat[r]
      {
        C.mat := C.mat[i := A.mat[i] + C.mat[i][A.n..]];
        C.mat := C.mat[i := C.mat[i][..A.n] + B.mat[i]];
        i := i + 1;
      }
    }

    /** Lines 33-41: adds `rhs` to this matrix entry by entry, `rhs` possibly being this matrix. */
    method AddAssign(rhs: Matrix)
      requires Valid() && rhs.Valid() && rhs.m == m && rhs.n == n
      modifies this
      ensures Valid() && m == old(m) && n == old(n)
      ensures mat == Added(old(mat), old(rhs.mat), m, n)
    {
      var i := 0;
      while i < m
        invariant 0 <= i <= m && m == old(m) && n == old(n) && Valid()
        invariant rhs == this || rhs.mat == old(rhs.mat)
        invariant forall r, l :: 0 <= r < i && 0 <= l < n ==> mat[r][l] == old(mat)[r][l] + old(rhs.mat)[r][l]
        invariant forall r :: i <= r < m ==> mat[r] == old(mat)[r]
      {
        var j := 0;
        while j < n
          invariant 0 <= j <= n && m == old(m) && n == old(n) && Valid()
          invariant rhs == this || rhs.mat == old(rhs.mat)
          invariant forall r, l :: 0 <= r < i && 0 <= l < n ==> mat[r][l] == old(mat)[r][l] + old(rhs.mat)[r][l]
          invariant forall r :: i < r < m ==> mat[r] == old(mat)[r]
          invariant forall l :: 0 <= l < j ==> mat[i][l] == old(mat)[i][l] + old(rhs.mat)[i][l]
          invariant forall l :: j <= l < n ==> mat[i][l] == old(mat)[i][l]
        {
          mat := mat[i := mat[i][j := mat[i][j] + rhs.mat[i][j]]];
          j := j + 1;
        }
        i := i + 1;
      }
      forall r | 0 <= r < m
        ensures mat[r] == Added(old(mat), old(rhs.mat), m, n)[r]
      {
      }
    }

    /** Lines 43-51: subtracts `rhs` from this matrix entry by entry, `rhs` possibly being this matrix. */
    method SubAssign(rhs: Matrix)
      requires Valid() && rhs.Valid() && rhs.m == m && rhs.n == n
      modifies this
      ensures Valid() && m == old(m) && n == old(n)
      ensures mat == Subtracted(old(mat), old(rhs.mat), m, n)
    {
      var i := 0;
      while i < m
        invariant 0 <= i <= m && m == old(m) && n == old(n) && Valid()
        invariant rhs == this || rhs.mat == old(rhs.mat)
        invariant forall r, l :: 0 <= r < i && 0 <= l < n ==> mat[r][l] == old(mat)[r][l] - old(rhs.mat)[r][l]
        invariant forall r :: i <= r < m ==> mat[r] == old(mat)[r]
      {
        var j := 0;
        while j < n
          invariant 0 <= j <= n && m == old(m) && n == old(n) && Valid()
          invariant rhs == this || rhs.mat == old(rhs.mat)
          invariant forall r, l :: 0 <= r < i && 0 <= l < n ==> mat[r][l] == old(mat)[r][l] - old(rhs.mat)[r][l]
          invariant forall r :: i < r < m ==> mat[r] == old(mat)[r]
          invariant forall l :: 0 <= l < j ==> mat[i][l] == old(mat)[i][l] - old(rhs.mat)[i][l]
          invariant forall l :: j <= l < n ==> mat[i][l] == old(mat)[i][l]
        {
          mat := mat[i := mat[i][j := mat[i][j] - rhs.mat[i][j]]];
          j := j + 1;
        }
        i := i + 1;
      }
      forall r | 0 <= r < m
        ensures mat[r] == Subtracted(old(mat), old(rhs.mat), m, n)[r]
      {
      }
    }

    /** Line 53: the sum, as a copy of this matrix with `rhs` added; neither operand changes. */
    method Plus(rhs: Matrix) returns (C: Matrix)
      requires Valid() && rhs.Valid() && rhs.m == m && rhs.n == n
      ensures fresh(C) && C.Valid() && C.m == m && C.n == n
      ensures C.mat == Added(mat, rhs.mat, m, n)
    {
      C := new Matrix.Copy(this);
      C.AddAssign(rhs);
    }

    /** Line 54: the difference, as a copy of this matrix with `rhs` subtracted; neither operand changes. */
    method Minus(rhs: Matrix) returns (C: Matrix)
      requires Valid() && rhs.Valid() && rhs.m == m && rhs.n == n
      ensures fresh(C) && C.Valid() && C.m == m && C.n == n
      ensures C.mat == Subtracted(mat, rhs.mat, m, n)
    {
      C := new Matrix.Copy(this);
      C.SubAssign(rhs);
    }

    /** Lines 56-64: the `n x m` transpose. */
    method Transpose() returns (R: Matrix)
      requires Valid()
      ensures fresh(R) && R.Valid() && R.m == n && R.n == m
      ensures R.mat == Transposed(mat, m, n)
    {
      R := new Matrix(n, m);
      var i := 0;
      while i < n
        invariant 0 <= i <= n && R.Valid() && R.m == n && R.n == m
        invariant forall r, l :: 0 <= r < i && 0 <= l < m ==> R.mat[r][l] == mat[l][r]
      {
        var j := 0;
        while j < m
          invariant 0 <= j <= m && R.Valid() && R.m == n && R.n == m
          invariant forall r, l :: 0 <= r < i && 0 <= l < m ==> R.mat[r][l] == mat[l][r]
          invariant forall l :: 0 <= l < j ==> R.mat[i][l] == mat[l][i]
        {
          R.mat := R.mat[i := R.mat[i][j := mat[j][i]]];
          j := j + 1;
        }
        i := i + 1;
      }
      forall r | 0 <= r < n
        ensures R.mat[r] == Transposed(mat, m, n)[r]
      {
      }
    }

    /** Lines 66-77: the `m x B.n` product, entry `(i, j)` accumulated over `k`. */
    method MatMul(B: Matrix) returns (R: Matrix)
      requires Valid() && B.Valid() && n == B.m
      ensures fresh(R) && R.Valid() && R.m == m && R.n == B.n
      ensures R.mat == Product(mat, B.mat, n, B.n)
    {
      R := new Matrix(m, B.n);
      var i := 0;
      while i < m
        invariant 0 <= i <= m && R.Valid() && R.m == m && R.n == B.n
        invariant forall r :: 0 <= r < i ==> R.mat[r] == Product(mat, B.mat, n, B.n)[r]
        invariant forall r :: i <= r < m ==> R.mat[r] == ZeroVec(B.n)
      {
        R.FillRow(i, mat[i], B);
        assert R.mat[i] == Product(mat, B.mat, n, B.n)[i];
        i := i + 1;
      }
      forall r | 0 <= r < m
        ensures R.mat[r] == Product(mat, B.mat, n, B.n)[r]
      {
      }
    }

    /** Lines 70-74: a zero row `i` filled with the products of `row` with the columns of `B`. */
    method FillRow(i: nat, row: seq<real>, B: Matrix)
      requires Valid() && B.Valid() && B != this && i < m && n == B.n && |row| == B.m
      requires mat[i] == ZeroVec(n)
      modifies this
      ensures Valid() && m == old(m) && n == old(n)
      ensures mat == old(mat)[i := RowTimes(row, B.mat, B.n)]
    {
      var j := 0;
      while j < n
        invariant 0 <= j <= n && Valid() && m == old(m) && n == old(n)
        invariant forall r :: 0 <= r < m && r != i ==> mat[r] == old(mat)[r]
        invariant forall l :: 0 <= l < j ==> mat[i][l] == Dot(row, Column(B.mat, B.n, l))
        invariant forall l :: j <= l < n ==> mat[i][l] == 0.0
      {
        AddDot(i, j, row, B);
        j := j + 1;
      }
      assert mat[i] == RowTimes(row, B.mat, B.n);
    }

    /** Lines 72-74: the products of `row` with column `j` of `B` added to entry `(i, j)`, one at a time. */
    method AddDot(i: nat, j: nat, row: seq<real>, B: Matrix)
      requires Valid() && B.Valid() && B != this && i < m && j < n && j < B.n && |row| == B.m
      modifies this
      ensures Valid() && m == old(m) && n == old(n)
      ensures mat == old(mat)[i := old(mat)[i][j := old(mat)[i][j] + Dot(row, Column(B.mat, B.n, j))]]
    {
      ghost var col := Column(B.mat, B.n, j);
      var k := 0;
      while k < |row|
        invariant 0 <= k <= |row| && Valid() && m == old(m) && n == old(n)
        invariant forall r :: 0 <= r < m && r != i ==> mat[r] == old(mat)[r]
        invariant forall l :: 0 <= l < n && l != j ==> mat[i][l] == old(mat)[i][l]
        invariant mat[i][j] == old(mat)[i][j] + Dot(row[..k], col[..k])
      {
        DotPrefix(row, col, k);
        mat := mat[i := mat[i][j := mat[i][j] + row[k] * B.mat[k][j]]];
        k := k + 1;
      }
      assert row[..|row|] == row && col[..|row|] == col;
      assert mat[i] == old(mat)[i][j := old(mat)[i][j] + Dot(row, col)];
    }

    /** Line 87: rows `i` and `p` exchanged. */
    method SwapRows(i: nat, p: nat)
      requires Valid() && i < m && p < m
      modifies this
      ensures Valid() && m == old(m) && n == old(n)
      ensures mat == Swapped(old(mat), i, p)
    {
      mat := Swapped(mat, i, p);
    }

    /** Line 90: the entries of row `r` from column `j` on divided by `p`, left to right. */
    method DivideRow(r: nat, j: nat, p: real)
      requires Valid() && r < m && j <= n && p != 0.0
      modifies this
      ensures Valid() && m == old(m) && n == old(n)
      ensures mat == old(mat)[r := ScaledRow(old(mat)[r], j, p)]
    {
      var l := j;
      while l < n
        invariant j <= l <= n && Valid() && m == old(m) && n == old(n)
        invariant forall k :: 0 <= k < m && k != r ==> mat[k] == old(mat)[k]
        invariant forall t :: 0 <= t < n ==> mat[r][t] == if j <= t < l then old(mat)[r][t] / p else old(mat)[r][t]
      {
        mat := mat[r := mat[r][l := mat[r][l] / p]];
        l := l + 1;
      }
      assert mat[r] == ScaledRow(old(mat)[r], j, p);
    }

    /** Lines 95-97: `v` times row `pv` subtracted from row `k`, from column `j` on. */
    method SubtractRow(k: nat, pv: nat, j: nat, v: real)
      requires Valid() && k < m && pv < m && k != pv && j <= n
      modifies this
      ensures Valid() && m == old(m) && n == old(n)
      ensures mat == old(mat)[k := ReducedRow(old(mat)[k], old(mat)[pv], j, v)]
    {
      var l := j;
      while l < n
        invariant j <= l <= n && Valid() && m == old(m) && n == old(n)
        invariant forall r :: 0 <= r < m && r != k ==> mat[r] == old(mat)[r]
        invariant forall t :: 0 <= t < n ==> mat[k][t] == if j <= t < l then old(mat)[k][t] - old(mat)[pv][t] * v else old(mat)[k][t]
      {
        mat := mat[k := mat[k][l := mat[k][l] - mat[pv][l] * v]];
        l := l + 1;
      }
      forall t | 0 <= t < n
        ensures mat[k][t] == ReducedRow(old(mat)[k], old(mat)[pv], j, v)[t]
      {
      }
      assert mat[k] == ReducedRow(old(mat)[k], old(mat)[pv], j, v);
    }

    /** Lines 83-84: the first row from `pivot` on with a nonzero entry in column `j`, or `m`. */
    method FindPivot(pivot: nat, j: nat) returns (i: nat)
      requires Valid() && pivot <= m && j < n
      ensures pivot <= i <= m
      ensures forall k :: pivot <= k < i ==> mat[k][j] == 0.0
      ensures i < m ==> mat[i][j] != 0.0
    {
      i := pivot;
      while i < m && mat[i][j] == 0.0
        invariant pivot <= i <= m
        invariant forall k :: pivot <= k < i ==> mat[k][j] == 0.0
      {
        i := i + 1;
      }
    }

    /** Lines 92-98: every row but `pivot` reduced by its entry in column `j` times the pivot row. */
    method ClearColumn(pivot: nat, j: nat)
      requires Valid() && pivot < m && j < n
      modifies this
      ensures Valid() && m == old(m) && n == old(n)
      ensures mat[pivot] == old(mat)[pivot]
      ensures forall r :: 0 <= r < m && r != pivot ==> mat[r] == ReducedRow(old(mat)[r], old(mat)[pivot], j, old(mat)[r][j])
    {
      var k := 0;
      while k < m
        invariant 0 <= k <= m && Valid() && m == old(m) && n == old(n)
        invariant mat[pivot] == old(mat)[pivot]
        invariant forall r :: 0 <= r < m && r != pivot ==> mat[r] == if r < k then ReducedRow(old(mat)[r], old(mat)[pivot], j, old(mat)[r][j]) else old(mat)[r]
      {
        if k != pivot {
          var v := mat[k][j];
          SubtractRow(k, pivot, j, v);
        }
        k := k + 1;
      }
    }

    /**
     * Lines 83-101, one column `j` of the reduction: when some row at or below
     * the pivot position has a nonzero entry in column `j`, it is moved up,
     * divided by that entry, and column `j` is cleared in every other row,
     * making `j` a pivot column. The solutions do not change.
     */
    method ReduceColumn(pivot: nat, j: nat, ghost cols: seq<int>) returns (found: bool)
      requires Valid() && Echelon(mat, n, cols, j) && pivot == |cols| && j < n
      modifies this
      ensures Valid() && m == old(m) && n == old(n)
      ensures SameKernel(old(mat), mat, n)
      ensures found ==> Echelon(mat, n, cols + [j], j + 1)
      ensures !found ==> Echelon(mat, n, cols, j + 1)
    {
      SameKernelRefl(mat, n);
      var i := FindPivot(pivot, j);
      if i == m {
        NoPivot(mat, n, cols, j);
        return false;
      }
      if i != pivot {
        SwapEchelon(mat, n, cols, j, i);
        SwapKernel(mat, n, i, pivot);
        SwapRows(i, pivot);
      }
      ghost var a1 := mat;
      var p := mat[pivot][j];
      ScaleEchelon(a1, n, cols, j, p);
      ScaleKernel(a1, n, pivot, j, p);
      DivideRow(pivot, j, p);
      SameKernelTrans(old(mat), a1, mat, n);
      ghost var a2 := mat;
      ClearColumn(pivot, j);
      EliminateEchelon(a2, mat, n, cols, j);
      EliminateKernel(a2, mat, n, pivot, j);
      SameKernelTrans(old(mat), a2, mat, n);
      return true;
    }

    /**
     * Lines 79-103: the reduced row echelon form of a copy of this matrix,
     * built column by column. The result has the same solutions as this
     * matrix, and this matrix does not change.
     */
    method Rref() returns (A: Matrix, ghost cols: seq<int>)
      requires Valid()
      ensures fresh(A) && A.Valid() && A.m == m && A.n == n
      ensures Echelon(A.mat, n, cols, n)
      ensures SameKernel(mat, A.mat, n)
    {
      A := new Matrix.Copy(this);
      var pivot := 0;
      cols := [];
      EchelonStart(A.mat, n);
      SameKernelRefl(mat, n);
      var j := 0;
      while j < n
        invariant 0 <= j <= n && A.Valid() && A.m == m && A.n == n
        invariant pivot == |cols|
        invariant Echelon(A.mat, n, cols, j)
        invariant SameKernel(mat, A.mat, n)
      {
        ghost var a0 := A.mat;
        var found := A.ReduceColumn(pivot, j, cols);
        SameKernelTrans(mat, a0, A.mat, n);
        if found {
          cols := cols + [j];
          pivot := pivot + 1;
        }
        j := j + 1;
      }
    }

    /**
     * Lines 105-118: the index of the first row of the reduced row echelon
     * form with no nonzero entry, or `m` when there is none; this is the
     * number of pivots.
     */
    method Rank() returns (r: int, ghost R: seq<seq<real>>, ghost cols: seq<int>)
      requires Valid()
      ensures 0 <= r <= m && r == |cols|
      ensures IsMatrix(R, m, n) && Echelon(R, n, cols, n) && SameKernel(mat, R, n)
      ensures forall i :: 0 <= i < r ==> R[i][cols[i]] == 1.0
      ensures r < m ==> forall l :: 0 <= l < n ==> R[r][l] == 0.0
    {
      var A;
      A, cols := Rref();
      R := A.mat;
      var i := 0;
      while i < m
        invariant 0 <= i <= m && i <= |cols|
      {
        var nonzero := false;
        var j := 0;
        while j < n
          invariant 0 <= j <= n
          invariant !nonzero && forall l :: 0 <= l < j ==> A.mat[i][l] == 0.0
        {
          if A.mat[i][j] != 0.0 {
            nonzero := true;
            break;
          }
          j := j + 1;
        }
        if !nonzero {
          ZeroRowBelow(R, n, cols, i);
          return i, R, cols;
        }
        i := i + 1;
      }
      r := m;
    }

    /**
     * Lines 120-148: the solutions of `mat * x == b`. The result is empty
     * when there is none; otherwise its first vector is a solution, and each
     * further vector solves the homogeneous system, has 1 in its own free
     * column `free[k]` and 0 in the free columns of the others.
     */
    method SolveSystem(b: seq<real>) returns (ret: seq<seq<real>>, ghost free: seq<int>)
      requires Valid() && |b| == m
      ensures forall k :: 0 <= k < |ret| ==> |ret[k]| == n
      ensures |ret| == 0 ==> forall x :: |x| == n ==> MulVec(mat, x) != b
      ensures |ret| > 0 ==> MulVec(mat, ret[0]) == b && |free| == |ret| - 1
      ensures forall k :: 0 <= k < |free| ==> 0 <= free[k] < n
      ensures forall k :: 1 <= k < |ret| ==> MulVec(mat, ret[k]) == ZeroVec(m) && ret[k][free[k - 1]] == 1.0
      ensures forall s, t :: 0 <= s < t < |free| ==> free[s] < free[t]
      ensures forall k, s :: 1 <= k < |ret| && 0 <= s < |free| && s != k - 1 ==> ret[k][free[s]] == 0.0
    {
      var bb := ColumnOf(b);
      var aug := Concat(this, bb);
      var sol, cols := aug.Rref();
      ret, free := ReadSolutions(sol.mat, n, cols);
      forall x | |x| == n
        ensures Annihilates(sol.mat, x + [-1.0]) <==> MulVec(mat, x) == b
        ensures Annihilates(sol.mat, x + [0.0]) <==> MulVec(mat, x) == ZeroVec(m)
      {
        AugmentedKernel(mat, b, n, sol.mat, x);
      }
    }

    /** Lines 122-123: the `|b| x 1` matrix whose single column is `b`. */
    static method ColumnOf(b: seq<real>) returns (bb: Matrix)
      ensures fresh(bb) && bb.Valid() && bb.m == |b| && bb.n == 1
      ensures bb.mat == AsColumn(b)
    {
      bb := new Matrix(|b|, 1);
      var i := 0;
      while i < |b|
        invariant 0 <= i <= |b| && bb.Valid() && bb.m == |b| && bb.n == 1
        invariant forall r :: 0 <= r < |b| ==> bb.mat[r] == if r < i then [b[r]] else [0.0]
      {
        bb.mat := bb.mat[i := bb.mat[i][0 := b[i]]];
        i := i + 1;
      }
    }
  }

  /**
   * A matrix with the same solutions as `a` with `b` appended as a last
   * column: its solutions with last entry `-1` solve `a * x == b`, those with
   * last entry `0` solve `a * x == 0`.
   */
  lemma AugmentedKernel(a: seq<seq<real>>, b: seq<real>, n: nat, sol: seq<seq<real>>, x: seq<real>)
    requires IsMatrix(a, |a|, n) && |b| == |a| && |x| == n
    requires IsMatrix(sol, |sol|, n + 1)
    requires SameKernel(SideBySide(a, AsColumn(b), |a|, n, 1), sol, n + 1)
    ensures Annihilates(sol, x + [-1.0]) <==> MulVec(a, x) == b
    ensures Annihilates(sol, x + [0.0]) <==> MulVec(a, x) == ZeroVec(|a|)
  {
    Augmented(a, b, x, n);
  }

  /** A row of the echelon form with no nonzero entry is below the pivot rows. */
  lemma ZeroRowBelow(R: seq<seq<real>>, n: nat, cols: seq<int>, i: nat)
    requires Echelon(R, n, cols, n) && i < |R|
    requires forall l :: 0 <= l < n ==> R[i][l] == 0.0
    ensures i >= |cols|
  {
    if |cols| > 0 {
      var r := if i < |cols| then i else |cols| - 1;
      assert R[r][cols[r]] == 1.0;
    }
  }

  /** A dot product over one more entry adds that entry's product. */
  lemma DotPrefix(u: seq<real>, v: seq<real>, k: nat)
    requires |u| == |v| && k < |u|
    ensures Dot(u[..k + 1], v[..k + 1]) == Dot(u[..k], v[..k]) + u[k] * v[k]
  {
    assert u[..k + 1][..k] == u[..k] && v[..k + 1][..k] == v[..k];
  }
}
