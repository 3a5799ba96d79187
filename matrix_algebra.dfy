/**
 * The linear algebra the matrix class of math/matrix/matrix.cpp is specified
 * in: matrices as sequences of rows over the exact field `real`, the dot
 * product accumulated left to right as `matmul` does, products, transposes,
 * side-by-side concatenation, and the solution sets of homogeneous systems
 * that Gauss-Jordan elimination preserves.
 */
module MatrixAlgebra {

  /** An `m x n` matrix: `m` rows of `n` entries each. */
  predicate IsMatrix(a: seq<seq<real>>, m: int, n: int) {
    |a| == m && forall i :: 0 <= i < m ==> |a[i]| == n
  }

  /** The `m x n` zero matrix, what `Matrix(m, n)` value-initialises to. */
  function Zeros(m: nat, n: nat): (z: seq<seq<real>>)
    ensures IsMatrix(z, m, n)
  {
    seq(m, _ => seq(n, _ => 0.0))
  }

  /** `u[0] * v[0] + ... + u[k-1] * v[k-1]`, summed from the left. */
  function Dot(u: seq<real>, v: seq<real>): real
    requires |u| == |v|
  {
    if |u| == 0 then 0.0 else Dot(u[..|u| - 1], v[..|v| - 1]) + u[|u| - 1] * v[|v| - 1]
  }

  /** Column `j` of a matrix with `n` columns. */
  function Column(b: seq<seq<real>>, n: nat, j: nat): (c: seq<real>)
    requires IsMatrix(b, |b|, n) && j < n
    ensures |c| == |b|
  {
    seq(|b|, k requires 0 <= k < |b| => b[k][j])
  }

  /** The row vector `row` times the `|row| x p` matrix `b`. */
  function RowTimes(row: seq<real>, b: seq<seq<real>>, p: nat): (c: seq<real>)
    requires IsMatrix(b, |row|, p)
    ensures |c| == p
  {
    seq(p, j requires 0 <= j < p => Dot(row, Column(b, p, j)))
  }

  /** The product of an `m x n` and an `n x p` matrix. */
  function Product(a: seq<seq<real>>, b: seq<seq<real>>, n: nat, p: nat): (c: seq<seq<real>>)
    requires IsMatrix(a, |a|, n) && IsMatrix(b, n, p)
    ensures IsMatrix(c, |a|, p)
  {
    seq(|a|, i requires 0 <= i < |a| => RowTimes(a[i], b, p))
  }

  /** The product of a matrix and a column vector. */
  function MulVec(a: seq<seq<real>>, x: seq<real>): (y: seq<real>)
    requires IsMatrix(a, |a|, |x|)
    ensures |y| == |a|
  {
    seq(|a|, i requires 0 <= i < |a| => Dot(a[i], x))
  }

  /** The transpose of an `m x n` matrix. */
  function Transposed(a: seq<seq<real>>, m: nat, n: nat): (t: seq<seq<real>>)
    requires IsMatrix(a, m, n)
    ensures IsMatrix(t, n, m)
  {
    seq(n, i requires 0 <= i < n => seq(m, j requires 0 <= j < m => a[j][i]))
  }

  /** The entrywise sum of two matrices of one shape. */
  function Added(a: seq<seq<real>>, b: seq<seq<real>>, m: nat, n: nat): (c: seq<seq<real>>)
    requires IsMatrix(a, m, n) && IsMatrix(b, m, n)
    ensures IsMatrix(c, m, n)
  {
    seq(m, i requires 0 <= i < m => seq(n, j requires 0 <= j < n => a[i][j] + b[i][j]))
  }

  /** The entrywise difference of two matrices of one shape. */
  function Subtracted(a: seq<seq<real>>, b: seq<seq<real>>, m: nat, n: nat): (c: seq<seq<real>>)
    requires IsMatrix(a, m, n) && IsMatrix(b, m, n)
    ensures IsMatrix(c, m, n)
  {
    seq(m, i requires 0 <= i < m => seq(n, j requires 0 <= j < n => a[i][j] - b[i][j]))
  }

  /** `a` and `b` side by side: row `i` is `a[i]` followed by `b[i]`. */
  function SideBySide(a: seq<seq<real>>, b: seq<seq<real>>, m: nat, n1: nat, n2: nat): (c: seq<seq<real>>)
    requires IsMatrix(a, m, n1) && IsMatrix(b, m, n2)
    ensures IsMatrix(c, m, n1 + n2)
  {
    seq(m, i requires 0 <= i < m => a[i] + b[i])
  }

  /** `x` solves the homogeneous system with coefficient rows `a`. */
  predicate Annihilates(a: seq<seq<real>>, x: seq<real>)
    requires IsMatrix(a, |a|, |x|)
  {
    forall i :: 0 <= i < |a| ==> Dot(a[i], x) == 0.0
  }

  /** Two systems in `n` unknowns with the same solutions. */
  ghost predicate SameKernel(a: seq<seq<real>>, b: seq<seq<real>>, n: nat)
    requires IsMatrix(a, |a|, n) && IsMatrix(b, |b|, n)
  {
    forall x: seq<real> {:trigger Annihilates(a, x)} {:trigger Annihilates(b, x)} ::
      |x| == n ==> (Annihilates(a, x) <==> Annihilates(b, x))
  }

  /** The zero vector of length `n`. */
  function ZeroVec(n: nat): (z: seq<real>)
    ensures |z| == n
  {
    seq(n, _ => 0.0)
  }

  /** A vector as an `|b| x 1` matrix, the way `solve_system` copies `b` into `bb`. */
  function AsColumn(b: seq<real>): (c: seq<seq<real>>)
    ensures IsMatrix(c, |b|, 1)
  {
    seq(|b|, i requires 0 <= i < |b| => [b[i]])
  }

  /** `e_j`: 1 at position `j` of `n`, 0 elsewhere. */
  function Unit(n: nat, j: nat): (e: seq<real>)
    ensures |e| == n
  {
    seq(n, l => if l == j then 1.0 else 0.0)
  }

  /** The `n x n` identity matrix. */
  function Identity(n: nat): (id: seq<seq<real>>)
    ensures IsMatrix(id, n, n)
  {
    seq(n, i requires 0 <= i < n => Unit(n, i))
  }

  /** The vector of all products `u[l] * v[l]`. */
  function Terms(u: seq<real>, v: seq<real>): (t: seq<real>)
    requires |u| == |v|
    ensures |t| == |u|
  {
    seq(|u|, l requires 0 <= l < |u| => u[l] * v[l])
  }

  /** The sum of a sequence, from the left. */
  function Sum(t: seq<real>): real {
    if |t| == 0 then 0.0 else Sum(t[..|t| - 1]) + t[|t| - 1]
  }

  // ---------------------------------------------------------------------------
  // Sums and dot products.
  // ---------------------------------------------------------------------------

  /** The dot product is the sum of the products of the entries. */
  lemma {:induction false} DotIsSum(u: seq<real>, v: seq<real>)
    requires |u| == |v|
    ensures Dot(u, v) == Sum(Terms(u, v))
  {
    if |u| > 0 {
      var k := |u| - 1;
      DotIsSum(u[..k], v[..k]);
      assert forall l :: 0 <= l < k ==> Terms(u, v)[l] == Terms(u[..k], v[..k])[l];
      assert Terms(u, v)[..k] == Terms(u[..k], v[..k]);
    }
  }

  /** A sum whose terms are all 0 except possibly at `p` is `t[p]`. */
  lemma {:induction false} SumOne(t: seq<real>, p: int)
    requires forall l :: 0 <= l < |t| && l != p ==> t[l] == 0.0
    ensures Sum(t) == if 0 <= p < |t| then t[p] else 0.0
  {
    if |t| > 0 {
      var k := |t| - 1;
      assert forall l :: 0 <= l < k && l != p ==> t[..k][l] == 0.0;
      SumOne(t[..k], p);
      if 0 <= p < k {
        assert t[..k][p] == t[p];
      }
    }
  }

  /** A sum whose terms are all 0 except possibly at `p` and `q` is `t[p] + t[q]`. */
  lemma {:induction false} SumTwo(t: seq<real>, p: nat, q: nat)
    requires p < |t| && q < |t| && p != q
    requires forall l :: 0 <= l < |t| && l != p && l != q ==> t[l] == 0.0
    ensures Sum(t) == t[p] + t[q]
  {
    var k := |t| - 1;
    assert t == t[..k] + [t[k]];
    if k == p {
      assert forall l :: 0 <= l < k && l != q ==> t[..k][l] == 0.0;
      SumOne(t[..k], q);
    } else if k == q {
      assert forall l :: 0 <= l < k && l != p ==> t[..k][l] == 0.0;
      SumOne(t[..k], p);
    } else {
      assert forall l :: 0 <= l < k && l != p && l != q ==> t[..k][l] == 0.0;
      SumTwo(t[..k], p, q);
    }
  }

  /** Dot products of side-by-side vectors add. */
  lemma {:induction false} DotConcat(u1: seq<real>, u2: seq<real>, v1: seq<real>, v2: seq<real>)
    requires |u1| == |v1| && |u2| == |v2|
    ensures Dot(u1 + u2, v1 + v2) == Dot(u1, v1) + Dot(u2, v2)
    decreases |u2|
  {
    if |u2| > 0 {
      var k := |u2| - 1;
      DotConcat(u1, u2[..k], v1, v2[..k]);
      assert (u1 + u2)[..|u1| + k] == u1 + u2[..k];
      assert (v1 + v2)[..|v1| + k] == v1 + v2[..k];
      assert Dot(u1 + u2, v1 + v2) == Dot(u1 + u2[..k], v1 + v2[..k]) + u2[k] * v2[k];
      assert Dot(u2, v2) == Dot(u2[..k], v2[..k]) + u2[k] * v2[k];
    } else {
      assert u1 + u2 == u1 && v1 + v2 == v1;
    }
  }

  /** The dot product is symmetric. */
  lemma {:induction false} DotComm(u: seq<real>, v: seq<real>)
    requires |u| == |v|
    ensures Dot(u, v) == Dot(v, u)
  {
    if |u| > 0 {
      DotComm(u[..|u| - 1], v[..|v| - 1]);
    }
  }

  /** Dot products scale: dividing the first vector by `p` divides the product by `p`. */
  lemma {:induction false} DotScale(u: seq<real>, w: seq<real>, x: seq<real>, p: real)
    requires |u| == |w| == |x| && p != 0.0
    requires forall l :: 0 <= l < |u| ==> w[l] == u[l] / p
    ensures Dot(w, x) == Dot(u, x) / p
  {
    if |u| > 0 {
      var k := |u| - 1;
      DotScale(u[..k], w[..k], x[..k], p);
      QuotientStep(Dot(w[..k], x[..k]), Dot(u[..k], x[..k]), w[k], u[k], x[k], p);
    }
  }

  /** One step of `DotScale`, in plain arithmetic. */
  lemma QuotientStep(dw: real, du: real, wk: real, uk: real, xk: real, p: real)
    requires p != 0.0 && dw == du / p && wk == uk / p
    ensures dw + wk * xk == (du + uk * xk) / p
  {
    assert wk * xk == (uk * xk) / p;
  }

  /** Dot products are additive: subtracting `s` from `u` subtracts their products. */
  lemma {:induction false} DotSub(u: seq<real>, s: seq<real>, r: seq<real>, x: seq<real>)
    requires Difference(r, u, s) && |x| == |u|
    ensures Dot(r, x) == Dot(u, x) - Dot(s, x)
  {
    if |u| > 0 {
      var k := |u| - 1;
      DotSub(u[..k], s[..k], r[..k], x[..k]);
      SubStep(r[k], u[k], s[k], x[k]);
    }
  }

  /** Arithmetic helper for one step of the induction in `DotSub`. */
  lemma SubStep(rk: real, uk: real, sk: real, xk: real)
    requires rk == uk - sk
    ensures rk * xk == uk * xk - sk * xk
  {
  }

  /** Dot products are homogeneous: multiplying `w` by `v` multiplies the product by `v`. */
  lemma {:induction false} DotMul(w: seq<real>, s: seq<real>, x: seq<real>, v: real)
    requires Multiple(s, w, v) && |x| == |w|
    ensures Dot(s, x) == v * Dot(w, x)
  {
    if |w| > 0 {
      var k := |w| - 1;
      DotMul(w[..k], s[..k], x[..k], v);
      MulStep(Dot(s[..k], x[..k]), Dot(w[..k], x[..k]), s[k], w[k], x[k], v);
    }
  }

  /** One step of `DotMul`, in plain arithmetic. */
  lemma MulStep(ds: real, dw: real, sk: real, wk: real, xk: real, v: real)
    requires ds == v * dw && sk == wk * v
    ensures ds + sk * xk == v * (dw + wk * xk)
  {
  }

  /** `r` is `u` minus `s`, entry by entry. */
  ghost predicate Difference(r: seq<real>, u: seq<real>, s: seq<real>) {
    |r| == |u| == |s| && forall l :: 0 <= l < |u| ==> r[l] == u[l] - s[l]
  }

  /** `s` is `w` times `v`, entry by entry. */
  ghost predicate Multiple(s: seq<real>, w: seq<real>, v: real) {
    |s| == |w| && forall l :: 0 <= l < |w| ==> s[l] == w[l] * v
  }

  /** `r` is `u` minus `v` times `w`, entry by entry. */
  ghost predicate Combination(r: seq<real>, u: seq<real>, w: seq<real>, v: real) {
    |r| == |u| == |w| && forall l :: 0 <= l < |u| ==> r[l] == u[l] - w[l] * v
  }

  /** `w` times `v`. */
  function Times(w: seq<real>, v: real): (s: seq<real>)
    ensures Multiple(s, w, v)
  {
    seq(|w|, l requires 0 <= l < |w| => w[l] * v)
  }

  /** A combination is the difference with a multiple. */
  lemma CombinationSplit(r: seq<real>, u: seq<real>, w: seq<real>, v: real)
    requires Combination(r, u, w, v)
    ensures Difference(r, u, Times(w, v))
  {
  }

  /** Subtracting a multiple of a vector orthogonal to `x` keeps the product with `x`. */
  lemma DotReduce(u: seq<real>, w: seq<real>, r: seq<real>, x: seq<real>, v: real)
    requires Combination(r, u, w, v) && |x| == |u|
    requires Dot(w, x) == 0.0
    ensures Dot(r, x) == Dot(u, x)
  {
    CombinationSplit(r, u, w, v);
    DotSub(u, Times(w, v), r, x);
    DotMul(w, Times(w, v), x, v);
    MulZero(v, Dot(w, x));
  }

  /** Arithmetic helper: a product with a zero factor is zero, for `DotReduce`. */
  lemma MulZero(v: real, d: real)
    requires d == 0.0
    ensures v * d == 0.0
  {
  }

  /** The dot product with `e_j` picks entry `j`. */
  lemma DotUnit(u: seq<real>, j: nat)
    requires j < |u|
    ensures Dot(u, Unit(|u|, j)) == u[j]
  {
    var t := Terms(u, Unit(|u|, j));
    DotIsSum(u, Unit(|u|, j));
    SumOne(t, j);
  }

  // ---------------------------------------------------------------------------
  // Properties of the matrix operations.
  // ---------------------------------------------------------------------------

  /** Transposing twice gives the matrix back. */
  lemma TransposeTwice(a: seq<seq<real>>, m: nat, n: nat)
    requires IsMatrix(a, m, n)
    ensures Transposed(Transposed(a, m, n), n, m) == a
  {
    var t := Transposed(Transposed(a, m, n), n, m);
    forall i | 0 <= i < m
      ensures t[i] == a[i]
    {
    }
  }

  /** Subtracting what was added gives the matrix back. */
  lemma SubUndoesAdd(a: seq<seq<real>>, b: seq<seq<real>>, m: nat, n: nat)
    requires IsMatrix(a, m, n) && IsMatrix(b, m, n)
    ensures Subtracted(Added(a, b, m, n), b, m, n) == a
  {
    var c := Subtracted(Added(a, b, m, n), b, m, n);
    forall i | 0 <= i < m
      ensures c[i] == a[i]
    {
    }
  }

  /** Matrix addition is commutative. */
  lemma AddComm(a: seq<seq<real>>, b: seq<seq<real>>, m: nat, n: nat)
    requires IsMatrix(a, m, n) && IsMatrix(b, m, n)
    ensures Added(a, b, m, n) == Added(b, a, m, n)
  {
    var c, d := Added(a, b, m, n), Added(b, a, m, n);
    forall i | 0 <= i < m
      ensures c[i] == d[i]
    {
    }
  }

  /** Multiplying by the identity on the right gives the matrix back. */
  lemma ProductIdentity(a: seq<seq<real>>, n: nat)
    requires IsMatrix(a, |a|, n)
    ensures Product(a, Identity(n), n, n) == a
  {
    var c := Product(a, Identity(n), n, n);
    forall i | 0 <= i < |a|
      ensures c[i] == a[i]
    {
      forall j | 0 <= j < n
        ensures c[i][j] == a[i][j]
      {
        assert Column(Identity(n), n, j) == Unit(n, j);
        DotUnit(a[i], j);
      }
    }
  }

  /** The transpose of a product is the product of the transposes in the other order. */
  lemma TransposeProduct(a: seq<seq<real>>, b: seq<seq<real>>, m: nat, n: nat, p: nat)
    requires IsMatrix(a, m, n) && IsMatrix(b, n, p)
    ensures Transposed(Product(a, b, n, p), m, p) == Product(Transposed(b, n, p), Transposed(a, m, n), n, m)
  {
    var l := Transposed(Product(a, b, n, p), m, p);
    var r := Product(Transposed(b, n, p), Transposed(a, m, n), n, m);
    forall i | 0 <= i < p
      ensures l[i] == r[i]
    {
      forall j | 0 <= j < m
        ensures l[i][j] == r[i][j]
      {
        assert Transposed(b, n, p)[i] == Column(b, p, i);
        assert Column(Transposed(a, m, n), m, j) == a[j];
        DotComm(a[j], Column(b, p, i));
      }
    }
  }

  /**
   * The augmented system: `x` followed by -1 solves the homogeneous system
   * of `[a | b]` exactly when `a x == b`, and `x` followed by 0 does exactly
   * when `a x == 0`.
   */
  lemma Augmented(a: seq<seq<real>>, b: seq<real>, x: seq<real>, n: nat)
    requires IsMatrix(a, |a|, n) && |b| == |a| && |x| == n
    ensures var aug := SideBySide(a, AsColumn(b), |a|, n, 1);
      (Annihilates(aug, x + [-1.0]) <==> MulVec(a, x) == b) &&
      (Annihilates(aug, x + [0.0]) <==> MulVec(a, x) == ZeroVec(|a|))
  {
    var bb := AsColumn(b);
    var aug := SideBySide(a, bb, |a|, n, 1);
    forall i | 0 <= i < |a|
      ensures Dot(aug[i], x + [-1.0]) == Dot(a[i], x) - b[i]
      ensures Dot(aug[i], x + [0.0]) == Dot(a[i], x)
    {
      DotConcat(a[i], [b[i]], x, [-1.0]);
      DotConcat(a[i], [b[i]], x, [0.0]);
      assert Dot([b[i]], [-1.0]) == -b[i] by {
        assert [b[i]][..0] == [];
      }
      assert Dot([b[i]], [0.0]) == 0.0 by {
        assert [b[i]][..0] == [];
      }
    }
    var y := MulVec(a, x);
    if Annihilates(aug, x + [-1.0]) {
      assert forall i :: 0 <= i < |a| ==> y[i] == b[i];
    }
    if y == b {
      assert forall i :: 0 <= i < |a| ==> Dot(aug[i], x + [-1.0]) == 0.0;
    }
    if Annihilates(aug, x + [0.0]) {
      assert forall i :: 0 <= i < |a| ==> y[i] == 0.0;
    }
    var z := ZeroVec(|a|);
    if y == z {
      forall i | 0 <= i < |a|
        ensures Dot(aug[i], x + [0.0]) == 0.0
      {
        assert y[i] == z[i] == 0.0;
      }
    }
  }
}
