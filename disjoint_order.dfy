/**
 * The order in which the disjoint sparse table of
 * data-structure/disjoint_sparse_table.cpp combines a block, over the free
 * monoid of words (`op` is concatenation, `id` the empty word). The free
 * monoid is the one where order is visible: a fold is right for it exactly
 * when it is right for every monoid.
 *
 * The backward loop of lines 21-23 computes `op(lookup[i][j + 1], v[j])`,
 * which puts `v[j]` after the elements to its right. The forward loop of
 * lines 25-27 and the query of line 36 use the natural order.
 */
module DisjointFoldOrder {

  type Word = seq<int>

  /** `M::op` folded over a sequence of words, from `M::id`. */
  function Concat(s: seq<Word>): Word {
    if |s| == 0 then [] else s[0] + Concat(s[1..])
  }

  lemma {:induction false} ConcatAppend(s: seq<Word>, w: Word)
    ensures Concat(s + [w]) == Concat(s) + w
  {
    if |s| == 0 {
      assert s + [w] == [w];
      assert Concat([w]) == w + Concat([]);
    } else {
      assert (s + [w])[1..] == s[1..] + [w];
      ConcatAppend(s[1..], w);
    }
  }

  /** Lines 20-23 as written: `lookup[i][m - 1] = v[m - 1]`, then `lookup[i][j] = op(lookup[i][j + 1], v[j])`. */
  function LeftAsWritten(v: seq<Word>, j: nat, m: nat): (w: Word)
    requires j < m <= |v|
    decreases m - j
  {
    if j == m - 1 then v[m - 1] else LeftAsWritten(v, j + 1, m) + v[j]
  }

  /** Lines 20-23 with the operands of line 22 in the order the fold needs: `lookup[i][j] = op(v[j], lookup[i][j + 1])`. */
  function Left(v: seq<Word>, j: nat, m: nat): (w: Word)
    requires j < m <= |v|
    decreases m - j
  {
    if j == m - 1 then v[m - 1] else v[j] + Left(v, j + 1, m)
  }

  /** Lines 24-27: `lookup[i][m] = v[m]`, then `lookup[i][j] = op(lookup[i][j - 1], v[j])`. */
  function Right(v: seq<Word>, m: nat, j: nat): (w: Word)
    requires m <= j < |v|
    decreases j - m
  {
    if j == m then v[m] else Right(v, m, j - 1) + v[j]
  }

  /** The corrected backward loop leaves the fold of `v[j..m)` at `j`. */
  lemma {:induction false} LeftIsFold(v: seq<Word>, j: nat, m: nat)
    requires j < m <= |v|
    ensures Left(v, j, m) == Concat(v[j..m])
    decreases m - j
  {
    if j == m - 1 {
      assert v[j..m] == [v[m - 1]];
      assert Concat([v[m - 1]]) == v[m - 1] + Concat([]);
    } else {
      LeftIsFold(v, j + 1, m);
      assert v[j..m][1..] == v[j + 1..m];
    }
  }

  /** The forward loop leaves the fold of `v[m..j]` at `j`. */
  lemma {:induction false} RightIsFold(v: seq<Word>, m: nat, j: nat)
    requires m <= j < |v|
    ensures Right(v, m, j) == Concat(v[m..j + 1])
    decreases j - m
  {
    if j == m {
      assert v[m..m + 1] == [v[m]];
      assert Concat([v[m]]) == v[m] + Concat([]);
    } else {
      RightIsFold(v, m, j - 1);
      assert v[m..j + 1] == v[m..j] + [v[j]];
      ConcatAppend(v[m..j], v[j]);
    }
  }

  /** Line 36 on the corrected table: a query straddling the midpoint `m` is the fold of `v[l..r)` in order. */
  lemma FoldInOrder(v: seq<Word>, l: nat, m: nat, r: nat)
    requires l < m < r <= |v|
    ensures Left(v, l, m) + Right(v, m, r - 1) == Concat(v[l..r])
  {
    LeftIsFold(v, l, m);
    RightIsFold(v, m, r - 1);
    ConcatSplit(v[l..r], m - l);
    assert v[l..r][..m - l] == v[l..m];
    assert v[l..r][m - l..] == v[m..r];
  }

  /** Folding two adjacent pieces concatenates their folds. */
  lemma {:induction false} ConcatSplit(s: seq<Word>, k: nat)
    requires k <= |s|
    ensures Concat(s) == Concat(s[..k]) + Concat(s[k..])
  {
    if k > 0 {
      ConcatSplit(s[1..], k - 1);
      assert s[1..][..k - 1] == s[..k][1..];
      assert s[1..][k - 1..] == s[k..];
    } else {
      assert s[k..] == s;
    }
  }

  /**
   * The table as written answers `fold(0, 4)` over the words `[0], [1], [2],
   * [3]` (level 2, midpoint 2) with `[1, 0, 2, 3]` instead of `[0, 1, 2, 3]`.
   */
  lemma AsWrittenOutOfOrder()
    ensures var v: seq<Word> := [[0], [1], [2], [3]];
      LeftAsWritten(v, 0, 2) + Right(v, 2, 3) == [1, 0, 2, 3] &&
      Concat(v[0..4]) == [0, 1, 2, 3] &&
      LeftAsWritten(v, 0, 2) + Right(v, 2, 3) != Concat(v[0..4])
  {
    var v: seq<Word> := [[0], [1], [2], [3]];
    assert LeftAsWritten(v, 0, 2) == [1, 0];
    assert Right(v, 2, 3) == [2, 3];
    assert v[0..4] == v;
    assert Concat(v[3..]) == [3] by { assert v[3..][1..] == []; }
    assert Concat(v[2..]) == [2, 3] by { assert v[2..][1..] == v[3..]; }
    assert Concat(v[1..]) == [1, 2, 3] by { assert v[1..][1..] == v[2..]; }
    assert Concat(v) == [0, 1, 2, 3];
  }
}
