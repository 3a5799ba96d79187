/**
 * The lazy segment tree of data-structure/lazy_segment_tree.cpp, instantiated
 * with the min monoid acted on by addition (module MinAdd).
 *
 * The tree is heap-numbered: node 1 is the root, the children of `k` are `2k`
 * and `2k + 1`, and the leaves are `size .. 2 * size - 1`. `node[k]` is the
 * minimum of `k`'s segment before `k`'s own pending addition `lazy[k]` (and
 * those of its ancestors) is applied.
 */
module LazySegmentTree {
  import opened BitOps
  import opened MinAdd

  // ---------------------------------------------------------------------------
  // Heap numbering: `c` is an ancestor of `j` (or `j` itself) when halving `j`
  // repeatedly reaches `c`.

  predicate Anc(c: nat, j: nat)
    decreases j
  {
    c >= 1 && j >= 1 && (j == c || (j > c && Anc(c, j / 2)))
  }

  lemma {:induction false} AncSelf(c: nat)
    requires c >= 1
    ensures Anc(c, c)
  {
  }

  /** Whatever lies under a child lies under its parent. */
  lemma {:induction false} AncParent(c: nat, w: nat, j: nat)
    requires c >= 1 && (w == 2 * c || w == 2 * c + 1) && Anc(w, j)
    ensures Anc(c, j)
    decreases j
  {
    if j != w {
      AncParent(c, w, j / 2);
    }
  }

  /** The subtrees of two siblings are disjoint. */
  lemma {:induction false} AncSiblings(c: nat, j: nat)
    requires c >= 1
    ensures !(Anc(2 * c, j) && Anc(2 * c + 1, j))
    decreases j
  {
    if j > 2 * c + 1 {
      AncSiblings(c, j / 2);
    } else if j == 2 * c + 1 {
      NotUnderChild(c);
    }
  }

  /** A node does not lie under its children. */
  lemma {:induction false} NotUnderChild(c: nat)
    requires c >= 1
    ensures !Anc(2 * c, c) && !Anc(2 * c + 1, c)
  {
  }

  /** The children of a node under `c` lie under `c`. */
  lemma {:induction false} AncChild(c: nat, j: nat)
    requires Anc(c, j)
    ensures Anc(c, 2 * j) && Anc(c, 2 * j + 1)
  {
    assert (2 * j) / 2 == j && (2 * j + 1) / 2 == j;
  }

  /** Below `c`, every node other than `c` lies under one of `c`'s children. */
  lemma {:induction false} AncSplit(c: nat, j: nat)
    requires Anc(c, j) && j != c
    ensures Anc(2 * c, j) || Anc(2 * c + 1, j)
    decreases j
  {
    if j / 2 != c {
      AncSplit(c, j / 2);
    }
  }

  /** The root lies above every node. */
  lemma {:induction false} AncRoot(j: nat)
    requires j >= 1
    ensures Anc(1, j)
    decreases j
  {
    if j > 1 {
      AncRoot(j / 2);
    }
  }

  /** The children of a node under `c` are neither `c` itself nor above it. */
  lemma {:induction false} ChildrenBelow(c: nat, j: nat)
    requires Anc(c, j)
    ensures 2 * j != c && 2 * j + 1 != c
  {
  }

  // ---------------------------------------------------------------------------
  // Reading the arrays: past the end a node reads as +oo and a tag as 0, which
  // makes the abstract view total.

  function N(node: seq<Val>, k: nat): Val {
    if k < |node| then node[k] else Inf
  }

  function L(lazy: seq<int>, k: nat): int {
    if k < |lazy| then lazy[k] else 0
  }

  /** The invariant at an internal node: `node[k]` is the op of its children with their tags applied. */
  predicate LocalOK(node: seq<Val>, lazy: seq<int>, k: nat) {
    N(node, k) == Min(Act(N(node, 2 * k), L(lazy, 2 * k)), Act(N(node, 2 * k + 1), L(lazy, 2 * k + 1)))
  }

  /** Every internal node under `k` satisfies the invariant. */
  ghost predicate SubOK(node: seq<Val>, lazy: seq<int>, size: nat, k: nat) {
    forall j {:trigger LocalOK(node, lazy, j)} :: 1 <= j < size && Anc(k, j) ==> LocalOK(node, lazy, j)
  }

  /** Nothing under `c` differs. */
  ghost predicate SameUnder(node: seq<Val>, lazy: seq<int>, node': seq<Val>, lazy': seq<int>, c: nat) {
    forall j {:trigger Anc(c, j)} :: Anc(c, j) ==> N(node, j) == N(node', j) && L(lazy, j) == L(lazy', j)
  }

  /** Nothing outside the subtree of `c` differs. */
  ghost predicate SameOutside(node: seq<Val>, lazy: seq<int>, node': seq<Val>, lazy': seq<int>, c: nat) {
    |node'| == |node| && |lazy'| == |lazy| &&
    forall j {:trigger Anc(c, j)} :: !Anc(c, j) ==> N(node, j) == N(node', j) && L(lazy, j) == L(lazy', j)
  }

  lemma {:induction false} SameUnderChildren(node: seq<Val>, lazy: seq<int>, node': seq<Val>, lazy': seq<int>, c: nat)
    requires c >= 1 && SameUnder(node, lazy, node', lazy', c)
    ensures SameUnder(node, lazy, node', lazy', 2 * c) && SameUnder(node, lazy, node', lazy', 2 * c + 1)
  {
    forall j | Anc(2 * c, j) ensures N(node, j) == N(node', j) && L(lazy, j) == L(lazy', j) {
      AncParent(c, 2 * c, j);
    }
    forall j | Anc(2 * c + 1, j) ensures N(node, j) == N(node', j) && L(lazy, j) == L(lazy', j) {
      AncParent(c, 2 * c + 1, j);
    }
  }

  // ---------------------------------------------------------------------------
  // The abstract view, one value at a time. Node `k` at depth `d` spans a
  // segment of `2^d` leaves, and `t` is an offset into that segment.

  /** Element `t` of the segment of `k`, with the tags of `k` and of every node on the way down to the leaf applied. */
  ghost function Elem(node: seq<Val>, lazy: seq<int>, k: nat, d: nat, t: int): Val
    decreases d
  {
    if d == 0 then Act(N(node, k), L(lazy, k))
    else if t < Pow2(d - 1) then Act(Elem(node, lazy, 2 * k, d - 1, t), L(lazy, k))
    else Act(Elem(node, lazy, 2 * k + 1, d - 1, t - Pow2(d - 1)), L(lazy, k))
  }

  /** The op of the whole segment of `k`, computed on the abstract tree. */
  ghost function Total(node: seq<Val>, lazy: seq<int>, k: nat, d: nat): Val
    decreases d
  {
    if d == 0 then Act(N(node, k), L(lazy, k))
    else Act(Min(Total(node, lazy, 2 * k, d - 1), Total(node, lazy, 2 * k + 1, d - 1)), L(lazy, k))
  }

  /**
   * The op of the elements of the segment of `k` at the offsets in `[lo, hi)`,
   * computed on the abstract tree along the walk `fold` makes: nothing for a
   * segment outside the range, the whole segment for one inside it (a single
   * leaf that meets the range lies inside it), and the two halves otherwise.
   */
  ghost function Query(node: seq<Val>, lazy: seq<int>, k: nat, d: nat, lo: int, hi: int): Val
    decreases d
  {
    if hi <= 0 || Pow2(d) <= lo then Inf
    else if d == 0 || (lo <= 0 && Pow2(d) <= hi) then Total(node, lazy, k, d)
    else Act(Min(Query(node, lazy, 2 * k, d - 1, lo, hi), Query(node, lazy, 2 * k + 1, d - 1, lo - Pow2(d - 1), hi - Pow2(d - 1))), L(lazy, k))
  }

  /** `Total` is no larger than any element of the segment. */
  lemma {:induction false} TotalBelow(node: seq<Val>, lazy: seq<int>, k: nat, d: nat, t: int)
    requires 0 <= t < Pow2(d)
    ensures Le(Total(node, lazy, k, d), Elem(node, lazy, k, d, t))
    decreases d
  {
    if d > 0 {
      var h, x := Pow2(d - 1), L(lazy, k);
      var m := Min(Total(node, lazy, 2 * k, d - 1), Total(node, lazy, 2 * k + 1, d - 1));
      if t < h {
        TotalBelow(node, lazy, 2 * k, d - 1, t);
        ActMonotone(m, Elem(node, lazy, 2 * k, d - 1, t), x);
      } else {
        TotalBelow(node, lazy, 2 * k + 1, d - 1, t - h);
        ActMonotone(m, Elem(node, lazy, 2 * k + 1, d - 1, t - h), x);
      }
    }
  }

  /** `Total` is one of the elements of the segment: the offset of a minimum. */
  lemma {:induction false} TotalAttained(node: seq<Val>, lazy: seq<int>, k: nat, d: nat) returns (t: int)
    ensures 0 <= t < Pow2(d) && Total(node, lazy, k, d) == Elem(node, lazy, k, d, t)
    decreases d
  {
    if d == 0 {
      t := 0;
    } else {
      var h := Pow2(d - 1);
      var t1 := TotalAttained(node, lazy, 2 * k, d - 1);
      var t2 := TotalAttained(node, lazy, 2 * k + 1, d - 1);
      var m1, m2 := Total(node, lazy, 2 * k, d - 1), Total(node, lazy, 2 * k + 1, d - 1);
      if Min(m1, m2) == m1 {
        t := t1;
        assert Elem(node, lazy, k, d, t) == Act(m1, L(lazy, k));
      } else {
        t := t2 + h;
        assert Min(m1, m2) == m2;
        assert Elem(node, lazy, k, d, t) == Act(m2, L(lazy, k));
      }
    }
  }

  /** `Query` is no larger than any element at an offset in `[lo, hi)`. */
  lemma {:induction false} QueryBelow(node: seq<Val>, lazy: seq<int>, k: nat, d: nat, lo: int, hi: int, t: int)
    requires 0 <= t < Pow2(d) && lo <= t < hi
    ensures Le(Query(node, lazy, k, d, lo, hi), Elem(node, lazy, k, d, t))
    decreases d
  {
    if d == 0 || (lo <= 0 && Pow2(d) <= hi) {
      TotalBelow(node, lazy, k, d, t);
    } else {
      var h, x := Pow2(d - 1), L(lazy, k);
      var m := Min(Query(node, lazy, 2 * k, d - 1, lo, hi), Query(node, lazy, 2 * k + 1, d - 1, lo - h, hi - h));
      if t < h {
        QueryBelow(node, lazy, 2 * k, d - 1, lo, hi, t);
        ActMonotone(m, Elem(node, lazy, 2 * k, d - 1, t), x);
      } else {
        QueryBelow(node, lazy, 2 * k + 1, d - 1, lo - h, hi - h, t - h);
        ActMonotone(m, Elem(node, lazy, 2 * k + 1, d - 1, t - h), x);
      }
    }
  }

  /** Unless it is +oo, `Query` is one of the elements at an offset in `[lo, hi)`. */
  lemma {:induction false} QueryAttained(node: seq<Val>, lazy: seq<int>, k: nat, d: nat, lo: int, hi: int) returns (t: int)
    ensures Query(node, lazy, k, d, lo, hi) != Inf ==>
      0 <= t < Pow2(d) && lo <= t < hi && Query(node, lazy, k, d, lo, hi) == Elem(node, lazy, k, d, t)
    decreases d
  {
    if hi <= 0 || Pow2(d) <= lo {
      t := 0;
    } else if d == 0 || (lo <= 0 && Pow2(d) <= hi) {
      t := TotalAttained(node, lazy, k, d);
    } else {
      var t1 := QueryAttained(node, lazy, 2 * k, d - 1, lo, hi);
      var t2 := QueryAttained(node, lazy, 2 * k + 1, d - 1, lo - Pow2(d - 1), hi - Pow2(d - 1));
      t := QueryAttainedStep(node, lazy, k, d - 1, lo, hi, t1, t2);
    }
  }

  /** One split step of `QueryAttained`, with the children at depth `e`: the witness of the smaller child's answer. */
  lemma QueryAttainedStep(node: seq<Val>, lazy: seq<int>, k: nat, e: nat, lo: int, hi: int, t1: int, t2: int) returns (t: int)
    requires 0 < hi && lo < Pow2(e + 1) && !(lo <= 0 && Pow2(e + 1) <= hi)
    requires Query(node, lazy, 2 * k, e, lo, hi) != Inf ==>
      0 <= t1 < Pow2(e) && lo <= t1 < hi && Query(node, lazy, 2 * k, e, lo, hi) == Elem(node, lazy, 2 * k, e, t1)
    requires Query(node, lazy, 2 * k + 1, e, lo - Pow2(e), hi - Pow2(e)) != Inf ==>
      0 <= t2 < Pow2(e) && lo - Pow2(e) <= t2 < hi - Pow2(e) &&
      Query(node, lazy, 2 * k + 1, e, lo - Pow2(e), hi - Pow2(e)) == Elem(node, lazy, 2 * k + 1, e, t2)
    ensures Query(node, lazy, k, e + 1, lo, hi) != Inf ==>
      0 <= t < Pow2(e + 1) && lo <= t < hi && Query(node, lazy, k, e + 1, lo, hi) == Elem(node, lazy, k, e + 1, t)
  {
    var q1, q2 := Query(node, lazy, 2 * k, e, lo, hi), Query(node, lazy, 2 * k + 1, e, lo - Pow2(e), hi - Pow2(e));
    if Min(q1, q2) == q1 {
      t := t1;
      AttainedLeft(node, lazy, k, e, lo, hi, t1);
    } else {
      t := t2 + Pow2(e);
      AttainedRight(node, lazy, k, e, lo, hi, t2);
    }
  }

  /** The left child's witness serves for `k` when the left answer is the smaller one. */
  lemma AttainedLeft(node: seq<Val>, lazy: seq<int>, k: nat, e: nat, lo: int, hi: int, t1: int)
    requires 0 < hi && lo < Pow2(e + 1) && !(lo <= 0 && Pow2(e + 1) <= hi)
    requires Min(Query(node, lazy, 2 * k, e, lo, hi), Query(node, lazy, 2 * k + 1, e, lo - Pow2(e), hi - Pow2(e))) == Query(node, lazy, 2 * k, e, lo, hi)
    requires Query(node, lazy, 2 * k, e, lo, hi) != Inf ==>
      0 <= t1 < Pow2(e) && lo <= t1 < hi && Query(node, lazy, 2 * k, e, lo, hi) == Elem(node, lazy, 2 * k, e, t1)
    ensures Query(node, lazy, k, e + 1, lo, hi) != Inf ==>
      0 <= t1 < Pow2(e + 1) && lo <= t1 < hi && Query(node, lazy, k, e + 1, lo, hi) == Elem(node, lazy, k, e + 1, t1)
  {
    var q1 := Query(node, lazy, 2 * k, e, lo, hi);
    assert Query(node, lazy, k, e + 1, lo, hi) == Act(q1, L(lazy, k));
    if q1 != Inf {
      assert Elem(node, lazy, k, e + 1, t1) == Act(Elem(node, lazy, 2 * k, e, t1), L(lazy, k));
    }
  }

  /** The right child's witness, shifted by the left half, serves for `k` when the right answer is strictly smaller. */
  lemma AttainedRight(node: seq<Val>, lazy: seq<int>, k: nat, e: nat, lo: int, hi: int, t2: int)
    requires 0 < hi && lo < Pow2(e + 1) && !(lo <= 0 && Pow2(e + 1) <= hi)
    requires Min(Query(node, lazy, 2 * k, e, lo, hi), Query(node, lazy, 2 * k + 1, e, lo - Pow2(e), hi - Pow2(e))) != Query(node, lazy, 2 * k, e, lo, hi)
    requires Query(node, lazy, 2 * k + 1, e, lo - Pow2(e), hi - Pow2(e)) != Inf ==>
      0 <= t2 < Pow2(e) && lo - Pow2(e) <= t2 < hi - Pow2(e) &&
      Query(node, lazy, 2 * k + 1, e, lo - Pow2(e), hi - Pow2(e)) == Elem(node, lazy, 2 * k + 1, e, t2)
    ensures Query(node, lazy, k, e + 1, lo, hi) != Inf ==>
      0 <= t2 + Pow2(e) < Pow2(e + 1) && lo <= t2 + Pow2(e) < hi &&
      Query(node, lazy, k, e + 1, lo, hi) == Elem(node, lazy, k, e + 1, t2 + Pow2(e))
  {
    var q2 := Query(node, lazy, 2 * k + 1, e, lo - Pow2(e), hi - Pow2(e));
    assert q2 != Inf;
    assert Query(node, lazy, k, e + 1, lo, hi) == Act(q2, L(lazy, k));
    assert Elem(node, lazy, k, e + 1, t2 + Pow2(e)) == Act(Elem(node, lazy, 2 * k + 1, e, t2), L(lazy, k));
  }



  /**
   * `Query` is the minimum of the elements at the offsets in `[lo, hi)`: no
   * larger than any of them, and equal to one of them unless it is +oo (which
   * it is when no offset of the segment lies in the range).
   */
  lemma QueryIsMin(node: seq<Val>, lazy: seq<int>, k: nat, d: nat, lo: int, hi: int)
    ensures forall t :: 0 <= t < Pow2(d) && lo <= t < hi ==> Le(Query(node, lazy, k, d, lo, hi), Elem(node, lazy, k, d, t))
    ensures Query(node, lazy, k, d, lo, hi) == Inf ||
            exists t :: 0 <= t < Pow2(d) && lo <= t < hi && Query(node, lazy, k, d, lo, hi) == Elem(node, lazy, k, d, t)
  {
    forall t | 0 <= t < Pow2(d) && lo <= t < hi ensures Le(Query(node, lazy, k, d, lo, hi), Elem(node, lazy, k, d, t)) {
      QueryBelow(node, lazy, k, d, lo, hi, t);
    }
    var t := QueryAttained(node, lazy, k, d, lo, hi);
  }

  // ---------------------------------------------------------------------------
  // What the abstract view of a subtree depends on.

  /** The elements of the segment of `c` depend only on the subtree of `c`. */
  lemma {:induction false} ElemFrame(node: seq<Val>, lazy: seq<int>, node': seq<Val>, lazy': seq<int>, c: nat, d: nat, t: int)
    requires c >= 1 && SameUnder(node, lazy, node', lazy', c)
    ensures Elem(node', lazy', c, d, t) == Elem(node, lazy, c, d, t)
    decreases d
  {
    AncSelf(c);
    if d > 0 {
      SameUnderChildren(node, lazy, node', lazy', c);
      if t < Pow2(d - 1) {
        ElemFrame(node, lazy, node', lazy', 2 * c, d - 1, t);
      } else {
        ElemFrame(node, lazy, node', lazy', 2 * c + 1, d - 1, t - Pow2(d - 1));
      }
    }
  }

  lemma {:induction false} TotalFrame(node: seq<Val>, lazy: seq<int>, node': seq<Val>, lazy': seq<int>, c: nat, d: nat)
    requires c >= 1 && SameUnder(node, lazy, node', lazy', c)
    ensures Total(node', lazy', c, d) == Total(node, lazy, c, d)
    decreases d
  {
    AncSelf(c);
    if d > 0 {
      SameUnderChildren(node, lazy, node', lazy', c);
      TotalFrame(node, lazy, node', lazy', 2 * c, d - 1);
      TotalFrame(node, lazy, node', lazy', 2 * c + 1, d - 1);
    }
  }

  lemma {:induction false} QueryFrame(node: seq<Val>, lazy: seq<int>, node': seq<Val>, lazy': seq<int>, c: nat, d: nat, lo: int, hi: int)
    requires c >= 1 && SameUnder(node, lazy, node', lazy', c)
    ensures Query(node', lazy', c, d, lo, hi) == Query(node, lazy, c, d, lo, hi)
    decreases d
  {
    AncSelf(c);
    TotalFrame(node, lazy, node', lazy', c, d);
    if d > 0 {
      var h := Pow2(d - 1);
      SameUnderChildren(node, lazy, node', lazy', c);
      QueryFrame(node, lazy, node', lazy', 2 * c, d - 1, lo, hi);
      QueryFrame(node, lazy, node', lazy', 2 * c + 1, d - 1, lo - h, hi - h);
    }
  }

  /** The primed state is the other one with `x` added to the tag of `c` and nothing else under `c` changed. */
  ghost predicate Retagged(node: seq<Val>, lazy: seq<int>, node': seq<Val>, lazy': seq<int>, c: nat, x: int) {
    c >= 1 && N(node', c) == N(node, c) && L(lazy', c) == L(lazy, c) + x &&
    SameUnder(node, lazy, node', lazy', 2 * c) && SameUnder(node, lazy, node', lazy', 2 * c + 1)
  }

  /** A tag of `x` more on `c` adds `x` to every element of its segment (`act` composes with `O::op`). */
  lemma {:induction false} ElemRetag(node: seq<Val>, lazy: seq<int>, node': seq<Val>, lazy': seq<int>, c: nat, d: nat, x: int, t: int)
    requires Retagged(node, lazy, node', lazy', c, x)
    ensures Elem(node', lazy', c, d, t) == Act(Elem(node, lazy, c, d, t), x)
  {
    if d > 0 {
      if t < Pow2(d - 1) {
        ElemFrame(node, lazy, node', lazy', 2 * c, d - 1, t);
      } else {
        ElemFrame(node, lazy, node', lazy', 2 * c + 1, d - 1, t - Pow2(d - 1));
      }
    }
  }

  lemma {:induction false} TotalRetag(node: seq<Val>, lazy: seq<int>, node': seq<Val>, lazy': seq<int>, c: nat, d: nat, x: int)
    requires Retagged(node, lazy, node', lazy', c, x)
    ensures Total(node', lazy', c, d) == Act(Total(node, lazy, c, d), x)
  {
    if d > 0 {
      TotalFrame(node, lazy, node', lazy', 2 * c, d - 1);
      TotalFrame(node, lazy, node', lazy', 2 * c + 1, d - 1);
    }
  }

  /** A tag of `x` more on `c` adds `x` to the answer for any range (`act` distributes over `op`). */
  lemma QueryRetag(node: seq<Val>, lazy: seq<int>, node': seq<Val>, lazy': seq<int>, c: nat, d: nat, x: int, lo: int, hi: int)
    requires Retagged(node, lazy, node', lazy', c, x)
    ensures Query(node', lazy', c, d, lo, hi) == Act(Query(node, lazy, c, d, lo, hi), x)
  {
    if hi <= 0 || Pow2(d) <= lo {
    } else if d == 0 || (lo <= 0 && Pow2(d) <= hi) {
      TotalRetag(node, lazy, node', lazy', c, d, x);
    } else {
      QueryRetagSplit(node, lazy, node', lazy', c, d - 1, x, lo, hi);
    }
  }

  /**
   * `QueryRetag` where the range splits at `c` (stated with the children's
   * depth `e`): the children are untouched and only the tag of `c` grows.
   */
  lemma QueryRetagSplit(node: seq<Val>, lazy: seq<int>, node': seq<Val>, lazy': seq<int>, c: nat, e: nat, x: int, lo: int, hi: int)
    requires Retagged(node, lazy, node', lazy', c, x)
    requires 0 < hi && lo < Pow2(e + 1) && !(lo <= 0 && Pow2(e + 1) <= hi)
    ensures Query(node', lazy', c, e + 1, lo, hi) == Act(Query(node, lazy, c, e + 1, lo, hi), x)
  {
    QueryFrame(node, lazy, node', lazy', 2 * c, e, lo, hi);
    QueryFrame(node, lazy, node', lazy', 2 * c + 1, e, lo - Pow2(e), hi - Pow2(e));
    QueryTagStep(node, lazy, node', lazy', c, e, x, lo, hi);
  }

  /** One split step of `Query` with the same children's answers and a tag larger by `x`. */
  lemma QueryTagStep(node: seq<Val>, lazy: seq<int>, node': seq<Val>, lazy': seq<int>, c: nat, e: nat, x: int, lo: int, hi: int)
    requires L(lazy', c) == L(lazy, c) + x
    requires 0 < hi && lo < Pow2(e + 1) && !(lo <= 0 && Pow2(e + 1) <= hi)
    requires Query(node', lazy', 2 * c, e, lo, hi) == Query(node, lazy, 2 * c, e, lo, hi)
    requires Query(node', lazy', 2 * c + 1, e, lo - Pow2(e), hi - Pow2(e)) == Query(node, lazy, 2 * c + 1, e, lo - Pow2(e), hi - Pow2(e))
    ensures Query(node', lazy', c, e + 1, lo, hi) == Act(Query(node, lazy, c, e + 1, lo, hi), x)
  {
    var q1, q2 := Query(node, lazy, 2 * c, e, lo, hi), Query(node, lazy, 2 * c + 1, e, lo - Pow2(e), hi - Pow2(e));
    assert Query(node, lazy, c, e + 1, lo, hi) == Act(Min(q1, q2), L(lazy, c));
    assert Query(node', lazy', c, e + 1, lo, hi) == Act(Min(q1, q2), L(lazy, c) + x);
    ActCompose(Min(q1, q2), L(lazy, c), x);
  }

  // ---------------------------------------------------------------------------
  // Where a node sits: node `k` at depth `d` covers the leaves `[l, l + 2^d)`.

  /** The index of the leftmost node `d` levels below `k`: `k * 2^d`. */
  function Leftmost(k: nat, d: nat): nat
    decreases d
  {
    if d == 0 then k else Leftmost(2 * k, d - 1)
  }

  lemma {:induction false} LeftmostIsProduct(k: nat, d: nat)
    ensures Leftmost(k, d) == k * Pow2(d)
    decreases d
  {
    if d > 0 {
      LeftmostIsProduct(2 * k, d - 1);
      assert (2 * k) * Pow2(d - 1) == k * (2 * Pow2(d - 1));
    }
  }

  /** The leftmost node below `k + 1` follows the `2^d` nodes below `k`. */
  lemma LeftmostNext(k: nat, d: nat)
    ensures Leftmost(k + 1, d) == Leftmost(k, d) + Pow2(d)
  {
    LeftmostIsProduct(k, d);
    LeftmostIsProduct(k + 1, d);
    Distribute(k, Pow2(d));
  }

  predicate Pos(size: nat, k: nat, d: nat, l: nat) {
    1 <= k < 2 * size && l + Pow2(d) <= size && Leftmost(k, d) == size + l
  }

  lemma {:induction false} PosFacts(size: nat, k: nat, d: nat, l: nat)
    requires Pos(size, k, d, l)
    ensures k < 2 * size
    ensures d == 0 <==> k >= size
    ensures d > 0 ==> Pow2(d) == 2 * Pow2(d - 1) && Pos(size, 2 * k, d - 1, l) && Pos(size, 2 * k + 1, d - 1, l + Pow2(d - 1))
    ensures d > 0 ==> 2 * k + 1 < 2 * size
  {
    var p := Pow2(d);
    LeftmostIsProduct(k, d);
    MulMonotone(1, p, k);
    if d > 0 {
      var h := Pow2(d - 1);
      LeftmostIsProduct(2 * k + 1, d - 1);
      assert p == 2 * h;
      assert k * p == (2 * k) * h;
      assert (2 * k + 1) * h == k * p + h;
      MulMonotone(1, h, 2 * k + 1);
      if k >= size {
        MulMonotone(size, k, p);
        MulMonotone(2, p, size);
      }
    }
  }

  // ---------------------------------------------------------------------------
  // Frames: how the subtree invariant and equality outside a subtree combine.

  lemma {:induction false} SubOKChildren(node: seq<Val>, lazy: seq<int>, size: nat, k: nat)
    requires k >= 1 && SubOK(node, lazy, size, k)
    ensures SubOK(node, lazy, size, 2 * k) && SubOK(node, lazy, size, 2 * k + 1)
  {
    forall j | 1 <= j < size && Anc(2 * k, j) ensures LocalOK(node, lazy, j) {
      AncParent(k, 2 * k, j);
    }
    forall j | 1 <= j < size && Anc(2 * k + 1, j) ensures LocalOK(node, lazy, j) {
      AncParent(k, 2 * k + 1, j);
    }
  }

  /** The invariant at `k` and under both children gives the invariant under `k`. */
  lemma {:induction false} SubOKJoin(node: seq<Val>, lazy: seq<int>, size: nat, k: nat)
    requires k >= 1 && (k < size ==> LocalOK(node, lazy, k))
    requires SubOK(node, lazy, size, 2 * k) && SubOK(node, lazy, size, 2 * k + 1)
    ensures SubOK(node, lazy, size, k)
  {
    forall j | 1 <= j < size && Anc(k, j) ensures LocalOK(node, lazy, j) {
      if j != k {
        AncSplit(k, j);
      }
    }
  }

  /** The invariant under `c` reads nothing outside the subtree of `c`. */
  lemma {:induction false} SubOKFrame(node: seq<Val>, lazy: seq<int>, node': seq<Val>, lazy': seq<int>, size: nat, c: nat)
    requires c >= 1 && SubOK(node, lazy, size, c) && SameUnder(node, lazy, node', lazy', c)
    ensures SubOK(node', lazy', size, c)
  {
    forall j | 1 <= j < size && Anc(c, j) ensures LocalOK(node', lazy', j) {
      AncChild(c, j);
      assert LocalOK(node, lazy, j);
    }
  }

  /** A change confined to the subtree of one child leaves the other child's subtree alone. */
  lemma {:induction false} SiblingUntouched(node: seq<Val>, lazy: seq<int>, node': seq<Val>, lazy': seq<int>, k: nat, c: nat, c': nat)
    requires k >= 1 && ((c == 2 * k && c' == 2 * k + 1) || (c == 2 * k + 1 && c' == 2 * k))
    requires SameOutside(node, lazy, node', lazy', c)
    ensures SameUnder(node, lazy, node', lazy', c')
  {
    forall j | Anc(c', j) ensures N(node, j) == N(node', j) && L(lazy, j) == L(lazy', j) {
      AncSiblings(k, j);
    }
  }

  /** A change confined to a child's subtree is confined to the parent's. */
  lemma {:induction false} OutsideWiden(node: seq<Val>, lazy: seq<int>, node': seq<Val>, lazy': seq<int>, k: nat, c: nat)
    requires k >= 1 && (c == 2 * k || c == 2 * k + 1) && SameOutside(node, lazy, node', lazy', c)
    ensures SameOutside(node, lazy, node', lazy', k)
  {
    forall j | !Anc(k, j) ensures N(node, j) == N(node', j) && L(lazy, j) == L(lazy', j) {
      if Anc(c, j) {
        AncParent(k, c, j);
      }
    }
  }

  lemma {:induction false} OutsideTrans(n1: seq<Val>, l1: seq<int>, n2: seq<Val>, l2: seq<int>, n3: seq<Val>, l3: seq<int>, c: nat)
    requires SameOutside(n1, l1, n2, l2, c) && SameOutside(n2, l2, n3, l3, c)
    ensures SameOutside(n1, l1, n3, l3, c)
  {
  }

  /** Rewriting the entry or the tag of `k` itself changes nothing outside its subtree. */
  lemma {:induction false} OutsideSelf(node: seq<Val>, lazy: seq<int>, k: nat, v: Val, t: int)
    requires 1 <= k < |node| && k < |lazy|
    ensures SameOutside(node, lazy, node[k := v], lazy[k := t], k)
  {
    AncSelf(k);
  }

  // ---------------------------------------------------------------------------
  // `push`.

  /** The state `push(k)` leaves behind: `lazy[k]` moved into `node[k]` and into the children's tags. */
  ghost predicate Pushed(node: seq<Val>, lazy: seq<int>, node': seq<Val>, lazy': seq<int>, size: nat, k: nat) {
    |node| == 2 * size && |lazy| == 2 * size && 1 <= k < 2 * size &&
    if lazy[k] == 0 then node' == node && lazy' == lazy
    else
      node' == node[k := Act(node[k], lazy[k])] &&
      lazy' == if k < size then lazy[2 * k := lazy[2 * k] + lazy[k]][2 * k + 1 := lazy[2 * k + 1] + lazy[k]][k := 0]
               else lazy[k := 0]
  }

  /** `push` keeps the invariant under `k`: `act` distributes over `op` and composes with `O::op`. */
  lemma {:induction false} PushSubOK(node: seq<Val>, lazy: seq<int>, node': seq<Val>, lazy': seq<int>, size: nat, k: nat)
    requires Pushed(node, lazy, node', lazy', size, k) && SubOK(node, lazy, size, k)
    ensures SubOK(node', lazy', size, k)
  {
    forall j | 1 <= j < size && Anc(k, j) ensures LocalOK(node', lazy', j) {
      ChildrenBelow(k, j);
      assert LocalOK(node, lazy, j);
    }
  }

  /** `push(k)` touches only `k` and its children. */
  lemma {:induction false} PushOutside(node: seq<Val>, lazy: seq<int>, node': seq<Val>, lazy': seq<int>, size: nat, k: nat)
    requires Pushed(node, lazy, node', lazy', size, k)
    ensures SameOutside(node, lazy, node', lazy', k)
  {
    AncSelf(k);
    AncChild(k, k);
  }

  /** Changing only the tag of `k` keeps the invariant under `k`, which never reads that tag. */
  lemma {:induction false} TagSubOK(node: seq<Val>, lazy: seq<int>, size: nat, k: nat, t: int)
    requires 1 <= k < |lazy| && SubOK(node, lazy, size, k)
    ensures SubOK(node, lazy[k := t], size, k)
  {
    forall j | 1 <= j < size && Anc(k, j) ensures LocalOK(node, lazy[k := t], j) {
      ChildrenBelow(k, j);
      assert LocalOK(node, lazy, j);
    }
  }

  // ---------------------------------------------------------------------------
  // Recombining after the two recursive calls of `update` and `fold`. State 1
  // is before the call on `2k`, state 2 between the calls, state 3 after the
  // call on `2k + 1`; each call changed only its own subtree.

  /** The two calls together changed only the subtree of `k`, and not `k` itself. */
  lemma {:induction false} JoinOutside(n1: seq<Val>, l1: seq<int>, n2: seq<Val>, l2: seq<int>, n3: seq<Val>, l3: seq<int>, k: nat)
    requires k >= 1 && SameOutside(n1, l1, n2, l2, 2 * k) && SameOutside(n2, l2, n3, l3, 2 * k + 1)
    ensures SameOutside(n1, l1, n3, l3, k)
    ensures N(n3, k) == N(n1, k) && L(l3, k) == L(l1, k)
  {
    NotUnderChild(k);
    OutsideWiden(n1, l1, n2, l2, k, 2 * k);
    OutsideWiden(n2, l2, n3, l3, k, 2 * k + 1);
  }
  /** The invariant part of `UpdateJoin`: with both children's tags 0, `node[k]` is the op of the children. */
  lemma {:induction false} UpdateJoinState(n2: seq<Val>, l2: seq<int>, n3: seq<Val>, l3: seq<int>, n4: seq<Val>, size: nat, k: nat)
    requires 1 <= k && 2 * k + 1 < |n3| && n4 == n3[k := Min(n3[2 * k], n3[2 * k + 1])] && k < |l3|
    requires SameOutside(n2, l2, n3, l3, 2 * k + 1) && SubOK(n2, l2, size, 2 * k) && L(l2, 2 * k) == 0
    requires SubOK(n3, l3, size, 2 * k + 1) && L(l3, 2 * k + 1) == 0
    ensures SubOK(n4, l3, size, k) && SameOutside(n3, l3, n4, l3, k)
  {
    SiblingUntouched(n2, l2, n3, l3, k, 2 * k + 1, 2 * k);
    AncSelf(2 * k);
    SubOKFrame(n2, l2, n3, l3, size, 2 * k);
    UnderChildrenNodeWrite(n3, l3, k, n4[k]);
    SubOKFrame(n3, l3, n4, l3, size, 2 * k);
    SubOKFrame(n3, l3, n4, l3, size, 2 * k + 1);
    SubOKJoin(n4, l3, size, k);
    OutsideSelf(n3, l3, k, n4[k], l3[k]);
    assert l3[k := l3[k]] == l3;
  }

  /** Writing `node[k]` changes nothing under either child. */
  lemma {:induction false} UnderChildrenNodeWrite(node: seq<Val>, lazy: seq<int>, k: nat, v: Val)
    requires 1 <= k < |node|
    ensures SameUnder(node, lazy, node[k := v], lazy, 2 * k) && SameUnder(node, lazy, node[k := v], lazy, 2 * k + 1)
  {
    NotUnderChild(k);
    forall j | Anc(2 * k, j) ensures N(node, j) == N(node[k := v], j) && L(lazy, j) == L(lazy, j) {
    }
    forall j | Anc(2 * k + 1, j) ensures N(node, j) == N(node[k := v], j) && L(lazy, j) == L(lazy, j) {
    }
  }
  /** `push` at an internal node with a pending tag retags both children by it. */
  lemma {:induction false} PushRetags(node: seq<Val>, lazy: seq<int>, node': seq<Val>, lazy': seq<int>, size: nat, k: nat)
    requires Pushed(node, lazy, node', lazy', size, k) && k < size && lazy[k] != 0
    ensures Retagged(node, lazy, node', lazy', 2 * k, lazy[k]) && Retagged(node, lazy, node', lazy', 2 * k + 1, lazy[k])
    ensures L(lazy', k) == 0
  {
    forall j | Anc(4 * k, j) ensures N(node, j) == N(node', j) && L(lazy, j) == L(lazy', j) {
    }
    forall j | Anc(4 * k + 1, j) ensures N(node, j) == N(node', j) && L(lazy, j) == L(lazy', j) {
    }
    forall j | Anc(4 * k + 2, j) ensures N(node, j) == N(node', j) && L(lazy, j) == L(lazy', j) {
    }
    forall j | Anc(4 * k + 3, j) ensures N(node, j) == N(node', j) && L(lazy, j) == L(lazy', j) {
    }
  }

  /** `push` leaves every element of the segment as it was. */
  lemma {:induction false} PushElemAt(node: seq<Val>, lazy: seq<int>, node': seq<Val>, lazy': seq<int>, size: nat, k: nat, d: nat, t: int)
    requires Pushed(node, lazy, node', lazy', size, k) && (d > 0 ==> k < size)
    ensures Elem(node', lazy', k, d, t) == Elem(node, lazy, k, d, t)
  {
    if lazy[k] != 0 && d > 0 {
      PushRetags(node, lazy, node', lazy', size, k);
      if t < Pow2(d - 1) {
        ElemRetag(node, lazy, node', lazy', 2 * k, d - 1, lazy[k], t);
      } else {
        ElemRetag(node, lazy, node', lazy', 2 * k + 1, d - 1, lazy[k], t - Pow2(d - 1));
      }
    }
  }

  lemma PushElem(node: seq<Val>, lazy: seq<int>, node': seq<Val>, lazy': seq<int>, size: nat, k: nat, d: nat)
    requires Pushed(node, lazy, node', lazy', size, k) && (d > 0 ==> k < size)
    ensures SameElems(node, lazy, node', lazy', k, d)
  {
    forall t | 0 <= t < Pow2(d) ensures Elem(node', lazy', k, d, t) == Elem(node, lazy, k, d, t) {
      PushElemAt(node, lazy, node', lazy', size, k, d, t);
    }
  }

  lemma {:induction false} PushTotal(node: seq<Val>, lazy: seq<int>, node': seq<Val>, lazy': seq<int>, size: nat, k: nat, d: nat)
    requires Pushed(node, lazy, node', lazy', size, k) && (d > 0 ==> k < size)
    ensures Total(node', lazy', k, d) == Total(node, lazy, k, d)
  {
    if lazy[k] != 0 && d > 0 {
      PushRetags(node, lazy, node', lazy', size, k);
      TotalRetag(node, lazy, node', lazy', 2 * k, d - 1, lazy[k]);
      TotalRetag(node, lazy, node', lazy', 2 * k + 1, d - 1, lazy[k]);
      var t1, t2 := Total(node, lazy, 2 * k, d - 1), Total(node, lazy, 2 * k + 1, d - 1);
      ActMin(t1, t2, lazy[k]);
      ActZero(Min(Act(t1, lazy[k]), Act(t2, lazy[k])));
    }
  }

  /** `push` leaves the answer for every range as it was. */
  lemma {:induction false} PushQuery(node: seq<Val>, lazy: seq<int>, node': seq<Val>, lazy': seq<int>, size: nat, k: nat, d: nat, lo: int, hi: int)
    requires Pushed(node, lazy, node', lazy', size, k) && (d > 0 ==> k < size)
    ensures Query(node', lazy', k, d, lo, hi) == Query(node, lazy, k, d, lo, hi)
  {
    if lazy[k] == 0 || hi <= 0 || Pow2(d) <= lo {
    } else if d == 0 || (lo <= 0 && Pow2(d) <= hi) {
      PushTotal(node, lazy, node', lazy', size, k, d);
    } else {
      PushRetags(node, lazy, node', lazy', size, k);
      PushQuerySplit(node, lazy, node', lazy', k, d - 1, lazy[k], lo, hi);
    }
  }

  /** `PushQuery` where the range splits at `k` (children at depth `e`): both children carry `z` more and the tag of `k` is now 0. */
  lemma PushQuerySplit(node: seq<Val>, lazy: seq<int>, node': seq<Val>, lazy': seq<int>, k: nat, e: nat, z: int, lo: int, hi: int)
    requires Retagged(node, lazy, node', lazy', 2 * k, z) && Retagged(node, lazy, node', lazy', 2 * k + 1, z)
    requires L(lazy', k) == 0 && L(lazy, k) == z
    requires 0 < hi && lo < Pow2(e + 1) && !(lo <= 0 && Pow2(e + 1) <= hi)
    ensures Query(node', lazy', k, e + 1, lo, hi) == Query(node, lazy, k, e + 1, lo, hi)
  {
    QueryRetag(node, lazy, node', lazy', 2 * k, e, z, lo, hi);
    QueryRetag(node, lazy, node', lazy', 2 * k + 1, e, z, lo - Pow2(e), hi - Pow2(e));
    QueryPushStep(node, lazy, node', lazy', k, e, z, lo, hi);
  }

  /** One split step of `Query` where the tag of `k` moved into both children's answers. */
  lemma QueryPushStep(node: seq<Val>, lazy: seq<int>, node': seq<Val>, lazy': seq<int>, k: nat, e: nat, z: int, lo: int, hi: int)
    requires L(lazy', k) == 0 && L(lazy, k) == z
    requires 0 < hi && lo < Pow2(e + 1) && !(lo <= 0 && Pow2(e + 1) <= hi)
    requires Query(node', lazy', 2 * k, e, lo, hi) == Act(Query(node, lazy, 2 * k, e, lo, hi), z)
    requires Query(node', lazy', 2 * k + 1, e, lo - Pow2(e), hi - Pow2(e)) == Act(Query(node, lazy, 2 * k + 1, e, lo - Pow2(e), hi - Pow2(e)), z)
    ensures Query(node', lazy', k, e + 1, lo, hi) == Query(node, lazy, k, e + 1, lo, hi)
  {
    var q1, q2 := Query(node, lazy, 2 * k, e, lo, hi), Query(node, lazy, 2 * k + 1, e, lo - Pow2(e), hi - Pow2(e));
    ActMin(q1, q2, z);
    ActZero(Min(Act(q1, z), Act(q2, z)));
  }

  /** Under the invariant, `node[k]` with its own tag applied is the op of its whole segment. */
  lemma {:induction false} TotalIsNode(node: seq<Val>, lazy: seq<int>, size: nat, k: nat, d: nat, l: nat)
    requires Pos(size, k, d, l) && SubOK(node, lazy, size, k)
    ensures Act(N(node, k), L(lazy, k)) == Total(node, lazy, k, d)
    decreases d
  {
    PosFacts(size, k, d, l);
    if d > 0 {
      AncSelf(k);
      assert LocalOK(node, lazy, k);
      SubOKChildren(node, lazy, size, k);
      TotalIsNode(node, lazy, size, 2 * k, d - 1, l);
      TotalIsNode(node, lazy, size, 2 * k + 1, d - 1, l + Pow2(d - 1));
    }
  }

  // ---------------------------------------------------------------------------
  // The effect of `update` and `fold` on a segment.

  /** No element of the segment of `k` changed. */
  ghost predicate SameElems(node: seq<Val>, lazy: seq<int>, node': seq<Val>, lazy': seq<int>, k: nat, d: nat) {
    forall t {:trigger Elem(node', lazy', k, d, t)} :: 0 <= t < Pow2(d) ==> Elem(node', lazy', k, d, t) == Elem(node, lazy, k, d, t)
  }

  /** The elements of the segment of `k` at the offsets in `[lo, hi)` gained `x`, and the others did not change. */
  ghost predicate Updated(node: seq<Val>, lazy: seq<int>, node': seq<Val>, lazy': seq<int>, k: nat, d: nat, lo: int, hi: int, x: int) {
    forall t {:trigger Elem(node', lazy', k, d, t)} :: 0 <= t < Pow2(d) ==>
      Elem(node', lazy', k, d, t) == if lo <= t < hi then Act(Elem(node, lazy, k, d, t), x) else Elem(node, lazy, k, d, t)
  }

  /** The covered case of `update`: `x` added to the (zero) tag of `k` and pushed adds `x` to every element of the segment. */
  lemma {:induction false} CoveredUpdate(n1: seq<Val>, l1: seq<int>, l2: seq<int>, n3: seq<Val>, l3: seq<int>,
                                         size: nat, k: nat, d: nat, l: nat, x: int)
    requires Pos(size, k, d, l) && |n1| == |l1| == 2 * size && SubOK(n1, l1, size, k)
    requires l2 == l1[k := l1[k] + x] && Pushed(n1, l2, n3, l3, size, k)
    ensures SubOK(n3, l3, size, k) && SameOutside(n1, l1, n3, l3, k)
    ensures forall t :: 0 <= t < Pow2(d) ==> Elem(n3, l3, k, d, t) == Act(Elem(n1, l1, k, d, t), x)
  {
    PosFacts(size, k, d, l);
    forall j | Anc(2 * k, j) ensures N(n1, j) == N(n1, j) && L(l1, j) == L(l2, j) {
    }
    forall j | Anc(2 * k + 1, j) ensures N(n1, j) == N(n1, j) && L(l1, j) == L(l2, j) {
    }
    forall t | 0 <= t < Pow2(d) ensures Elem(n3, l3, k, d, t) == Act(Elem(n1, l1, k, d, t), x) {
      ElemRetag(n1, l1, n1, l2, k, d, x, t);
      PushElemAt(n1, l2, n3, l3, size, k, d, t);
    }
    TagSubOK(n1, l1, size, k, l1[k] + x);
    OutsideSelf(n1, l1, k, n1[k], l1[k] + x);
    assert n1[k := n1[k]] == n1;
    PushSubOK(n1, l2, n3, l3, size, k);
    PushOutside(n1, l2, n3, l3, size, k);
  }

  /** The covered case of `update`, from the state before the first push. */
  lemma {:induction false} UpdateCovered(n0: seq<Val>, l0: seq<int>, n1: seq<Val>, l1: seq<int>, l2: seq<int>, n3: seq<Val>, l3: seq<int>,
                                         size: nat, k: nat, d: nat, l: nat, lo: int, hi: int, x: int)
    requires Pos(size, k, d, l) && |n1| == |l1| == 2 * size && SubOK(n1, l1, size, k)
    requires SameOutside(n0, l0, n1, l1, k) && SameElems(n0, l0, n1, l1, k, d)
    requires l2 == l1[k := l1[k] + x] && Pushed(n1, l2, n3, l3, size, k)
    requires lo <= 0 && hi >= Pow2(d)
    ensures SubOK(n3, l3, size, k) && SameOutside(n0, l0, n3, l3, k)
    ensures Updated(n0, l0, n3, l3, k, d, lo, hi, x)
  {
    CoveredUpdate(n1, l1, l2, n3, l3, size, k, d, l, x);
    OutsideTrans(n0, l0, n1, l1, n3, l3, k);
  }

  /** A change confined to one child's subtree leaves the elements of the other child's segment alone. */
  lemma {:induction false} SiblingElems(n1: seq<Val>, l1: seq<int>, n2: seq<Val>, l2: seq<int>, k: nat, c: nat, c': nat, d: nat, t: int)
    requires k >= 1 && ((c == 2 * k && c' == 2 * k + 1) || (c == 2 * k + 1 && c' == 2 * k))
    requires SameOutside(n1, l1, n2, l2, c)
    ensures Elem(n2, l2, c', d, t) == Elem(n1, l1, c', d, t)
  {
    SiblingUntouched(n1, l1, n2, l2, k, c, c');
    ElemFrame(n1, l1, n2, l2, c', d, t);
  }

  /**
   * After both recursive calls of `update` and the write
   * `node[k] = op(node[2k], node[2k + 1])`: the segment of `k` received the
   * update on both halves.
   */
  lemma {:induction false} UpdateJoinElems(n1: seq<Val>, l1: seq<int>, n2: seq<Val>, l2: seq<int>, n3: seq<Val>, l3: seq<int>, n4: seq<Val>,
                                           k: nat, d: nat, lo: int, hi: int, x: int)
    requires d > 0 && 1 <= k < |n3| && n4 == n3[k := Min(N(n3, 2 * k), N(n3, 2 * k + 1))] && L(l1, k) == 0 && L(l3, k) == 0
    requires SameOutside(n1, l1, n2, l2, 2 * k) && SameOutside(n2, l2, n3, l3, 2 * k + 1)
    requires Updated(n1, l1, n2, l2, 2 * k, d - 1, lo, hi, x)
    requires Updated(n2, l2, n3, l3, 2 * k + 1, d - 1, lo - Pow2(d - 1), hi - Pow2(d - 1), x)
    ensures Updated(n1, l1, n4, l3, k, d, lo, hi, x)
  {
    var h := Pow2(d - 1);
    UnderChildrenNodeWrite(n3, l3, k, Min(N(n3, 2 * k), N(n3, 2 * k + 1)));
    forall t | 0 <= t < Pow2(d)
      ensures Elem(n4, l3, k, d, t) == if lo <= t < hi then Act(Elem(n1, l1, k, d, t), x) else Elem(n1, l1, k, d, t)
    {
      if t < h {
        ElemFrame(n3, l3, n4, l3, 2 * k, d - 1, t);
        SiblingElems(n2, l2, n3, l3, k, 2 * k + 1, 2 * k, d - 1, t);
      } else {
        ElemFrame(n3, l3, n4, l3, 2 * k + 1, d - 1, t - h);
        SiblingElems(n1, l1, n2, l2, k, 2 * k, 2 * k + 1, d - 1, t - h);
      }
    }
  }

  /**
   * After both recursive calls of `update` and the write
   * `node[k] = op(node[2k], node[2k + 1])`: the invariant holds under `k`
   * again, only the subtree of `k` changed, and the segment of `k` received
   * the update.
   */
  lemma {:induction false} UpdateJoin(n1: seq<Val>, l1: seq<int>, n2: seq<Val>, l2: seq<int>, n3: seq<Val>, l3: seq<int>,
                                      size: nat, k: nat, d: nat, l: nat, lo: int, hi: int, x: int)
    requires Pos(size, k, d, l) && d > 0 && |n1| == 2 * size && |l1| == 2 * size && L(l1, k) == 0
    requires SameOutside(n1, l1, n2, l2, 2 * k) && SubOK(n2, l2, size, 2 * k) && L(l2, 2 * k) == 0
    requires Updated(n1, l1, n2, l2, 2 * k, d - 1, lo, hi, x)
    requires SameOutside(n2, l2, n3, l3, 2 * k + 1) && SubOK(n3, l3, size, 2 * k + 1) && L(l3, 2 * k + 1) == 0
    requires Updated(n2, l2, n3, l3, 2 * k + 1, d - 1, lo - Pow2(d - 1), hi - Pow2(d - 1), x)
    ensures 2 * k + 1 < |n3|
    ensures var n4 := n3[k := Min(n3[2 * k], n3[2 * k + 1])];
      SubOK(n4, l3, size, k) && L(l3, k) == 0 && SameOutside(n1, l1, n4, l3, k) && Updated(n1, l1, n4, l3, k, d, lo, hi, x)
  {
    PosFacts(size, k, d, l);
    JoinOutside(n1, l1, n2, l2, n3, l3, k);
    var n4 := n3[k := Min(n3[2 * k], n3[2 * k + 1])];
    UpdateJoinElems(n1, l1, n2, l2, n3, l3, n4, k, d, lo, hi, x);
    UpdateJoinState(n2, l2, n3, l3, n4, size, k);
    OutsideTrans(n1, l1, n3, l3, n4, l3, k);
  }

  /** An update of the pushed state is an update of the state before the push. */
  lemma {:induction false} UpdatedAfterSame(n0: seq<Val>, l0: seq<int>, n1: seq<Val>, l1: seq<int>, n4: seq<Val>, l4: seq<int>,
                                            k: nat, d: nat, lo: int, hi: int, x: int)
    requires SameElems(n0, l0, n1, l1, k, d) && Updated(n1, l1, n4, l4, k, d, lo, hi, x)
    ensures Updated(n0, l0, n4, l4, k, d, lo, hi, x)
  {
  }

  /** The recursive case of `update`, from the state before the push at `k` (state 0) to the state after the final write. */
  lemma {:induction false} UpdatePartial(n0: seq<Val>, l0: seq<int>, n1: seq<Val>, l1: seq<int>, n2: seq<Val>, l2: seq<int>, n3: seq<Val>, l3: seq<int>,
                                         size: nat, k: nat, d: nat, l: nat, lo: int, hi: int, x: int)
    requires Pos(size, k, d, l) && d > 0 && |n1| == 2 * size && |l1| == 2 * size && L(l1, k) == 0
    requires SameOutside(n0, l0, n1, l1, k) && SameElems(n0, l0, n1, l1, k, d)
    requires SameOutside(n1, l1, n2, l2, 2 * k) && SubOK(n2, l2, size, 2 * k) && L(l2, 2 * k) == 0
    requires Updated(n1, l1, n2, l2, 2 * k, d - 1, lo, hi, x)
    requires SameOutside(n2, l2, n3, l3, 2 * k + 1) && SubOK(n3, l3, size, 2 * k + 1) && L(l3, 2 * k + 1) == 0
    requires Updated(n2, l2, n3, l3, 2 * k + 1, d - 1, lo - Pow2(d - 1), hi - Pow2(d - 1), x)
    ensures 2 * k + 1 < |n3|
    ensures var n4 := n3[k := Min(n3[2 * k], n3[2 * k + 1])];
      SubOK(n4, l3, size, k) && L(l3, k) == 0 && SameOutside(n0, l0, n4, l3, k) && Updated(n0, l0, n4, l3, k, d, lo, hi, x)
  {
    UpdateJoin(n1, l1, n2, l2, n3, l3, size, k, d, l, lo, hi, x);
    var n4 := n3[k := Min(n3[2 * k], n3[2 * k + 1])];
    OutsideTrans(n0, l0, n1, l1, n4, l3, k);
    UpdatedAfterSame(n0, l0, n1, l1, n4, l3, k, d, lo, hi, x);
  }

  /**
   * After both recursive calls of `fold`: the calls only pushed tags down, so
   * each child with its tag applied holds what it held, the invariant still
   * holds at `k`, and only the subtree of `k` (not `k` itself) changed.
   */
  lemma {:induction false} FoldJoin(n1: seq<Val>, l1: seq<int>, n2: seq<Val>, l2: seq<int>, n3: seq<Val>, l3: seq<int>,
                                    size: nat, k: nat, d: nat, l: nat)
    requires Pos(size, k, d, l) && d > 0 && SubOK(n1, l1, size, k)
    requires SameOutside(n1, l1, n2, l2, 2 * k) && SubOK(n2, l2, size, 2 * k)
    requires Act(N(n2, 2 * k), L(l2, 2 * k)) == Act(N(n1, 2 * k), L(l1, 2 * k))
    requires SameOutside(n2, l2, n3, l3, 2 * k + 1) && SubOK(n3, l3, size, 2 * k + 1)
    requires Act(N(n3, 2 * k + 1), L(l3, 2 * k + 1)) == Act(N(n2, 2 * k + 1), L(l2, 2 * k + 1))
    ensures SubOK(n3, l3, size, k) && SameOutside(n1, l1, n3, l3, k)
    ensures N(n3, k) == N(n1, k) && L(l3, k) == L(l1, k)
  {
    PosFacts(size, k, d, l);
    JoinOutside(n1, l1, n2, l2, n3, l3, k);
    SiblingUntouched(n1, l1, n2, l2, k, 2 * k, 2 * k + 1);
    SiblingUntouched(n2, l2, n3, l3, k, 2 * k + 1, 2 * k);
    AncSelf(k);
    AncSelf(2 * k);
    AncSelf(2 * k + 1);
    assert LocalOK(n1, l1, k);
    SubOKFrame(n2, l2, n3, l3, size, 2 * k);
    SubOKJoin(n3, l3, size, k);
  }

  /** After both recursive calls of `fold`, the elements of the segment of `k` are as they were. */
  lemma {:induction false} FoldJoinElems(n1: seq<Val>, l1: seq<int>, n2: seq<Val>, l2: seq<int>, n3: seq<Val>, l3: seq<int>, k: nat, d: nat)
    requires d > 0 && k >= 1 && L(l3, k) == L(l1, k)
    requires SameOutside(n1, l1, n2, l2, 2 * k) && SameElems(n1, l1, n2, l2, 2 * k, d - 1)
    requires SameOutside(n2, l2, n3, l3, 2 * k + 1) && SameElems(n2, l2, n3, l3, 2 * k + 1, d - 1)
    ensures SameElems(n1, l1, n3, l3, k, d)
  {
    var h := Pow2(d - 1);
    forall t | 0 <= t < Pow2(d) ensures Elem(n3, l3, k, d, t) == Elem(n1, l1, k, d, t) {
      if t < h {
        SiblingElems(n2, l2, n3, l3, k, 2 * k + 1, 2 * k, d - 1, t);
      } else {
        SiblingElems(n1, l1, n2, l2, k, 2 * k, 2 * k + 1, d - 1, t - h);
      }
    }
  }

  /** In the recursive case of `fold`, the op of the two calls' answers is the answer for `k`. */
  lemma {:induction false} FoldJoinQuery(n1: seq<Val>, l1: seq<int>, n2: seq<Val>, l2: seq<int>, k: nat, d: nat, lo: int, hi: int, r1: Val, r2: Val)
    requires d > 0 && k >= 1 && L(l1, k) == 0 && SameOutside(n1, l1, n2, l2, 2 * k)
    requires 0 < hi && lo < Pow2(d) && !(lo <= 0 && Pow2(d) <= hi)
    requires r1 == Query(n1, l1, 2 * k, d - 1, lo, hi)
    requires r2 == Query(n2, l2, 2 * k + 1, d - 1, lo - Pow2(d - 1), hi - Pow2(d - 1))
    ensures Min(r1, r2) == Query(n1, l1, k, d, lo, hi)
  {
    SiblingUntouched(n1, l1, n2, l2, k, 2 * k, 2 * k + 1);
    QueryFrame(n1, l1, n2, l2, 2 * k + 1, d - 1, lo - Pow2(d - 1), hi - Pow2(d - 1));
  }

  /** With every tag 0, the segment of `k` at depth `d` is the run of leaves from `k * 2^d`. */
  lemma {:induction false} ElemLeaves(node: seq<Val>, lazy: seq<int>, k: nat, d: nat, t: int)
    requires forall j :: 0 <= j < |lazy| ==> lazy[j] == 0
    requires 0 <= t < Pow2(d)
    ensures Elem(node, lazy, k, d, t) == N(node, Leftmost(k, d) + t)
    decreases d
  {
    if d > 0 {
      var h := Pow2(d - 1);
      assert L(lazy, k) == 0;
      if t < h {
        ElemLeaves(node, lazy, 2 * k, d - 1, t);
      } else {
        ElemLeaves(node, lazy, 2 * k + 1, d - 1, t - h);
        LeftmostNext(2 * k, d - 1);
      }
    }
  }

  /**
   * The push at the head of `fold`: the abstract view of the subtree and the
   * answer for every range are as they were, and the two cases that end the
   * recursion have their answers (+oo outside the range, `node[k]` when the
   * segment lies inside it).
   */
  lemma {:induction false} FoldPushed(n0: seq<Val>, l0: seq<int>, n1: seq<Val>, l1: seq<int>, size: nat, k: nat, d: nat, l: nat, lo: int, hi: int)
    requires Pos(size, k, d, l) && SubOK(n0, l0, size, k) && Pushed(n0, l0, n1, l1, size, k)
    ensures L(l1, k) == 0 && SubOK(n1, l1, size, k) && SameOutside(n0, l0, n1, l1, k) && SameElems(n0, l0, n1, l1, k, d)
    ensures Act(N(n1, k), L(l1, k)) == Act(N(n0, k), L(l0, k))
    ensures Query(n1, l1, k, d, lo, hi) == Query(n0, l0, k, d, lo, hi)
    ensures hi <= 0 || Pow2(d) <= lo ==> Query(n0, l0, k, d, lo, hi) == Inf
    ensures !(hi <= 0 || Pow2(d) <= lo) && lo <= 0 && Pow2(d) <= hi ==> Query(n0, l0, k, d, lo, hi) == N(n1, k)
  {
    PosFacts(size, k, d, l);
    PushElem(n0, l0, n1, l1, size, k, d);
    PushQuery(n0, l0, n1, l1, size, k, d, lo, hi);
    PushSubOK(n0, l0, n1, l1, size, k);
    PushOutside(n0, l0, n1, l1, size, k);
    PushTotal(n0, l0, n1, l1, size, k, d);
    TotalIsNode(n1, l1, size, k, d, l);
  }

  /** The recursive case of `fold`, from the state before the push at `k` (state 0) to the state after both calls. */
  lemma {:induction false} FoldPartial(n0: seq<Val>, l0: seq<int>, n1: seq<Val>, l1: seq<int>, n2: seq<Val>, l2: seq<int>, n3: seq<Val>, l3: seq<int>,
                                       size: nat, k: nat, d: nat, l: nat, lo: int, hi: int, r1: Val, r2: Val)
    requires Pos(size, k, d, l) && d > 0 && L(l1, k) == 0 && SubOK(n1, l1, size, k)
    requires 0 < hi && lo < Pow2(d) && !(lo <= 0 && Pow2(d) <= hi)
    requires SameOutside(n0, l0, n1, l1, k) && SameElems(n0, l0, n1, l1, k, d)
    requires Act(N(n1, k), L(l1, k)) == Act(N(n0, k), L(l0, k)) && Query(n1, l1, k, d, lo, hi) == Query(n0, l0, k, d, lo, hi)
    requires SameOutside(n1, l1, n2, l2, 2 * k) && SubOK(n2, l2, size, 2 * k) && SameElems(n1, l1, n2, l2, 2 * k, d - 1)
    requires Act(N(n2, 2 * k), L(l2, 2 * k)) == Act(N(n1, 2 * k), L(l1, 2 * k))
    requires SameOutside(n2, l2, n3, l3, 2 * k + 1) && SubOK(n3, l3, size, 2 * k + 1) && SameElems(n2, l2, n3, l3, 2 * k + 1, d - 1)
    requires Act(N(n3, 2 * k + 1), L(l3, 2 * k + 1)) == Act(N(n2, 2 * k + 1), L(l2, 2 * k + 1))
    requires r1 == Query(n1, l1, 2 * k, d - 1, lo, hi) && r2 == Query(n2, l2, 2 * k + 1, d - 1, lo - Pow2(d - 1), hi - Pow2(d - 1))
    ensures SubOK(n3, l3, size, k) && SameOutside(n0, l0, n3, l3, k) && SameElems(n0, l0, n3, l3, k, d)
    ensures Act(N(n3, k), L(l3, k)) == Act(N(n0, k), L(l0, k))
    ensures Min(r1, r2) == Query(n0, l0, k, d, lo, hi)
  {
    FoldJoin(n1, l1, n2, l2, n3, l3, size, k, d, l);
    FoldJoinElems(n1, l1, n2, l2, n3, l3, k, d);
    FoldJoinQuery(n1, l1, n2, l2, k, d, lo, hi, r1, r2);
    OutsideTrans(n0, l0, n1, l1, n3, l3, k);
  }

  /** Under the root, every internal node is under the root: the invariant under node 1 is the invariant everywhere. */
  lemma {:induction false} RootSubOK(node: seq<Val>, lazy: seq<int>, size: nat)
    ensures SubOK(node, lazy, size, 1) <==> forall j {:trigger LocalOK(node, lazy, j)} :: 1 <= j < size ==> LocalOK(node, lazy, j)
  {
    forall j | 1 <= j < size ensures Anc(1, j) {
      AncRoot(j);
    }
  }

  class LazySegTree {
    /** The number of leaves: the least power of two not below the length of the input. */
    const size: nat
    /** `size == 2^height`. */
    const height: nat
    var node: seq<Val>
    var lazy: seq<int>

    ghost predicate Shape()
      reads this
    {
      size == Pow2(height) && |node| == 2 * size && |lazy| == 2 * size
    }

    ghost predicate Valid()
      reads this
    {
      Shape() && forall j {:trigger LocalOK(node, lazy, j)} :: 1 <= j < size ==> LocalOK(node, lazy, j)
    }

    /** The abstract sequence: leaf `t` with every tag on its path applied. */
    ghost function Elems(): (s: seq<Val>)
      reads this
      ensures |s| == size
    {
      var nd, lz, h := node, lazy, height;
      seq(size, t requires 0 <= t < size => Elem(nd, lz, 1, h, t))
    }

    /**
     * The body of the constructor from a vector: `size` doubles from 1 until it
     * reaches `|v|`, the leaves hold `v` and then +oo, every tag is 0, and the
     * internal nodes are filled from `size - 1` down to 1.
     */
    static method Build(v: seq<Val>) returns (s: nat, h: nat, nd: seq<Val>, lz: seq<int>)
      ensures s == Pow2(h) && |v| <= s && (h == 0 || Pow2(h - 1) < |v|)
      ensures |nd| == 2 * s && |lz| == 2 * s && forall j :: 0 <= j < 2 * s ==> lz[j] == 0
      ensures forall j :: s <= j < 2 * s ==> nd[j] == if j - s < |v| then v[j - s] else Inf
      ensures forall j :: 1 <= j < s ==> LocalOK(nd, lz, j)
    {
      s, h := 1, 0;
      while s < |v|
        invariant s == Pow2(h) && (h == 0 || Pow2(h - 1) < |v|)
        decreases |v| - s
      {
        s, h := 2 * s, h + 1;
      }
      nd := seq(2 * s, j requires 0 <= j < 2 * s => if s <= j < s + |v| then v[j - s] else Inf);
      lz := seq(2 * s, j => 0);
      for i := s downto 1
        invariant |nd| == 2 * s
        invariant forall j :: s <= j < 2 * s ==> nd[j] == if j - s < |v| then v[j - s] else Inf
        invariant forall j :: i <= j < s ==> LocalOK(nd, lz, j)
      {
        ghost var prev := nd;
        nd := nd[i := Min(nd[2 * i], nd[2 * i + 1])];
        forall j | i + 1 <= j < s ensures LocalOK(nd, lz, j) {
          assert LocalOK(prev, lz, j);
        }
      }
    }

    /** `LazySegmentTree(v)`: the abstract sequence is `v` padded with +oo up to `size`. */
    constructor (v: seq<Val>)
      ensures Valid() && |v| <= size && (height == 0 || Pow2(height - 1) < |v|)
      ensures Elems() == v + seq(size - |v|, _ => Inf)
    {
      var s, h, nd, lz := Build(v);
      size, height, node, lazy := s, h, nd, lz;
      new;
      LeftmostIsProduct(1, height);
      forall t | 0 <= t < size ensures Elems()[t] == (v + seq(size - |v|, _ => Inf))[t] {
        ElemLeaves(node, lazy, 1, height, t);
      }
    }

    /** `LazySegmentTree(n)`: `n` copies of the identity +oo. */
    constructor Sized(n: nat)
      ensures Valid() && n <= size && (height == 0 || Pow2(height - 1) < n)
      ensures Elems() == seq(size, _ => Inf)
    {
      var s, h, nd, lz := Build(seq(n, _ => Inf));
      size, height, node, lazy := s, h, nd, lz;
      new;
      LeftmostIsProduct(1, height);
      forall t | 0 <= t < size ensures Elems()[t] == Inf {
        ElemLeaves(node, lazy, 1, height, t);
      }
    }

    /** `push(k)`: moves the pending tag of `k` into its children's tags and into `node[k]`. */
    method Push(k: nat)
      requires Shape() && 1 <= k < 2 * size
      modifies this
      ensures Shape() && lazy[k] == 0
      ensures Pushed(old(node), old(lazy), node, lazy, size, k)
    {
      if lazy[k] == 0 {
        return;
      }
      if k < size {
        lazy := lazy[2 * k := lazy[2 * k] + lazy[k]];
        lazy := lazy[2 * k + 1 := lazy[2 * k + 1] + lazy[k]];
      }
      node := node[k := Act(node[k], lazy[k])];
      lazy := lazy[k := 0];
    }

    /** The recursive `update(a, b, x, k, l, r)`: `x` acted onto the leaves of `[a, b)` inside the segment `[l, r)` of `k`. */
    method UpdateRec(a: int, b: int, x: int, k: nat, l: nat, r: nat, ghost d: nat)
      requires Shape() && Pos(size, k, d, l) && r == l + Pow2(d) && SubOK(node, lazy, size, k)
      modifies this
      ensures Shape() && SubOK(node, lazy, size, k) && lazy[k] == 0
      ensures SameOutside(old(node), old(lazy), node, lazy, k)
      ensures Updated(old(node), old(lazy), node, lazy, k, d, a - l, b - l, x)
      decreases d, 1
    {
      PosFacts(size, k, d, l);
      ghost var n0, l0 := node, lazy;
      Push(k);
      PushElem(n0, l0, node, lazy, size, k, d);
      PushSubOK(n0, l0, node, lazy, size, k);
      PushOutside(n0, l0, node, lazy, size, k);
      if r <= a || b <= l {
      } else if a <= l && r <= b {
        ghost var n1, l1 := node, lazy;
        lazy := lazy[k := lazy[k] + x];
        ghost var l2 := lazy;
        Push(k);
        UpdateCovered(n0, l0, n1, l1, l2, node, lazy, size, k, d, l, a - l, b - l, x);
      } else {
        UpdateChildren(a, b, x, k, l, r, d, n0, l0);
      }
    }

    /** The case of `update` that recurses into both children and recomputes `node[k]`, after the push at `k` from the state `n0`, `l0`. */
    method UpdateChildren(a: int, b: int, x: int, k: nat, l: nat, r: nat, ghost d: nat, ghost n0: seq<Val>, ghost l0: seq<int>)
      requires Shape() && Pos(size, k, d, l) && r == l + Pow2(d) && SubOK(node, lazy, size, k) && L(lazy, k) == 0
      requires l < b && a < r && !(a <= l && r <= b)
      requires SameOutside(n0, l0, node, lazy, k) && SameElems(n0, l0, node, lazy, k, d)
      modifies this
      ensures Shape() && SubOK(node, lazy, size, k) && lazy[k] == 0
      ensures SameOutside(n0, l0, node, lazy, k)
      ensures Updated(n0, l0, node, lazy, k, d, a - l, b - l, x)
      decreases d, 0
    {
      PosFacts(size, k, d, l);
      var m := (l + r) / 2;
      assert m == l + Pow2(d - 1);
      SubOKChildren(node, lazy, size, k);
      ghost var n1, l1 := node, lazy;
      UpdateRec(a, b, x, 2 * k, l, m, d - 1);
      ghost var n2, l2 := node, lazy;
      SiblingUntouched(n1, l1, n2, l2, k, 2 * k, 2 * k + 1);
      SubOKFrame(n1, l1, n2, l2, size, 2 * k + 1);
      UpdateRec(a, b, x, 2 * k + 1, m, r, d - 1);
      UpdatePartial(n0, l0, n1, l1, n2, l2, node, lazy, size, k, d, l, a - l, b - l, x);
      node := node[k := Min(node[2 * k], node[2 * k + 1])];
    }

    /** The recursive `fold(a, b, k, l, r)`: the op of the leaves of `[a, b)` inside the segment `[l, r)` of `k`. */
    method FoldRec(a: int, b: int, k: nat, l: nat, r: nat, ghost d: nat) returns (res: Val)
      requires Shape() && Pos(size, k, d, l) && r == l + Pow2(d) && SubOK(node, lazy, size, k)
      modifies this
      ensures Shape() && SubOK(node, lazy, size, k)
      ensures SameOutside(old(node), old(lazy), node, lazy, k) && SameElems(old(node), old(lazy), node, lazy, k, d)
      ensures Act(N(node, k), L(lazy, k)) == Act(N(old(node), k), L(old(lazy), k))
      ensures res == Query(old(node), old(lazy), k, d, a - l, b - l)
      decreases d, 1
    {
      ghost var n0, l0 := node, lazy;
      Push(k);
      FoldPushed(n0, l0, node, lazy, size, k, d, l, a - l, b - l);
      if r <= a || b <= l {
        res := Inf;
      } else if a <= l && r <= b {
        res := node[k];
      } else {
        res := FoldChildren(a, b, k, l, r, d, n0, l0);
      }
    }

    /** The case of `fold` that recurses into both children, after the push at `k` from the state `n0`, `l0`. */
    method FoldChildren(a: int, b: int, k: nat, l: nat, r: nat, ghost d: nat, ghost n0: seq<Val>, ghost l0: seq<int>) returns (res: Val)
      requires Shape() && Pos(size, k, d, l) && r == l + Pow2(d) && SubOK(node, lazy, size, k) && L(lazy, k) == 0
      requires l < b && a < r && !(a <= l && r <= b)
      requires SameOutside(n0, l0, node, lazy, k) && SameElems(n0, l0, node, lazy, k, d)
      requires Act(N(node, k), L(lazy, k)) == Act(N(n0, k), L(l0, k))
      requires Query(node, lazy, k, d, a - l, b - l) == Query(n0, l0, k, d, a - l, b - l)
      modifies this
      ensures Shape() && SubOK(node, lazy, size, k)
      ensures SameOutside(n0, l0, node, lazy, k) && SameElems(n0, l0, node, lazy, k, d)
      ensures Act(N(node, k), L(lazy, k)) == Act(N(n0, k), L(l0, k))
      ensures res == Query(n0, l0, k, d, a - l, b - l)
      decreases d, 0
    {
      PosFacts(size, k, d, l);
      var m := (l + r) / 2;
      assert m == l + Pow2(d - 1);
      SubOKChildren(node, lazy, size, k);
      ghost var n1, l1 := node, lazy;
      var r1 := FoldRec(a, b, 2 * k, l, m, d - 1);
      ghost var n2, l2 := node, lazy;
      SiblingUntouched(n1, l1, n2, l2, k, 2 * k, 2 * k + 1);
      SubOKFrame(n1, l1, n2, l2, size, 2 * k + 1);
      var r2 := FoldRec(a, b, 2 * k + 1, m, r, d - 1);
      ghost var n3, l3 := node, lazy;
      assert Act(N(n3, 2 * k + 1), L(l3, 2 * k + 1)) == Act(N(n2, 2 * k + 1), L(l2, 2 * k + 1));
      FoldPartial(n0, l0, n1, l1, n2, l2, n3, l3, size, k, d, l, a - l, b - l, r1, r2);
      res := Min(r1, r2);
    }

    /** `update(l, r, x)`: `x` added to every element at a position in `[l, r)`. */
    method Update(l: int, r: int, x: int)
      requires Valid()
      modifies this
      ensures Valid() && Elems() == RangeAct(old(Elems()), l, r, x)
    {
      ghost var e0 := Elems();
      RootSubOK(node, lazy, size);
      LeftmostIsProduct(1, height);
      UpdateRec(l, r, x, 1, 0, size, height);
      RootSubOK(node, lazy, size);
      forall t | 0 <= t < size ensures Elems()[t] == RangeAct(e0, l, r, x)[t] {
        assert Elems()[t] == Elem(node, lazy, 1, height, t);
      }
    }

    /** `fold(l, r)`: the minimum of the elements at the positions in `[l, r)`, +oo if there are none; the elements do not change. */
    method Fold(l: int, r: int) returns (res: Val)
      requires Valid()
      modifies this
      ensures Valid() && Elems() == old(Elems())
      ensures res == MinAll(Window(Elems(), l, r))
    {
      ghost var n0, l0, e0 := node, lazy, Elems();
      RootSubOK(node, lazy, size);
      LeftmostIsProduct(1, height);
      res := FoldRec(l, r, 1, 0, size, height);
      RootSubOK(node, lazy, size);
      assert Elems() == e0;
      QueryIsMin(n0, l0, 1, height, l, r);
      if res != Inf {
        ghost var t :| 0 <= t < size && l <= t < r && res == Elem(n0, l0, 1, height, t);
        assert res == e0[t];
      }
      MinWindowUnique(e0, l, r, res);
    }

    /** `operator[](k)`, that is `fold(k, k + 1)`: element `k`, or +oo for a position outside the tree. */
    method Get(k: int) returns (res: Val)
      requires Valid()
      modifies this
      ensures Valid() && Elems() == old(Elems())
      ensures res == if 0 <= k < size then Elems()[k] else Inf
    {
      res := Fold(k, k + 1);
      WindowSingle(Elems(), k);
    }
  }
}
