/**
 * The instance the lazy segment tree of data-structure/lazy_segment_tree.cpp
 * is modelled with: the monoid of minima over integers extended with +oo
 * (`M`, identity +oo), acted on by integer addition (`O`, identity 0), and the
 * sequence views the tree's contract is stated in.
 */
module MinAdd {

  /** An element of the min monoid: an integer, or the identity +oo. */
  datatype Val = Fin(v: int) | Inf

  /** `M::op`. */
  function Min(a: Val, b: Val): Val {
    if a.Inf? then b
    else if b.Inf? then a
    else if a.v <= b.v then a
    else b
  }

  /** `a <= b`, with +oo the largest. */
  predicate Le(a: Val, b: Val) {
    b.Inf? || (a.Fin? && a.v <= b.v)
  }

  /** `act`: adding `x` to an element; +oo stays +oo. */
  function Act(a: Val, x: int): Val {
    if a.Inf? then Inf else Fin(a.v + x)
  }

  /** The minimum of a sequence, +oo for the empty one: the fold of `M::op` from `M::id`. */
  function MinAll(s: seq<Val>): Val {
    if |s| == 0 then Inf else Min(MinAll(s[..|s| - 1]), s[|s| - 1])
  }

  /** `MinAll` is no larger than any element and, unless the sequence is empty, is one of them. */
  lemma {:induction false} MinAllIsMinimum(s: seq<Val>)
    ensures forall k :: 0 <= k < |s| ==> Le(MinAll(s), s[k])
    ensures |s| > 0 ==> MinAll(s) in s
    ensures |s| == 0 ==> MinAll(s) == Inf
  {
    if |s| > 0 {
      var init := s[..|s| - 1];
      MinAllIsMinimum(init);
      assert forall k :: 0 <= k < |init| ==> init[k] == s[k];
    }
  }

  /** Adding the same amount keeps the order. */
  lemma ActMonotone(a: Val, b: Val, x: int)
    requires Le(a, b)
    ensures Le(Act(a, x), Act(b, x))
  {
  }

  /** `O::id` acts as the identity. */
  lemma ActZero(a: Val)
    ensures Act(a, 0) == a
  {
  }

  /** Acting twice is acting with the sum: `act` is a monoid action of `O`. */
  lemma ActCompose(a: Val, x: int, y: int)
    ensures Act(Act(a, x), y) == Act(a, x + y)
  {
  }

  /** `act` distributes over `M::op`. */
  lemma ActMin(a: Val, b: Val, x: int)
    ensures Act(Min(a, b), x) == Min(Act(a, x), Act(b, x))
  {
  }

  /** The abstract effect of a range update: `x` added to the positions in `[lo, hi)`. */
  function RangeAct(s: seq<Val>, lo: int, hi: int, x: int): (r: seq<Val>)
    ensures |r| == |s|
  {
    seq(|s|, i requires 0 <= i < |s| => if lo <= i < hi then Act(s[i], x) else s[i])
  }

  /** `x` clamped to `[0, n]`. */
  function Clamp(x: int, n: nat): (c: nat)
    ensures c <= n
  {
    if x < 0 then 0 else if x > n then n else x
  }

  /** The positions of `s` inside `[lo, hi)`. */
  function Window(s: seq<Val>, lo: int, hi: int): seq<Val> {
    var a, b := Clamp(lo, |s|), Clamp(hi, |s|);
    if a <= b then s[a..b] else []
  }

  /**
   * A value no larger than any element of `s` at a position in `[lo, hi)`,
   * and equal to one of them unless it is +oo, is the minimum of that window.
   */
  lemma MinWindowUnique(s: seq<Val>, lo: int, hi: int, v: Val)
    requires forall t :: 0 <= t < |s| && lo <= t < hi ==> Le(v, s[t])
    requires v == Inf || exists t :: 0 <= t < |s| && lo <= t < hi && v == s[t]
    ensures v == MinAll(Window(s, lo, hi))
  {
    var w, a := Window(s, lo, hi), Clamp(lo, |s|);
    MinAllIsMinimum(w);
    var m := MinAll(w);
    if v != Inf {
      var t :| 0 <= t < |s| && lo <= t < hi && v == s[t];
      assert w[t - a] == v;
    }
    if |w| > 0 {
      var i :| 0 <= i < |w| && w[i] == m;
      assert m == s[a + i];
    }
  }

  /** The window of one position is that element, or nothing outside the sequence. */
  lemma WindowSingle(s: seq<Val>, k: int)
    ensures MinAll(Window(s, k, k + 1)) == if 0 <= k < |s| then s[k] else Inf
  {
    if 0 <= k < |s| {
      assert Window(s, k, k + 1) == [s[k]];
      assert [s[k]][..0] == [];
    }
  }
}
