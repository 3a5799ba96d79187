/**
 * The dynamic convex hull trick container of
 * data-structure/cht/dynamic_convex_hull_trick.cpp: an ordered multiset of
 * lines, repaired in place on every `add`, answering minimum queries.
 *
 * The source stores every line `a*x + b` negated, as `-a*x - b`, keeps the
 * upper envelope of the stored lines and negates the answer back. The model
 * keeps the stored (negated) lines in `lines`, ordered as the multiset orders
 * them, and the caller's lines in the ghost sequence `added`.
 */
module ConvexHullTrick {
  import opened LineGeometry

  /** A line `a*x + b` as the caller passes it to `add`. */
  datatype Pair = Pair(a: int, b: int)

  function Value(f: Pair, x: int): int {
    f.a * x + f.b
  }

  /** The caller's line that a stored (negated) line stands for. */
  function Original(l: Line): Pair {
    Pair(-l.a, -l.b)
  }

  /** Brute-force minimum of the caller's lines at `x`. */
  function MinValue(fs: seq<Pair>, x: int): (r: int)
    requires |fs| > 0
    ensures forall i :: 0 <= i < |fs| ==> r <= Value(fs[i], x)
    ensures exists i :: 0 <= i < |fs| && r == Value(fs[i], x)
  {
    if |fs| == 1 then Value(fs[0], x)
    else
      var rest := MinValue(fs[1..], x);
      assert forall i :: 1 <= i < |fs| ==> fs[i] == fs[1..][i - 1];
      if Value(fs[0], x) <= rest then Value(fs[0], x) else rest
  }

  /** Largest stored line at `x`. */
  function MaxEval(s: seq<Line>, x: int): (r: int)
    requires |s| > 0
    ensures forall i :: 0 <= i < |s| ==> Eval(s[i], x) <= r
    ensures exists i :: 0 <= i < |s| && r == Eval(s[i], x)
  {
    if |s| == 1 then Eval(s[0], x)
    else
      var rest := MaxEval(s[1..], x);
      assert forall i :: 1 <= i < |s| ==> s[i] == s[1..][i - 1];
      if Eval(s[0], x) >= rest then Eval(s[0], x) else rest
  }

  /** The threshold `update` gives the line at index `i`: against its successor, or +oo for the last line. */
  function Threshold(s: seq<Line>, i: nat): Ext
    requires i < |s|
  {
    if i + 1 == |s| then PosInf else Isect(s[i], s[i + 1])
  }

  /** Ordered by stored slope, as the multiset's `operator<` orders lines. */
  ghost predicate Sorted(s: seq<Line>) {
    forall i, j :: 0 <= i < j < |s| ==> s[i].a <= s[j].a
  }

  /** From index `lo` on, every threshold is the one `update` computes from the line's current successor. */
  ghost predicate ExactFrom(s: seq<Line>, lo: nat) {
    forall i {:trigger Threshold(s, i)} :: lo <= i < |s| ==> s[i].p == Threshold(s, i)
  }

  /** From index `lo` on, thresholds strictly increase along the container. */
  ghost predicate IncreasingFrom(s: seq<Line>, lo: nat) {
    forall i, j :: lo <= i < j < |s| ==> Lt(s[i].p, s[j].p)
  }

  /** The state every `add` leaves behind: sorted, thresholds exact and strictly increasing. */
  ghost predicate Hull(s: seq<Line>) {
    Sorted(s) && ExactFrom(s, 0) && IncreasingFrom(s, 0)
  }

  /** The (slope, intercept) pairs of the stored lines, thresholds dropped. */
  function Keys(s: seq<Line>): (k: seq<Pair>)
    ensures |k| == |s|
  {
    seq(|s|, i requires 0 <= i < |s| => Pair(s[i].a, s[i].b))
  }

  /** Index at which `std::multiset::insert` places a line of slope `a`: after every line of slope `<= a`. */
  function InsertPos(s: seq<Line>, a: int): (i: nat)
    requires Sorted(s)
    ensures i <= |s|
    ensures forall k :: 0 <= k < i ==> s[k].a <= a
    ensures forall k :: i <= k < |s| ==> s[k].a > a
  {
    if |s| == 0 || s[|s| - 1].a <= a then |s|
    else InsertPos(s[..|s| - 1], a)
  }

  /** Index `lines.lower_bound(x)` finds: the first line whose threshold is not below `x`. */
  function FirstAtLeast(s: seq<Line>, x: int): (i: nat)
    requires |s| > 0 && s[|s| - 1].p == PosInf
    ensures i < |s| && !Below(s[i].p, x)
    ensures forall k :: 0 <= k < i ==> Below(s[k].p, x)
  {
    if !Below(s[0].p, x) then 0
    else 1 + FirstAtLeast(s[1..], x)
  }

  /** Facts `Hull` gives about the adjacent pair at `k`. */
  lemma AdjacentPair(s: seq<Line>, k: nat)
    requires Hull(s) && k + 1 < |s|
    ensures s[k].a <= s[k + 1].a && s[k].p == Isect(s[k], s[k + 1])
  {
    assert s[k].p == Threshold(s, k);
  }

  /** Of two adjacent stored lines, the left one is no lower at `x` when its threshold is not below `x`, the right one otherwise. */
  lemma AdjacentOrder(s: seq<Line>, x: int, k: nat)
    requires Hull(s) && k + 1 < |s|
    ensures !Below(s[k].p, x) ==> Eval(s[k + 1], x) <= Eval(s[k], x)
    ensures Below(s[k].p, x) ==> Eval(s[k], x) <= Eval(s[k + 1], x)
  {
    AdjacentPair(s, k);
    SidesOfThreshold(s[k], s[k + 1], x);
  }

  lemma NotBelowPropagates(s: seq<Line>, x: int, i: nat, k: nat)
    requires Hull(s) && i <= k < |s| && !Below(s[i].p, x)
    ensures !Below(s[k].p, x)
  {
    if k > i { assert Lt(s[i].p, s[k].p); }
  }

  /** The stored lines' values at `x`. */
  function ValuesAt(s: seq<Line>, x: int): (v: seq<int>)
    ensures |v| == |s| && forall k :: 0 <= k < |s| ==> v[k] == Eval(s[k], x)
  {
    seq(|s|, k requires 0 <= k < |s| => Eval(s[k], x))
  }

  lemma {:induction false} ChainDown(v: seq<int>, i: nat, j: nat)
    requires i <= j < |v|
    requires forall k :: i <= k < j ==> v[k + 1] <= v[k]
    ensures v[j] <= v[i]
    decreases j - i
  {
    if i < j { ChainDown(v, i + 1, j); }
  }

  lemma {:induction false} ChainUp(v: seq<int>, j: nat, i: nat)
    requires j <= i < |v|
    requires forall k :: j <= k < i ==> v[k] <= v[k + 1]
    ensures v[j] <= v[i]
    decreases i - j
  {
    if j < i { ChainUp(v, j + 1, i); }
  }

  /** The line the query selects is the highest stored line at `x`. */
  lemma QueryLineIsHighest(s: seq<Line>, x: int, i: nat)
    requires Hull(s) && i < |s| && !Below(s[i].p, x)
    requires forall k :: 0 <= k < i ==> Below(s[k].p, x)
    ensures forall j :: 0 <= j < |s| ==> Eval(s[j], x) <= Eval(s[i], x)
  {
    var v := ValuesAt(s, x);
    forall k | 0 <= k < |s| - 1 ensures (k < i ==> v[k] <= v[k + 1]) && (i <= k ==> v[k + 1] <= v[k]) {
      AdjacentOrder(s, x, k);
      if i <= k { NotBelowPropagates(s, x, i, k); }
    }
    forall j | 0 <= j < |s| ensures v[j] <= v[i] {
      if j < i { ChainUp(v, j, i); } else { ChainDown(v, i, j); }
    }
  }

  /** The line the query selects has the largest stored value at `x`. */
  lemma QuerySelectsMaximum(s: seq<Line>, x: int)
    requires Hull(s) && |s| > 0
    ensures s[|s| - 1].p == PosInf
    ensures Eval(s[FirstAtLeast(s, x)], x) == MaxEval(s, x)
  {
    assert s[|s| - 1].p == Threshold(s, |s| - 1);
    QueryLineIsHighest(s, x, FirstAtLeast(s, x));
  }

  function Erase(s: seq<Line>, k: nat): (r: seq<Line>)
    requires k < |s|
    ensures |r| == |s| - 1
    ensures forall i :: 0 <= i < k ==> r[i] == s[i]
    ensures forall i :: k <= i < |r| ==> r[i] == s[i + 1]
  {
    s[..k] + s[k + 1..]
  }

  /** Every caller's line lies on or below the stored envelope, once negated. */
  ghost predicate Envelope(s: seq<Line>, added: seq<Pair>) {
    |s| > 0 ==> forall f, t :: f in added ==> -Value(f, t) <= MaxEval(s, t)
  }

  /** Every stored line is (the negation of) a line the caller added, and the container is empty only before the first `add`. */
  ghost predicate Stored(s: seq<Line>, added: seq<Pair>) {
    && (forall i :: 0 <= i < |s| ==> Original(s[i]) in added)
    && (|s| == 0 <==> |added| == 0)
  }

  /**
   * Erasing a line that is nowhere above both neighbours (the test `update`
   * answers for the pair of its left neighbour and itself) does not lower the
   * stored envelope anywhere.
   */
  lemma EraseDominated(s: seq<Line>, k: nat)
    requires 0 < k < |s|
    requires s[k - 1].a <= s[k].a && (k + 1 < |s| ==> s[k].a <= s[k + 1].a)
    requires Le(Threshold(s, k), Isect(s[k - 1], s[k]))
    ensures forall t :: MaxEval(Erase(s, k), t) >= MaxEval(s, t)
  {
    forall t ensures MaxEval(Erase(s, k), t) >= MaxEval(s, t) {
      var i :| 0 <= i < |s| && MaxEval(s, t) == Eval(s[i], t);
      if i == k {
        if k + 1 < |s| {
          MiddleDominated(s[k - 1], s[k], s[k + 1], t);
        } else {
          LastDominated(s[k - 1], s[k], t);
        }
      }
      EraseKeepsMaximum(s, k, i, t);
    }
  }

  /** The maximum survives erasing index `k` when the maximal line is not `k`, or `k` is matched by a neighbour. */
  lemma EraseKeepsMaximum(s: seq<Line>, k: nat, i: nat, t: int)
    requires 0 < k < |s| && i < |s| && MaxEval(s, t) == Eval(s[i], t)
    requires i == k ==> Eval(s[k], t) <= Eval(s[k - 1], t) || (k + 1 < |s| && Eval(s[k], t) <= Eval(s[k + 1], t))
    ensures MaxEval(Erase(s, k), t) >= MaxEval(s, t)
  {
    var e := Erase(s, k);
    var m := MaxEval(e, t);
    if i < k {
      assert Eval(e[i], t) <= m;
    } else if i > k {
      assert Eval(e[i - 1], t) <= m;
    } else {
      assert Eval(e[k - 1], t) <= m;
      if k + 1 < |s| { assert Eval(e[k], t) <= m; }
    }
  }

  /** A line at index `k` lies on or below the envelope. */
  lemma UnderMax(u: seq<Line>, k: nat, t: int)
    requires k < |u|
    ensures Eval(u[k], t) <= MaxEval(u, t)
  {
  }

  /** Where each old line sits after inserting `m` at `i`. */
  lemma InsertIndex(s: seq<Line>, i: nat, m: Line, k: nat)
    requires i <= |s| && k < |s|
    ensures (s[..i] + [m] + s[i..])[i] == m
    ensures (s[..i] + [m] + s[i..])[if k < i then k else k + 1] == s[k]
  {
  }

  /** At one point `t`: inserting a line does not lower the envelope, and puts the new line under it. */
  lemma InsertRaisesAt(s: seq<Line>, i: nat, m: Line, t: int)
    requires i <= |s|
    ensures |s| > 0 ==> MaxEval(s[..i] + [m] + s[i..], t) >= MaxEval(s, t)
    ensures MaxEval(s[..i] + [m] + s[i..], t) >= Eval(m, t)
  {
    var u := s[..i] + [m] + s[i..];
    if |s| > 0 {
      var k :| 0 <= k < |s| && MaxEval(s, t) == Eval(s[k], t);
      InsertIndex(s, i, m, k);
      UnderMax(u, if k < i then k else k + 1, t);
    } else {
      assert u == [m];
    }
    UnderMax(u, i, t);
  }

  /** Inserting a line does not lower the envelope, and puts the new line under it. */
  lemma InsertRaises(s: seq<Line>, i: nat, m: Line)
    requires i <= |s|
    ensures forall t :: |s| > 0 ==> MaxEval(s[..i] + [m] + s[i..], t) >= MaxEval(s, t)
    ensures forall t :: MaxEval(s[..i] + [m] + s[i..], t) >= Eval(m, t)
  {
    forall t ensures (|s| > 0 ==> MaxEval(s[..i] + [m] + s[i..], t) >= MaxEval(s, t)) && MaxEval(s[..i] + [m] + s[i..], t) >= Eval(m, t) {
      InsertRaisesAt(s, i, m, t);
    }
  }

  lemma KeysSetThreshold(s: seq<Line>, k: nat, q: Ext)
    requires k < |s|
    ensures Keys(s[k := s[k].(p := q)]) == Keys(s)
  {
  }

  /** Erasing a stored line drops exactly its key. */
  lemma KeysErase(s: seq<Line>, k: nat)
    requires k < |s|
    ensures Keys(Erase(s, k)) == Keys(s)[..k] + Keys(s)[k + 1..]
  {
    var r := Keys(Erase(s, k));
    var t := Keys(s)[..k] + Keys(s)[k + 1..];
    assert |r| == |t|;
    forall i | 0 <= i < |r| ensures r[i] == t[i] {
      if i < k { assert t[i] == Keys(s)[i]; } else { assert t[i] == Keys(s)[i + 1]; }
    }
  }

  /** Inserting a stored line inserts exactly its key. */
  lemma KeysInsert(s: seq<Line>, i: nat, l: Line)
    requires i <= |s|
    ensures Keys(s[..i] + [l] + s[i..]) == Keys(s)[..i] + [Pair(l.a, l.b)] + Keys(s)[i..]
  {
    var k := Keys(s);
    var r := Keys(s[..i] + [l] + s[i..]);
    forall g | 0 <= g < |r| ensures r[g] == (k[..i] + [Pair(l.a, l.b)] + k[i..])[g] {
      if g < i { assert (s[..i] + [l] + s[i..])[g] == s[g]; }
      else if g > i { assert (s[..i] + [l] + s[i..])[g] == s[g - 1]; }
    }
  }

  /**
   * The keys `add` keeps when the new line's left neighbour exists. `K0` are
   * the old keys, `K1` the keys after inserting `f` at `idx`, `K2` after the
   * rightward loop erased `j` lines, `K3` after the left check and `K4` after
   * the leftward loop erased `(k, idx - 1]`: the old keys less one run, with
   * `f` kept in its place or erased.
   */
  lemma AddRunsAfter(K0: seq<Pair>, f: Pair, idx: nat, K1: seq<Pair>, j: nat, K2: seq<Pair>, K3: seq<Pair>, k: nat, K4: seq<Pair>)
      returns (lo: nat, hi: nat)
    requires 0 < idx && idx + j <= |K0| && K1 == K0[..idx] + [f] + K0[idx..] && K2 == K1[..idx + 1] + K1[idx + 1 + j..]
    requires K3 == K2 || K3 == K0
    requires k < idx <= |K3| && K4 == K3[..k + 1] + K3[idx..]
    ensures lo <= hi <= |K0|
    ensures K4 == K0[..lo] + [f] + K0[hi..] || K4 == K0[..lo] + K0[hi..]
  {
    if K3 == K2 {
      lo, hi := k + 1, idx + j;
      assert K3[..k + 1] == K1[..k + 1] == K0[..k + 1];
      assert K3[idx..] == [f] + K0[idx + j..] by {
        assert K1[idx] == f && K1[idx + 1 + j..] == K0[idx + j..];
      }
    } else {
      lo, hi := k + 1, idx;
    }
  }

  /** The keys `add` keeps when the new line goes first: the leftward loop has nothing to its left. */
  lemma AddRunsFirst(K0: seq<Pair>, f: Pair, idx: nat, K1: seq<Pair>, j: nat, K2: seq<Pair>, k: nat, K4: seq<Pair>)
    requires idx == 0 && j <= |K0| && K1 == K0[..idx] + [f] + K0[idx..] && K2 == K1[..idx + 1] + K1[idx + 1 + j..]
    requires k == 0 && K4 == K2[..k + 1] + K2[idx + 1..]
    ensures K4 == K0[..0] + [f] + K0[j..]
  {
    assert K1[1 + j..] == K0[j..];
  }

  lemma OriginalValue(l: Line, x: int)
    ensures Value(Original(l), x) == -Eval(l, x)
  {
    assert (-l.a) * x == -(l.a * x);
  }

  /** With the envelope invariant, minus the highest stored value is the brute-force minimum. */
  lemma EnvelopeIsMinimum(s: seq<Line>, added: seq<Pair>, x: int)
    requires Stored(s, added) && Envelope(s, added) && |s| > 0
    ensures -MaxEval(s, x) == MinValue(added, x)
  {
    var hi := MaxEval(s, x);
    var lo := MinValue(added, x);
    var k :| 0 <= k < |s| && hi == Eval(s[k], x);
    var f := Original(s[k]);
    OriginalValue(s[k], x);
    assert f in added;
    var i :| 0 <= i < |added| && added[i] == f;
    assert lo <= -hi;
    var g :| 0 <= g < |added| && lo == Value(added[g], x);
    assert added[g] in added;
    assert -lo <= hi;
  }

  /** One more line lowers the brute-force minimum to the new line's value where that is lower, and nowhere else. */
  lemma MinValueAppend(fs: seq<Pair>, f: Pair, x: int)
    requires |fs| > 0
    ensures MinValue(fs + [f], x) == if Value(f, x) < MinValue(fs, x) then Value(f, x) else MinValue(fs, x)
  {
    var u := fs + [f];
    var lo := MinValue(fs, x);
    var k :| 0 <= k < |fs| && lo == Value(fs[k], x);
    assert u[k] == fs[k] && u[|fs|] == f;
    var g :| 0 <= g < |u| && MinValue(u, x) == Value(u[g], x);
    if g < |fs| { assert u[g] == fs[g]; }
  }

  /** The effect of `update(i, next(i))` on the container. */
  function SetThreshold(s: seq<Line>, i: nat): (r: seq<Line>)
    requires i < |s|
    ensures |r| == |s| && Keys(r) == Keys(s)
  {
    KeysSetThreshold(s, i, Threshold(s, i));
    s[i := s[i].(p := Threshold(s, i))]
  }

  lemma SortedErase(s: seq<Line>, k: nat)
    requires Sorted(s) && k < |s|
    ensures Sorted(Erase(s, k))
  {
  }

  /** Erasing index `k` and recomputing its left neighbour keeps thresholds exact from `lo` on. */
  lemma RepairKeepsExact(s: seq<Line>, lo: nat, k: nat)
    requires 0 < k < |s| && lo < k && ExactFrom(s, lo)
    ensures ExactFrom(SetThreshold(Erase(s, k), k - 1), lo)
  {
    var e := Erase(s, k);
    var r := SetThreshold(e, k - 1);
    forall i | lo <= i < |r| ensures r[i].p == Threshold(r, i) {
      if i < k - 1 {
        assert s[i].p == Threshold(s, i);
      } else if i >= k {
        assert s[i + 1].p == Threshold(s, i + 1);
      }
    }
  }

  /** A strict step at `lo` extends strict increase from `lo + 1` to `lo`. */
  lemma IncreasingExtend(s: seq<Line>, lo: nat)
    requires lo < |s| && IncreasingFrom(s, lo + 1)
    requires lo + 1 < |s| ==> Lt(s[lo].p, s[lo + 1].p)
    ensures IncreasingFrom(s, lo)
  {
    forall i, j | lo <= i < j < |s| ensures Lt(s[i].p, s[j].p) {
      if i == lo && j > lo + 1 {
        LtLeTrans(s[lo].p, s[lo + 1].p, s[j].p);
      }
    }
  }

  /** Changing thresholds changes no value, so neither the envelope nor the stored set. */
  lemma SetThresholdKeeps(s: seq<Line>, added: seq<Pair>, i: nat)
    requires i < |s| && Stored(s, added) && Envelope(s, added)
    ensures Stored(SetThreshold(s, i), added) && Envelope(SetThreshold(s, i), added)
  {
    var r := SetThreshold(s, i);
    forall k | 0 <= k < |s| ensures Original(r[k]) == Original(s[k]) {
    }
    forall t | |s| > 0 ensures MaxEval(r, t) == MaxEval(s, t) {
      var a :| 0 <= a < |s| && MaxEval(s, t) == Eval(s[a], t);
      var b :| 0 <= b < |r| && MaxEval(r, t) == Eval(r[b], t);
      assert Eval(r[a], t) == Eval(s[a], t) && Eval(r[b], t) == Eval(s[b], t);
    }
  }

  /** Erasing a dominated line keeps the stored set and the envelope invariants. */
  lemma EraseKeeps(s: seq<Line>, added: seq<Pair>, k: nat)
    requires 0 < k < |s| && Stored(s, added) && Envelope(s, added)
    requires s[k - 1].a <= s[k].a && (k + 1 < |s| ==> s[k].a <= s[k + 1].a)
    requires Le(Threshold(s, k), Isect(s[k - 1], s[k]))
    ensures Stored(Erase(s, k), added) && Envelope(Erase(s, k), added)
  {
    EraseDominated(s, k);
  }

  /**
   * The container during the rightward pruning loop: `s0` with the new line
   * `nl` inserted at `m` and the `j` lines after it erased; thresholds exact
   * from `m` on.
   */
  ghost predicate PrunedRight(s: seq<Line>, s0: seq<Line>, m: nat, j: nat, nl: Line) {
    && m + j <= |s0| && |s| == |s0| - j + 1
    && s[..m] == s0[..m] && s[m + 1..] == s0[m + j..]
    && s[m].a == nl.a && s[m].b == nl.b
    && Sorted(s) && ExactFrom(s, m)
  }

  /** `update` at `i` touches only index `i`, and only its threshold. */
  lemma SetThresholdFrame(s: seq<Line>, i: nat)
    requires i < |s|
    ensures var r := SetThreshold(s, i);
      && r[..i] == s[..i] && r[i + 1..] == s[i + 1..]
      && r[i].a == s[i].a && r[i].b == s[i].b
      && (Sorted(s) ==> Sorted(r))
      && (ExactFrom(s, i + 1) ==> ExactFrom(r, i))
  {
    var r := SetThreshold(s, i);
    assert r[..i] == s[..i] && r[i + 1..] == s[i + 1..];
    if ExactFrom(s, i + 1) {
      forall k | i <= k < |r| ensures r[k].p == Threshold(r, k) {
        if k > i { assert s[k].p == Threshold(s, k); }
      }
    }
  }

  /** Inserting a line before index `m` of a hull leaves the thresholds after it exact. */
  lemma ExactAfterInsert(s: seq<Line>, s0: seq<Line>, m: nat)
    requires Hull(s0) && m <= |s0|
    requires |s| == |s0| + 1 && s[m + 1..] == s0[m..]
    ensures ExactFrom(s, m + 1)
  {
    forall k | m + 1 <= k < |s| ensures s[k].p == Threshold(s, k) {
      assert s[k] == s0[k - 1];
      assert s0[k - 1].p == Threshold(s0, k - 1);
      if k + 1 < |s| { assert s[k + 1] == s0[k]; }
    }
  }

  lemma PruneStart(s: seq<Line>, s0: seq<Line>, m: nat)
    requires Hull(s0) && m <= |s0| && Sorted(s)
    requires |s| == |s0| + 1 && s[..m] == s0[..m] && s[m + 1..] == s0[m..]
    ensures PrunedRight(SetThreshold(s, m), s0, m, 0, s[m])
  {
    ExactAfterInsert(s, s0, m);
    SetThresholdFrame(s, m);
  }

  /** One round of the leftward loop at `m` drops key `m`, extending the erased run `(m, m0]` to `(m - 1, m0]`. */
  lemma CascadeKeys(K: seq<Pair>, L: seq<Pair>, m: nat, m0: nat)
    requires 0 < m <= m0 < |K| && L == K[..m + 1] + K[m0 + 1..]
    ensures L[..m] + L[m + 1..] == K[..m - 1 + 1] + K[m0 + 1..]
  {
    assert L[..m] == K[..m] && L[m + 1..] == K[m0 + 1..];
  }

  /** During the rightward loop the keys are those just after the insert, with the `j` successors of the new line dropped. */
  lemma PrunedKeys(s: seq<Line>, s0: seq<Line>, m: nat, j: nat, nl: Line, u: seq<Line>)
    requires PrunedRight(s, s0, m, j, nl)
    requires |u| == |s0| + 1 && u[..m] == s0[..m] && u[m] == nl && u[m + 1..] == s0[m..]
    ensures Keys(s) == Keys(u)[..m + 1] + Keys(u)[m + 1 + j..]
  {
    var t := Keys(u)[..m + 1] + Keys(u)[m + 1 + j..];
    forall i | 0 <= i < |s| ensures Keys(s)[i] == t[i] {
      if i < m {
        assert s[i] == s[..m][i] && u[i] == u[..m][i];
      } else if i > m {
        assert s[i] == s[m + 1..][i - m - 1] && u[i + j] == u[m + 1..][i + j - m - 1];
      }
    }
  }

  /** Erasing index `k` drops exactly that element. */
  lemma EraseFrame(s: seq<Line>, k: nat)
    requires k < |s|
    ensures Erase(s, k)[..k] == s[..k] && Erase(s, k)[k..] == s[k + 1..]
  {
  }

  /** The erased successor was dominated by its neighbours, as `EraseKeeps` needs. */
  lemma PruneStepDominated(s: seq<Line>, s0: seq<Line>, m: nat, j: nat, nl: Line)
    requires PrunedRight(s, s0, m, j, nl)
    requires m + 1 < |s| && Le(s[m + 1].p, s[m].p)
    ensures s[m].a <= s[m + 1].a && (m + 2 < |s| ==> s[m + 1].a <= s[m + 2].a)
    ensures Le(Threshold(s, m + 1), Isect(s[m], s[m + 1]))
  {
    assert s[m].p == Threshold(s, m) && s[m + 1].p == Threshold(s, m + 1);
  }

  /** A round of the rightward loop keeps the stored-set and envelope invariants. */
  lemma PruneStepKeeps(s: seq<Line>, s0: seq<Line>, m: nat, j: nat, nl: Line, added: seq<Pair>)
    requires PrunedRight(s, s0, m, j, nl) && Stored(s, added) && Envelope(s, added)
    requires m + 1 < |s| && Le(s[m + 1].p, s[m].p)
    ensures Stored(SetThreshold(Erase(s, m + 1), m), added) && Envelope(SetThreshold(Erase(s, m + 1), m), added)
  {
    PruneStepDominated(s, s0, m, j, nl);
    EraseKeeps(s, added, m + 1);
    SetThresholdKeeps(Erase(s, m + 1), added, m);
  }

  /**
   * What the rightward loop learns about the erased lines: the first and the
   * last one erased both had their old threshold at or before their crossing
   * with the new line `nl`.
   */
  ghost predicate ErasedBefore(s0: seq<Line>, m: nat, j: nat, nl: Line)
    requires m + j <= |s0|
  {
    j >= 1 ==> Le(s0[m].p, Isect(nl, s0[m])) && Le(s0[m + j - 1].p, Isect(nl, s0[m + j - 1]))
  }

  /** The erased successor's old threshold lies at or before its crossing with the new line. */
  lemma PruneStepThreshold(s: seq<Line>, s0: seq<Line>, m: nat, j: nat, nl: Line)
    requires PrunedRight(s, s0, m, j, nl) && ErasedBefore(s0, m, j, nl)
    requires m + 1 < |s| && Le(s[m + 1].p, s[m].p)
    ensures m + j + 1 <= |s0| && ErasedBefore(s0, m, j + 1, nl)
  {
    assert s[m + 1] == s0[m + j];
    assert s[m].p == Threshold(s, m) && s[m + 1].p == Threshold(s, m + 1);
  }

  /** After erasing the successor and recomputing the new line's threshold, the shape holds with one more line erased. */
  lemma PruneStepShape(s: seq<Line>, s0: seq<Line>, m: nat, j: nat, nl: Line)
    requires PrunedRight(s, s0, m, j, nl)
    requires m + 1 < |s|
    ensures PrunedRight(SetThreshold(Erase(s, m + 1), m), s0, m, j + 1, nl)
  {
    SortedErase(s, m + 1);
    RepairKeepsExact(s, m, m + 1);
    var e := Erase(s, m + 1);
    EraseFrame(s, m + 1);
    SetThresholdFrame(e, m);
    assert e[..m] == s[..m] by { assert e[..m] == e[..m + 1][..m]; assert s[..m] == s[..m + 1][..m]; }
    assert e[m + 1..] == s[m + 2..] by { assert e[m + 1..] == e[m..][1..]; }
    assert s[m + 2..] == s0[m + j + 1..] by { assert s[m + 2..] == s[m + 1..][1..]; }
  }

  /** The lines after the new one are a suffix of the old hull, so their thresholds still increase. */
  lemma PruneEndTail(s: seq<Line>, s0: seq<Line>, m: nat, j: nat, nl: Line)
    requires Hull(s0) && PrunedRight(s, s0, m, j, nl)
    ensures IncreasingFrom(s, m + 1)
  {
    forall i, k | m + 1 <= i < k < |s| ensures Lt(s[i].p, s[k].p) {
      assert s[i] == s0[i - 1 + j] && s[k] == s0[k - 1 + j];
    }
  }

  /** The new line's final threshold lies at or after that of the last erased line. */
  lemma PruneEndThreshold(s: seq<Line>, s0: seq<Line>, m: nat, j: nat, nl: Line)
    requires Hull(s0) && PrunedRight(s, s0, m, j, nl) && j >= 1
    requires forall k :: m <= k < |s0| ==> s0[k].a > nl.a
    requires Le(s0[m + j - 1].p, Isect(nl, s0[m + j - 1]))
    ensures Le(s0[m + j - 1].p, s[m].p)
  {
    assert s[m].p == Threshold(s, m);
    if m + j < |s0| {
      assert s[m + 1] == s0[m + j];
      assert s0[m + j - 1].p == Threshold(s0, m + j - 1);
      OuterBetween(nl, s0[m + j - 1], s0[m + j]);
    }
  }

  lemma PruneEnd(s: seq<Line>, s0: seq<Line>, m: nat, j: nat, nl: Line)
    requires Hull(s0) && PrunedRight(s, s0, m, j, nl)
    requires forall k :: m <= k < |s0| ==> s0[k].a > nl.a
    requires !(m + 1 < |s| && Le(s[m + 1].p, s[m].p))
    requires ErasedBefore(s0, m, j, nl)
    ensures IncreasingFrom(s, m)
    ensures j >= 1 ==> Le(s0[m + j - 1].p, s[m].p)
  {
    if j >= 1 {
      PruneEndThreshold(s, s0, m, j, nl);
    }
    PruneEndTail(s, s0, m, j, nl);
    IncreasingExtend(s, m);
  }

  /** The container right after `lines.insert`: `nl` placed at `idx`, the rest unchanged. */
  lemma InsertFrame(s0: seq<Line>, idx: nat, nl: Line)
    requires idx <= |s0|
    ensures var u := s0[..idx] + [nl] + s0[idx..];
      && |u| == |s0| + 1 && u[idx] == nl && u[..idx] == s0[..idx] && u[idx + 1..] == s0[idx..]
  {
    var u := s0[..idx] + [nl] + s0[idx..];
    assert u[..idx] == s0[..idx];
    assert u[idx + 1..] == s0[idx..];
  }

  lemma InsertSorted(s0: seq<Line>, idx: nat, nl: Line)
    requires Sorted(s0) && idx <= |s0|
    requires forall k :: 0 <= k < idx ==> s0[k].a <= nl.a
    requires forall k :: idx <= k < |s0| ==> s0[k].a > nl.a
    ensures Sorted(s0[..idx] + [nl] + s0[idx..])
  {
    var u := s0[..idx] + [nl] + s0[idx..];
    forall i, k | 0 <= i < k < |u| ensures u[i].a <= u[k].a {
      if k < idx {
        assert u[i] == s0[i] && u[k] == s0[k];
      } else if k == idx {
        assert u[i] == s0[i];
      } else if i < idx {
        assert u[i] == s0[i] && u[k] == s0[k - 1];
      } else if i == idx {
        assert u[k] == s0[k - 1];
      } else {
        assert u[i] == s0[i - 1] && u[k] == s0[k - 1];
      }
    }
  }

  /** Inserting the negation of the caller's line keeps both the stored-set and the envelope invariants for the extended history. */
  lemma InsertKeeps(s0: seq<Line>, added: seq<Pair>, idx: nat, nl: Line)
    requires Stored(s0, added) && Envelope(s0, added) && idx <= |s0|
    ensures var u := s0[..idx] + [nl] + s0[idx..];
      Stored(u, added + [Original(nl)]) && Envelope(u, added + [Original(nl)])
  {
    var u := s0[..idx] + [nl] + s0[idx..];
    var added' := added + [Original(nl)];
    InsertRaises(s0, idx, nl);
    forall i | 0 <= i < |u| ensures Original(u[i]) in added' {
      if i < idx {
        assert u[i] == s0[i];
      } else if i > idx {
        assert u[i] == s0[i - 1];
      }
    }
    forall f, t | f in added' ensures -Value(f, t) <= MaxEval(u, t) {
      if f in added {
        assert |s0| > 0;
      } else {
        OriginalValue(nl, t);
      }
    }
  }

  /**
   * The left check of `add` (line 27) never finds the new line dominated
   * once the rightward loop has erased something: its crossing with the left
   * neighbour then lies strictly before its own threshold `pM`.
   */
  lemma NoLeftEraseAfterPrune(s0: seq<Line>, idx: nat, j: nat, nl: Line, pM: Ext)
    requires Hull(s0) && 0 < idx && 1 <= j && idx + j <= |s0|
    requires s0[idx - 1].a <= nl.a && s0[idx].a > nl.a
    requires Le(s0[idx].p, Isect(nl, s0[idx])) && Le(s0[idx + j - 1].p, pM)
    ensures Lt(Isect(s0[idx - 1], nl), pM)
  {
    var l, b0 := s0[idx - 1], s0[idx];
    assert l.p == Threshold(s0, idx - 1);
    assert Lt(l.p, b0.p);
    if j > 1 { assert Lt(b0.p, s0[idx + j - 1].p); }
    OuterBetween(l, nl, b0);
  }

  /** When the left check keeps the new line, the left neighbour's old threshold lies at or before the new line's threshold. */
  lemma LeftKeptBound(w: seq<Line>, s0: seq<Line>, idx: nat, j: nat, nl: Line)
    requires Hull(s0) && 0 < idx && PrunedRight(w, s0, idx, j, nl)
    requires s0[idx - 1].a <= nl.a && (idx < |s0| ==> s0[idx].a > nl.a)
    requires j >= 1 ==> Le(s0[idx + j - 1].p, w[idx].p)
    requires Lt(Isect(s0[idx - 1], nl), w[idx].p)
    ensures Le(s0[idx - 1].p, w[idx].p)
  {
    var l := s0[idx - 1];
    assert l.p == Threshold(s0, idx - 1);
    assert w[idx].p == Threshold(w, idx);
    if j >= 1 {
      assert Lt(l.p, s0[idx + j - 1].p);
    } else if idx < |s0| {
      assert w[idx + 1] == s0[idx];
      OuterBetween(l, nl, s0[idx]);
    }
  }

  /** Thresholds exact from `n` on, and a prefix copied from a hull, give thresholds exact everywhere. */
  lemma ExactPrefix(u: seq<Line>, s0: seq<Line>, n: nat)
    requires Hull(s0) && n < |u| && n < |s0| && u[..n] == s0[..n] && ExactFrom(u, n)
    requires u[n].a == s0[n].a && u[n].b == s0[n].b
    ensures ExactFrom(u, 0)
  {
    forall i | 0 <= i < n ensures u[i].p == Threshold(u, i) {
      assert u[i] == s0[i];
      assert s0[i].p == Threshold(s0, i);
      if i + 1 < n { assert u[i + 1] == s0[i + 1]; }
    }
  }

  /**
   * The state of the leftward loop of `add` (lines 31-35) at index `m`: sorted
   * with exact thresholds, increasing from `m`; left of `m` the old hull `s0`
   * is untouched, and `pL` separates the old threshold at `m` from the one after it.
   */
  ghost predicate CascadeInv(s: seq<Line>, s0: seq<Line>, m: nat, pL: Ext) {
    && m < |s| && Sorted(s) && ExactFrom(s, 0) && IncreasingFrom(s, m)
    && (m > 0 ==>
          && m < |s0| && s[..m] == s0[..m] && s[m].a == s0[m].a && s[m].b == s0[m].b
          && Le(s0[m].p, pL) && (m + 1 < |s| ==> Le(pL, s[m + 1].p)))
  }

  /** Recomputing threshold `i` keeps strict increase from `i` on when the new value lies before the next threshold. */
  lemma SetThresholdIncreasing(w: seq<Line>, i: nat)
    requires i < |w| && IncreasingFrom(w, i + 1)
    requires i + 1 < |w| ==> Lt(Threshold(w, i), w[i + 1].p)
    ensures IncreasingFrom(SetThreshold(w, i), i)
  {
    var u := SetThreshold(w, i);
    assert IncreasingFrom(u, i + 1) by {
      forall k, l | i + 1 <= k < l < |u| ensures Lt(u[k].p, u[l].p) {
        assert u[k] == w[k] && u[l] == w[l];
      }
    }
    IncreasingExtend(u, i);
  }

  /** When the left check keeps the new line, the leftward loop starts in its invariant. */
  lemma LeftKept(w: seq<Line>, s0: seq<Line>, idx: nat, j: nat, nl: Line)
    requires Hull(s0) && 0 < idx && PrunedRight(w, s0, idx, j, nl) && IncreasingFrom(w, idx)
    requires s0[idx - 1].a <= nl.a && (idx < |s0| ==> s0[idx].a > nl.a)
    requires j >= 1 ==> Le(s0[idx + j - 1].p, w[idx].p)
    requires !Le(w[idx].p, Isect(w[idx - 1], w[idx]))
    ensures CascadeInv(SetThreshold(w, idx - 1), s0, idx - 1, s0[idx - 1].p)
  {
    var u := SetThreshold(w, idx - 1);
    assert Isect(w[idx - 1], w[idx]) == Isect(s0[idx - 1], nl) by {
      assert w[idx - 1] == s0[idx - 1];
    }
    LeftKeptBound(w, s0, idx, j, nl);
    SetThresholdFrame(w, idx - 1);
    assert u[..idx - 1] == s0[..idx - 1] by {
      assert u[..idx - 1] == w[..idx][..idx - 1];
      assert s0[..idx - 1] == s0[..idx][..idx - 1];
    }
    assert w[idx - 1] == s0[idx - 1];
    ExactPrefix(u, s0, idx - 1);
    SetThresholdIncreasing(w, idx - 1);
  }

  /** When the left check finds the new line dominated, the rightward loop erased nothing. */
  lemma LeftErasedNoPrune(w: seq<Line>, s0: seq<Line>, idx: nat, j: nat, nl: Line)
    requires Hull(s0) && 0 < idx < |w| && idx + j <= |s0|
    requires w[idx - 1] == s0[idx - 1] && w[idx].a == nl.a && w[idx].b == nl.b
    requires s0[idx - 1].a <= nl.a && (idx < |s0| ==> s0[idx].a > nl.a)
    requires j >= 1 ==> Le(s0[idx].p, Isect(nl, s0[idx])) && Le(s0[idx + j - 1].p, w[idx].p)
    requires Le(w[idx].p, Isect(w[idx - 1], w[idx]))
    ensures j == 0
  {
    IsectSameKeys(w[idx - 1], w[idx], s0[idx - 1], nl);
    if j >= 1 {
      NoLeftEraseAfterPrune(s0, idx, j, nl, w[idx].p);
      assert false;
    }
  }

  /** The new line is dominated by its neighbours, as `EraseKeeps` needs. */
  lemma LeftErasedDominated(w: seq<Line>, s0: seq<Line>, idx: nat, nl: Line)
    requires 0 < idx && PrunedRight(w, s0, idx, 0, nl)
    requires Le(w[idx].p, Isect(w[idx - 1], w[idx]))
    ensures var u := SetThreshold(w, idx - 1);
      && u[idx - 1].a <= u[idx].a && (idx + 1 < |u| ==> u[idx].a <= u[idx + 1].a)
      && Le(Threshold(u, idx), Isect(u[idx - 1], u[idx]))
  {
    SetThresholdFrame(w, idx - 1);
    assert w[idx].p == Threshold(w, idx);
  }

  /** Recomputing the one threshold that differs from a hull restores the hull. */
  lemma RepairRestores(e: seq<Line>, s0: seq<Line>, i: nat)
    requires Hull(s0) && |e| == |s0| && i < |e|
    requires e[..i] == s0[..i] && e[i].a == s0[i].a && e[i].b == s0[i].b && e[i + 1..] == s0[i + 1..]
    ensures SetThreshold(e, i) == s0
  {
    var r := SetThreshold(e, i);
    forall k | 0 <= k < |s0| ensures r[k] == s0[k] {
      if k < i {
        assert e[..i][k] == s0[..i][k];
      } else if k == i {
        assert s0[i].p == Threshold(s0, i);
        if i + 1 < |s0| { assert e[i + 1..][0] == s0[i + 1..][0]; }
      } else {
        assert e[i + 1..][k - i - 1] == s0[i + 1..][k - i - 1];
      }
    }
  }

  /** Erasing the new line again and recomputing its left neighbour restores the old hull exactly. */
  lemma LeftErasedRestores(w: seq<Line>, s0: seq<Line>, idx: nat, nl: Line)
    requires Hull(s0) && 0 < idx && PrunedRight(w, s0, idx, 0, nl)
    ensures SetThreshold(Erase(SetThreshold(w, idx - 1), idx), idx - 1) == s0
  {
    var u := SetThreshold(w, idx - 1);
    SetThresholdFrame(w, idx - 1);
    var e := Erase(u, idx);
    EraseFrame(u, idx);
    assert e[..idx - 1] == s0[..idx - 1] by {
      assert e[..idx - 1] == u[..idx][..idx - 1] == w[..idx][..idx - 1];
      assert s0[..idx - 1] == s0[..idx][..idx - 1];
    }
    assert e[idx - 1].a == s0[idx - 1].a && e[idx - 1].b == s0[idx - 1].b by {
      assert e[idx - 1] == u[idx - 1];
      assert w[..idx][idx - 1] == s0[..idx][idx - 1];
    }
    assert e[idx..] == s0[idx..] by {
      assert e[idx..] == u[idx + 1..] == w[idx + 1..];
    }
    RepairRestores(e, s0, idx - 1);
  }

  /** The old hull itself satisfies the leftward loop's invariant at any index. */
  lemma HullCascadeInv(s0: seq<Line>, m: nat)
    requires Hull(s0) && m < |s0|
    ensures CascadeInv(s0, s0, m, s0[m].p)
  {
    if m + 1 < |s0| { assert Lt(s0[m].p, s0[m + 1].p); }
  }

  /** A round of the leftward loop erases a line dominated by its neighbours. */
  lemma CascadeStepDominated(s: seq<Line>, s0: seq<Line>, m: nat, pL: Ext)
    requires CascadeInv(s, s0, m, pL) && 0 < m && Le(s[m].p, s[m - 1].p)
    ensures s[m - 1].a <= s[m].a && (m + 1 < |s| ==> s[m].a <= s[m + 1].a)
    ensures Le(Threshold(s, m), Isect(s[m - 1], s[m]))
  {
    assert s[m - 1].p == Threshold(s, m - 1) && s[m].p == Threshold(s, m);
  }

  /** After the round, the recomputed threshold at `m - 1` lies strictly before the next one. */
  lemma CascadeStepIncrease(s: seq<Line>, s0: seq<Line>, m: nat, pL: Ext)
    requires Hull(s0) && CascadeInv(s, s0, m, pL) && 0 < m && m + 1 < |s| && Le(s[m].p, s[m - 1].p)
    ensures Lt(Isect(s[m - 1], s[m + 1]), s[m + 1].p)
  {
    var x, y, z := s[m - 1], s[m], s[m + 1];
    assert x == s0[m - 1] by { assert s[..m][m - 1] == s0[..m][m - 1]; }
    assert x.p == Threshold(s, m - 1) && y.p == Threshold(s, m);
    assert s0[m - 1].p == Threshold(s0, m - 1);
    assert Lt(s0[m - 1].p, s0[m].p);
    OuterBetween(x, y, z);
    LtLeTrans(Isect(x, y), s0[m].p, pL);
    LeLtTrans(Isect(x, z), Isect(x, y), pL);
    LtLeTrans(Isect(x, z), pL, z.p);
  }

  /** One round of the leftward loop keeps its invariant at `m - 1`. */
  lemma CascadeStep(s: seq<Line>, s0: seq<Line>, m: nat, pL: Ext)
    requires Hull(s0) && CascadeInv(s, s0, m, pL) && 0 < m && Le(s[m].p, s[m - 1].p)
    ensures CascadeInv(SetThreshold(Erase(s, m), m - 1), s0, m - 1, pL)
  {
    var e := Erase(s, m);
    var r := SetThreshold(e, m - 1);
    SortedErase(s, m);
    RepairKeepsExact(s, 0, m);
    EraseFrame(s, m);
    SetThresholdFrame(e, m - 1);
    assert IncreasingFrom(r, m) by {
      forall i, k | m <= i < k < |r| ensures Lt(r[i].p, r[k].p) {
        assert r[i] == s[i + 1] && r[k] == s[k + 1];
      }
    }
    if m + 1 < |s| {
      CascadeStepIncrease(s, s0, m, pL);
      assert r[m - 1].p == Isect(s[m - 1], s[m + 1]) && r[m] == s[m + 1];
    }
    IncreasingExtend(r, m - 1);
    if m - 1 > 0 {
      assert r[..m - 1] == s0[..m - 1] by {
        assert r[..m - 1] == s[..m][..m - 1];
        assert s0[..m - 1] == s0[..m][..m - 1];
      }
      assert r[m - 1].a == s0[m - 1].a && r[m - 1].b == s0[m - 1].b by {
        assert s[..m][m - 1] == s0[..m][m - 1];
      }
      assert s0[m - 1].p == Threshold(s0, m - 1);
      assert Lt(s0[m - 1].p, s0[m].p);
      if m < |r| { assert r[m] == s[m + 1]; }
    }
  }

  /** At the stopping point, a threshold left of `m` lies strictly before any at or after `m`. */
  lemma CascadeEndAcross(s: seq<Line>, s0: seq<Line>, m: nat, pL: Ext, i: nat, k: nat)
    requires Hull(s0) && CascadeInv(s, s0, m, pL) && 0 < m && !Le(s[m].p, s[m - 1].p)
    requires i < m <= k < |s|
    ensures Lt(s[i].p, s[k].p)
  {
    assert s[i] == s0[i] && s[m - 1] == s0[m - 1] by {
      assert s[..m][i] == s0[..m][i] && s[..m][m - 1] == s0[..m][m - 1];
    }
    var pm := s[m].p;
    if i < m - 1 {
      assert Lt(s0[i].p, s0[m - 1].p);
      LtTrans(s[i].p, s[m - 1].p, pm);
    }
    if k > m {
      assert Lt(pm, s[k].p);
      LtTrans(s[i].p, pm, s[k].p);
    }
  }

  /** When the leftward loop stops, the container is a hull again. */
  lemma CascadeEnd(s: seq<Line>, s0: seq<Line>, m: nat, pL: Ext)
    requires Hull(s0) && CascadeInv(s, s0, m, pL) && !(m > 0 && Le(s[m].p, s[m - 1].p))
    ensures Hull(s)
  {
    forall i, k | 0 <= i < k < |s| ensures Lt(s[i].p, s[k].p) {
      if k < m {
        assert s[i] == s0[i] && s[k] == s0[k] by {
          assert s[..m][i] == s0[..m][i] && s[..m][k] == s0[..m][k];
        }
      } else if i < m {
        CascadeEndAcross(s, s0, m, pL, i, k);
      }
    }
  }

  class LineContainer {
    /** The stored (negated) lines in the multiset's order. */
    var lines: seq<Line>
    /** Every line passed to `add`, as the caller passed it. */
    ghost var added: seq<Pair>

    ghost predicate Valid()
      reads this
    {
      Hull(lines) && Stored(lines, added) && Envelope(lines, added)
    }

    constructor ()
      ensures Valid() && lines == [] && added == []
    {
      lines := [];
      added := [];
    }

    /**
     * `update(i, next(i))`: recompute the threshold of line `i` against its
     * successor and report whether that successor is dominated.
     */
    method Update(i: nat) returns (dominated: bool)
      requires i < |lines|
      modifies this
      ensures added == old(added)
      ensures lines == SetThreshold(old(lines), i)
      ensures dominated == (i + 1 < |lines| && Le(lines[i + 1].p, lines[i].p))
    {
      var q: Ext;
      if i + 1 == |lines| {
        q := PosInf;
      } else if lines[i].a == lines[i + 1].a {
        q := if lines[i].b > lines[i + 1].b then PosInf else NegInf;
      } else {
        q := Fin((lines[i + 1].b - lines[i].b) as real / (lines[i].a - lines[i + 1].a) as real);
      }
      lines := lines[i := lines[i].(p := q)];
      dominated := i + 1 < |lines| && Le(lines[i + 1].p, lines[i].p);
    }
  
    /**
     * One round of the rightward loop of `add` (lines 24-25): the successor of
     * the new line at `m` is erased and the new line's threshold recomputed
     * against its next successor.
     */
    method EraseNext(m: nat, ghost s0: seq<Line>, ghost j: nat, ghost nl: Line) returns (dominated: bool)
      requires PrunedRight(lines, s0, m, j, nl) && ErasedBefore(s0, m, j, nl)
      requires Stored(lines, added) && Envelope(lines, added)
      requires m + 1 < |lines| && Le(lines[m + 1].p, lines[m].p)
      modifies this
      ensures added == old(added) && |lines| == |old(lines)| - 1
      ensures PrunedRight(lines, s0, m, j + 1, nl) && ErasedBefore(s0, m, j + 1, nl)
      ensures Stored(lines, added) && Envelope(lines, added)
      ensures dominated == (m + 1 < |lines| && Le(lines[m + 1].p, lines[m].p))
    {
      PruneStepKeeps(lines, s0, m, j, nl, added);
      PruneStepThreshold(lines, s0, m, j, nl);
      PruneStepShape(lines, s0, m, j, nl);
      lines := Erase(lines, m + 1);
      dominated := Update(m);
    }

    /**
     * The rightward pruning loop of `add` (lines 24-26): `m` is the freshly
     * inserted line; its successors are erased while `update` reports them
     * dominated. `j` counts the erased lines.
     */
    method PruneRight(m: nat, ghost s0: seq<Line>, ghost nl: Line) returns (ghost j: nat)
      requires Hull(s0) && m <= |s0|
      requires |lines| == |s0| + 1 && lines[..m] == s0[..m] && lines[m] == nl && lines[m + 1..] == s0[m..]
      requires forall k :: m <= k < |s0| ==> s0[k].a > nl.a
      requires Sorted(lines) && Stored(lines, added) && Envelope(lines, added)
      modifies this
      ensures added == old(added)
      ensures PrunedRight(lines, s0, m, j, nl)
      ensures IncreasingFrom(lines, m)
      ensures j >= 1 ==> Le(s0[m].p, Isect(nl, s0[m]))
      ensures j >= 1 ==> Le(s0[m + j - 1].p, lines[m].p)
      ensures Stored(lines, added) && Envelope(lines, added)
    {
      j := 0;
      PruneStart(lines, s0, m);
      SetThresholdKeeps(lines, added, m);
      var dominated := Update(m);
      while dominated
        invariant PrunedRight(lines, s0, m, j, nl)
        invariant dominated == (m + 1 < |lines| && Le(lines[m + 1].p, lines[m].p))
        invariant ErasedBefore(s0, m, j, nl)
        invariant added == old(added) && Stored(lines, added) && Envelope(lines, added)
        decreases |lines|
      {
        dominated := EraseNext(m, s0, j, nl);
        j := j + 1;
      }
      PruneEnd(lines, s0, m, j, nl);
      assert j >= 1 ==> Le(s0[m + j - 1].p, lines[m].p);
    }

    /**
     * The leftward loop of `add` (lines 31-35): starting at `m`, the line at
     * `m` is erased while its threshold does not exceed its left neighbour's,
     * and the neighbour's threshold is recomputed.
     */
    method Cascade(m0: nat, ghost s0: seq<Line>, ghost pL: Ext) returns (ghost k: nat)
      requires Hull(s0) && CascadeInv(lines, s0, m0, pL)
      requires Stored(lines, added) && Envelope(lines, added)
      modifies this
      ensures Valid() && added == old(added)
      ensures |lines| <= |old(lines)|
      ensures k <= m0 < |old(lines)|
      ensures Keys(lines) == Keys(old(lines))[..k + 1] + Keys(old(lines))[m0 + 1..]
    {
      ghost var K := Keys(lines);
      assert K == K[..m0 + 1] + K[m0 + 1..];
      var m: nat := m0;
      while m > 0 && Le(lines[m].p, lines[m - 1].p)
        invariant CascadeInv(lines, s0, m, pL)
        invariant added == old(added) && Stored(lines, added) && Envelope(lines, added)
        invariant |lines| <= |old(lines)|
        invariant m <= m0 && Keys(lines) == K[..m + 1] + K[m0 + 1..]
        decreases m
      {
        CascadeStepDominated(lines, s0, m, pL);
        CascadeStep(lines, s0, m, pL);
        EraseKeeps(lines, added, m);
        SetThresholdKeeps(Erase(lines, m), added, m - 1);
        KeysErase(lines, m);
        CascadeKeys(K, Keys(lines), m, m0);
        lines := Erase(lines, m);
        var _ := Update(m - 1);
        m := m - 1;
      }
      CascadeEnd(lines, s0, m, pL);
      k := m;
    }

    /**
     * `lines.insert` (line 21): places the stored line `nl` after every line
     * of slope at most its own, and records the caller's line in the history.
     */
    method Insert(nl: Line) returns (idx: nat)
      requires Valid()
      modifies this
      ensures idx <= |old(lines)| && lines == old(lines)[..idx] + [nl] + old(lines)[idx..]
      ensures added == old(added) + [Original(nl)]
      ensures lines[..idx] == old(lines)[..idx] && lines[idx + 1..] == old(lines)[idx..] && lines[idx] == nl
      ensures forall k :: 0 <= k < idx ==> old(lines)[k].a <= nl.a
      ensures forall k :: idx <= k < |old(lines)| ==> old(lines)[k].a > nl.a
      ensures Sorted(lines) && Stored(lines, added) && Envelope(lines, added)
      ensures Keys(lines) == Keys(old(lines))[..idx] + [Pair(nl.a, nl.b)] + Keys(old(lines))[idx..]
    {
      idx := InsertPos(lines, nl.a);
      KeysInsert(lines, idx, nl);
      InsertFrame(lines, idx, nl);
      InsertSorted(lines, idx, nl);
      InsertKeeps(lines, added, idx, nl);
      lines := lines[..idx] + [nl] + lines[idx..];
      added := added + [Original(nl)];
    }

    /**
     * The left check of `add` (lines 27-30): the left neighbour's threshold
     * is recomputed against the new line, and when that shows the new line
     * dominated it is erased and the neighbour recomputed again.
     */
    method CheckLeft(idx: nat, ghost s0: seq<Line>, ghost j: nat, ghost nl: Line)
      requires Hull(s0) && 0 < idx && PrunedRight(lines, s0, idx, j, nl) && IncreasingFrom(lines, idx)
      requires s0[idx - 1].a <= nl.a && (idx < |s0| ==> s0[idx].a > nl.a)
      requires j >= 1 ==> Le(s0[idx].p, Isect(nl, s0[idx])) && Le(s0[idx + j - 1].p, lines[idx].p)
      requires Stored(lines, added) && Envelope(lines, added)
      modifies this
      ensures added == old(added) && Stored(lines, added) && Envelope(lines, added)
      ensures CascadeInv(lines, s0, idx - 1, s0[idx - 1].p)
      ensures |lines| <= |old(lines)|
      ensures Keys(lines) == Keys(old(lines)) || lines == s0
    {
      ghost var w := lines;
      SetThresholdKeeps(lines, added, idx - 1);
      var dominated := Update(idx - 1);
      if dominated {
        assert w[idx - 1] == s0[idx - 1] by { assert w[..idx][idx - 1] == s0[..idx][idx - 1]; }
        LeftErasedNoPrune(w, s0, idx, j, nl);
        LeftErasedDominated(w, s0, idx, nl);
        LeftErasedRestores(w, s0, idx, nl);
        EraseKeeps(lines, added, idx);
        SetThresholdKeeps(Erase(lines, idx), added, idx - 1);
        lines := Erase(lines, idx);
        var _ := Update(idx - 1);
        HullCascadeInv(s0, idx - 1);
      } else {
        LeftKept(w, s0, idx, j, nl);
      }
    }

    /**
     * Lines 22-35 of `add` when the new line `nl`, just inserted at `idx`,
     * has a left neighbour: the rightward loop, the left check and the
     * leftward loop. The old keys survive except for one run, and the new
     * line is kept in its place or erased.
     */
    method RepairAfter(idx: nat, ghost s0: seq<Line>, ghost nl: Line) returns (ghost lo: nat, ghost hi: nat)
      requires Hull(s0) && 0 < idx <= |s0|
      requires |lines| == |s0| + 1 && lines[..idx] == s0[..idx] && lines[idx] == nl && lines[idx + 1..] == s0[idx..]
      requires forall k :: 0 <= k < idx ==> s0[k].a <= nl.a
      requires forall k :: idx <= k < |s0| ==> s0[k].a > nl.a
      requires Sorted(lines) && Stored(lines, added) && Envelope(lines, added)
      requires Keys(lines) == Keys(s0)[..idx] + [Pair(nl.a, nl.b)] + Keys(s0)[idx..]
      modifies this
      ensures Valid() && added == old(added) && 0 < |lines| <= |old(lines)|
      ensures lo <= hi <= |s0|
      ensures || Keys(lines) == Keys(s0)[..lo] + [Pair(nl.a, nl.b)] + Keys(s0)[hi..]
              || Keys(lines) == Keys(s0)[..lo] + Keys(s0)[hi..]
    {
      ghost var u := lines;
      ghost var j := PruneRight(idx, s0, nl);
      PrunedKeys(lines, s0, idx, j, nl, u);
      ghost var K2 := Keys(lines);
      CheckLeft(idx, s0, j, nl);
      ghost var K3 := Keys(lines);
      ghost var k := Cascade(idx - 1, s0, s0[idx - 1].p);
      lo, hi := AddRunsAfter(Keys(s0), Pair(nl.a, nl.b), idx, Keys(u), j, K2, K3, k, Keys(lines));
    }

    /** Lines 22-35 of `add` when the new line goes first: only the rightward loop can erase anything. */
    method RepairFirst(ghost s0: seq<Line>, ghost nl: Line) returns (ghost j: nat)
      requires Hull(s0)
      requires |lines| == |s0| + 1 && lines[0] == nl && lines[1..] == s0
      requires forall k :: 0 <= k < |s0| ==> s0[k].a > nl.a
      requires Sorted(lines) && Stored(lines, added) && Envelope(lines, added)
      requires Keys(lines) == Keys(s0)[..0] + [Pair(nl.a, nl.b)] + Keys(s0)[0..]
      modifies this
      ensures Valid() && added == old(added) && 0 < |lines| <= |old(lines)|
      ensures j <= |s0| && Keys(lines) == Keys(s0)[..0] + [Pair(nl.a, nl.b)] + Keys(s0)[j..]
    {
      ghost var u := lines;
      assert lines[..0] == s0[..0] && lines[0 + 1..] == s0[0..];
      j := PruneRight(0, s0, nl);
      PrunedKeys(lines, s0, 0, j, nl, u);
      ghost var K2 := Keys(lines);
      ghost var k := Cascade(0, s0, PosInf);
      AddRunsFirst(Keys(s0), Pair(nl.a, nl.b), 0, Keys(u), j, K2, k, Keys(lines));
    }

    /**
     * `add(a, b)`: inserts the line `a*x + b` (stored negated) and repairs the
     * hull around it, erasing every stored line that no longer reaches the
     * envelope, possibly the new line itself. Every surviving line keeps its
     * slope and intercept: the old lines lose one contiguous run, and the
     * new line is kept in its place or erased.
     */
    method Add(a: int, b: int) returns (ghost lo: nat, ghost hi: nat)
      requires Valid()
      modifies this
      ensures Valid() && added == old(added) + [Pair(a, b)]
      ensures 0 < |lines| <= |old(lines)| + 1
      ensures lo <= hi <= |old(lines)|
      ensures || Keys(lines) == Keys(old(lines))[..lo] + [Pair(-a, -b)] + Keys(old(lines))[hi..]
              || Keys(lines) == Keys(old(lines))[..lo] + Keys(old(lines))[hi..]
    {
      ghost var s0 := lines;
      var nl := Line(-a, -b, Fin(0.0));
      var idx := Insert(nl);
      if idx > 0 {
        lo, hi := RepairAfter(idx, s0, nl);
      } else {
        assert lines[1..] == s0;
        lo := 0;
        hi := RepairFirst(s0, nl);
      }
    }

    /**
     * `get(x)`: the minimum over every line added so far at `x`, read off the
     * stored line whose threshold range holds `x`. The source asserts the
     * container is non-empty.
     */
    method Get(x: int) returns (r: int)
      requires Valid() && |lines| > 0
      ensures r == MinValue(added, x)
    {
      QuerySelectsMaximum(lines, x);
      var i := FirstAtLeast(lines, x);
      r := -(lines[i].a * x + lines[i].b);
      EnvelopeIsMinimum(lines, added, x);
    }
  }
}
