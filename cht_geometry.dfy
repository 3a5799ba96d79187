/**
 * Exact geometry of the lines kept by the dynamic convex hull trick container
 * (data-structure/cht/dynamic_convex_hull_trick.cpp): thresholds as extended
 * reals, the intersection rule of `update`, and the facts about two and three
 * lines that the container's repair loops rely on.
 */
module LineGeometry {

  /** A threshold: an exact real, or one of the sentinels the source writes as `INF` and `-INF`. */
  datatype Ext = NegInf | Fin(r: real) | PosInf

  /** `u <= v` on extended reals. */
  predicate Le(u: Ext, v: Ext) {
    match u
    case NegInf => true
    case PosInf => v.PosInf?
    case Fin(x) => v.PosInf? || (v.Fin? && x <= v.r)
  }

  /** `u < v` on extended reals. */
  predicate Lt(u: Ext, v: Ext) {
    !Le(v, u)
  }

  /** `p < x` for an integer query point, the comparison the container's `lower_bound` uses. */
  predicate Below(p: Ext, x: int) {
    match p
    case NegInf => true
    case PosInf => false
    case Fin(r) => r < x as real
  }

  /** One stored line `a*x + b` with the threshold `p` where the next stored line takes over. */
  datatype Line = Line(a: int, b: int, p: Ext)

  function Eval(l: Line, x: int): int {
    l.a * x + l.b
  }

  /**
   * The threshold `update(x, y)` gives the left line `l` against its right
   * neighbour `r`: the x-coordinate of their intersection, or for parallel lines
   * +oo when `l` is strictly above `r` and -oo otherwise.
   */
  function Isect(l: Line, r: Line): Ext {
    if l.a == r.a then (if l.b > r.b then PosInf else NegInf)
    else Fin((r.b - l.b) as real / (l.a - r.a) as real)
  }

  /** The intersection depends on slopes and intercepts only, not on stored thresholds. */
  lemma IsectSameKeys(l1: Line, r1: Line, l2: Line, r2: Line)
    requires l1.a == l2.a && l1.b == l2.b && r1.a == r2.a && r1.b == r2.b
    ensures Isect(l1, r1) == Isect(l2, r2)
  {
  }

  lemma LeTrans(u: Ext, v: Ext, w: Ext)
    requires Le(u, v) && Le(v, w)
    ensures Le(u, w)
  {
  }

  lemma LtTrans(u: Ext, v: Ext, w: Ext)
    requires Lt(u, v) && Lt(v, w)
    ensures Lt(u, w)
  {
  }

  lemma LtLeTrans(u: Ext, v: Ext, w: Ext)
    requires Lt(u, v) && Le(v, w)
    ensures Lt(u, w)
  {
  }

  lemma LeLtTrans(u: Ext, v: Ext, w: Ext)
    requires Le(u, v) && Lt(v, w)
    ensures Lt(u, w)
  {
  }

  lemma DivByNeg(n: real, d: real) returns (q: real)
    requires d < 0.0
    ensures q == n / d && q * d == n
  {
    q := n / d;
  }

  /** Sign of a product of a negative factor. */
  lemma NegTimes(d: real, e: real)
    requires d < 0.0
    ensures e <= 0.0 ==> d * e >= 0.0
    ensures e > 0.0 ==> d * e < 0.0
  {
  }

  /** Sign of a product of a positive factor. */
  lemma PosTimes(d: real, e: real)
    requires d > 0.0
    ensures e > 0.0 ==> d * e > 0.0
    ensures e <= 0.0 ==> d * e <= 0.0
  {
  }

  /**
   * Which of two lines is higher on either side of their threshold: the left
   * (smaller-slope) line up to and including the threshold, the right one past it.
   */
  lemma SidesOfThreshold(l: Line, r: Line, x: int)
    requires l.a <= r.a
    ensures !Below(Isect(l, r), x) ==> Eval(l, x) >= Eval(r, x)
    ensures Below(Isect(l, r), x) ==> Eval(r, x) >= Eval(l, x)
  {
    if l.a != r.a {
      var d := (l.a - r.a) as real;
      var q := DivByNeg((r.b - l.b) as real, d);
      assert Isect(l, r) == Fin(q);
      var xr := x as real;
      var diff := (Eval(l, x) - Eval(r, x)) as real;
      assert diff == d * xr + (l.b - r.b) as real;
      assert d * q == (r.b - l.b) as real;
      assert d * (xr - q) == d * xr - d * q;
      NegTimes(d, xr - q);
    }
  }

  /**
   * The outer threshold of three lines with distinct slopes, written as
   * offsets: with slope gaps `al` and `be`, `(al + be) * (w - u) == be * (v - u)`
   * and `(al + be) * (v - w) == al * (v - u)`.
   */
  lemma OuterOffsets(al: real, be: real, u: real, v: real, w: real, cx: real, cy: real, cz: real)
    requires al * u == cx - cy && be * v == cy - cz && (al + be) * w == cx - cz
    ensures (al + be) * (w - u) == be * (v - u)
    ensures (al + be) * (v - w) == al * (v - u)
  {
    assert (al + be) * u == al * u + be * u;
    assert (al + be) * (w - u) == (al + be) * w - (al + be) * u;
    assert be * (v - u) == be * v - be * u;
    assert (al + be) * v == al * v + be * v;
    assert (al + be) * (v - w) == (al + be) * v - (al + be) * w;
    assert al * (v - u) == al * v - al * u;
  }

  /** For three distinct slopes, the outer intersection is a weighted mean of the two inner ones. */
  lemma OuterBetweenFinite(x: Line, y: Line, z: Line, u: real, v: real, w: real)
    requires x.a < y.a < z.a
    requires Isect(x, y) == Fin(u) && Isect(y, z) == Fin(v) && Isect(x, z) == Fin(w)
    ensures u < v ==> u <= w <= v
    ensures v <= u ==> v <= w <= u
  {
    var al := (y.a - x.a) as real;
    var be := (z.a - y.a) as real;
    var u' := DivByNeg((y.b - x.b) as real, -al);
    var v' := DivByNeg((z.b - y.b) as real, -be);
    var w' := DivByNeg((z.b - x.b) as real, -(al + be));
    assert u == u' && v == v' && w == w';
    OuterOffsets(al, be, u, v, w, x.b as real, y.b as real, z.b as real);
    PosTimes(be, v - u);
    PosTimes(al, v - u);
    PosTimes(al + be, w - u);
    PosTimes(al + be, v - w);
  }

  /** Division by a negative number reverses the order of numerators. */
  lemma DivByNegAntitone(n1: real, n2: real, d: real)
    requires d < 0.0
    ensures n1 <= n2 ==> n2 / d <= n1 / d
    ensures n1 < n2 ==> n2 / d < n1 / d
  {
    var q1 := DivByNeg(n1, d);
    var q2 := DivByNeg(n2, d);
    assert (q1 - q2) * d == n1 - n2;
  }

  /**
   * Three lines in slope order: the threshold of the outer pair always lies
   * between the thresholds of the two adjacent pairs. When the adjacent
   * thresholds increase the middle line is on the envelope; when they do not,
   * the middle line is dominated.
   */
  lemma OuterBetween(x: Line, y: Line, z: Line)
    requires x.a <= y.a <= z.a
    ensures Lt(Isect(x, y), Isect(y, z)) ==> Le(Isect(x, y), Isect(x, z)) && Le(Isect(x, z), Isect(y, z))
    ensures Le(Isect(y, z), Isect(x, y)) ==> Le(Isect(y, z), Isect(x, z)) && Le(Isect(x, z), Isect(x, y))
  {
    if x.a < y.a < z.a {
      OuterBetweenFinite(x, y, z, Isect(x, y).r, Isect(y, z).r, Isect(x, z).r);
    } else if x.a == y.a && y.a < z.a {
      DivByNegAntitone((z.b - x.b) as real, (z.b - y.b) as real, (x.a - z.a) as real);
      DivByNegAntitone((z.b - y.b) as real, (z.b - x.b) as real, (x.a - z.a) as real);
    } else if x.a < y.a && y.a == z.a {
      DivByNegAntitone((y.b - x.b) as real, (z.b - x.b) as real, (x.a - y.a) as real);
      DivByNegAntitone((z.b - x.b) as real, (y.b - x.b) as real, (x.a - y.a) as real);
    }
  }

  /**
   * A middle line whose threshold against its left neighbour is not below its
   * own threshold against its right neighbour is nowhere above both of them.
   */
  lemma MiddleDominated(x: Line, y: Line, z: Line, t: int)
    requires x.a <= y.a <= z.a
    requires Le(Isect(y, z), Isect(x, y))
    ensures Eval(y, t) <= Eval(x, t) || Eval(y, t) <= Eval(z, t)
  {
    SidesOfThreshold(x, y, t);
    SidesOfThreshold(y, z, t);
  }

  /** A last line whose left neighbour's threshold is +oo is nowhere above that neighbour. */
  lemma LastDominated(x: Line, y: Line, t: int)
    requires x.a <= y.a
    requires Isect(x, y) == PosInf
    ensures Eval(y, t) <= Eval(x, t)
  {
    SidesOfThreshold(x, y, t);
  }
}
