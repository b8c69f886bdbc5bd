/** Scalar multiplication of _babyjub.py: double-and-add against the k-fold sum,
    over any operation with the laws of curve addition. */
module ScalarMul {
  import opened Base
  import opened BabyJub

  /** `add`, `in_curve`, and which coordinates are reduced. */
  datatype CurveOps = CurveOps(add: (Point, Point) -> Option<Point>, inCurve: Point -> bool, reduced: Point -> bool)

  predicate OnPoint(g: CurveOps, p: Point) {
    g.inCurve(p) && g.reduced(p)
  }

  /** Closure on curve points and a two-sided neutral element. */
  ghost predicate Lawful(g: CurveOps) {
    && OnPoint(g, NEUTRAL)
    && (forall p, q {:trigger g.add(p, q)} :: g.inCurve(p) && g.inCurve(q) ==>
          g.add(p, q).Some? && OnPoint(g, g.add(p, q).value))
    && (forall p {:trigger g.add(p, NEUTRAL)} {:trigger g.add(NEUTRAL, p)} :: OnPoint(g, p) ==>
          g.add(p, NEUTRAL) == Some(p) && g.add(NEUTRAL, p) == Some(p))
  }

  function Plus(g: CurveOps, p: Point, q: Point): Point {
    g.add(p, q).GetOr(NEUTRAL)
  }

  // ---- Multiples ------------------------------------------------------------------

  /** The k-fold sum (0, 1) + b + ... + b. */
  ghost function Times(g: CurveOps, b: Point, k: nat): (r: Point)
    requires Lawful(g) && OnPoint(g, b)
    ensures OnPoint(g, r)
  {
    if k == 0 then NEUTRAL else Plus(g, Times(g, b, k - 1), b)
  }

  ghost predicate AssociativeAt(g: CurveOps, b: Point, i: nat, j: nat)
    requires Lawful(g) && OnPoint(g, b)
  {
    Plus(g, Times(g, b, i), Plus(g, Times(g, b, j), b)) == Plus(g, Plus(g, Times(g, b, i), Times(g, b, j)), b)
  }

  /** The one hypothesis about the group law: `add` associates on multiples of b. */
  ghost predicate Associative(g: CurveOps, b: Point)
    requires Lawful(g) && OnPoint(g, b)
  {
    forall i: nat, j: nat :: AssociativeAt(g, b, i, j)
  }

  lemma {:induction false} TimesSum(g: CurveOps, b: Point, i: nat, j: nat)
    requires Lawful(g) && OnPoint(g, b) && Associative(g, b)
    ensures Plus(g, Times(g, b, i), Times(g, b, j)) == Times(g, b, i + j)
  {
    if j == 0 {
    } else {
      TimesSum(g, b, i, j - 1);
      assert AssociativeAt(g, b, i, j - 1);
      assert Times(g, b, j) == Plus(g, Times(g, b, j - 1), b);
    }
  }

  // ---- Double-and-add ---------------------------------------------------------------

  /** The loop of `mul` from a given state; None where an `add` raises. */
  function Ladder(g: CurveOps, res: Point, exp: Point, k: nat): Option<Point>
    decreases k
  {
    if k == 0 then Some(res)
    else
      var res' := if k % 2 == 1 then g.add(res, exp) else Some(res);
      var exp' := g.add(exp, exp);
      if res'.None? || exp'.None? then None else Ladder(g, res'.value, exp'.value, k / 2)
  }

  function Scalar(g: CurveOps, base: Point, k: nat): Option<Point>
  {
    Ladder(g, NEUTRAL, base, k)
  }

  /** On any curve point `mul` never raises and stays on the curve. */
  lemma {:induction false} LadderTotal(g: CurveOps, res: Point, exp: Point, k: nat)
    requires Lawful(g) && g.inCurve(res) && g.inCurve(exp)
    ensures Ladder(g, res, exp, k).Some? && g.inCurve(Ladder(g, res, exp, k).value)
    decreases k
  {
    if k > 0 {
      LadderTotal(g, if k % 2 == 1 then g.add(res, exp).value else res, g.add(exp, exp).value, k / 2);
    }
  }

  /** From n*b and m*b the loop reaches (n + m*k)*b. */
  lemma {:induction false} LadderTimes(g: CurveOps, b: Point, n: nat, m: nat, k: nat)
    requires Lawful(g) && OnPoint(g, b) && Associative(g, b)
    ensures n + m * k >= 0 && Ladder(g, Times(g, b, n), Times(g, b, m), k) == Some(Times(g, b, n + m * k))
    decreases k
  {
    if k > 0 {
      TimesSum(g, b, n, m);
      TimesSum(g, b, m, m);
      HalfSum(n, m, k);
      LadderTimes(g, b, if k % 2 == 1 then n + m else n, m + m, k / 2);
    }
  }

  lemma HalfSum(n: nat, m: nat, k: nat)
    ensures n + m * k == (if k % 2 == 1 then n + m else n) + (m + m) * (k / 2) >= 0
  {
    var h, r := k / 2, k % 2;
    assert k == h + h + r;
    assert m * k == m * h + m * h + m * r;
    assert (m + m) * h == m * h + m * h;
  }

  /** `mul(b, k)` is the k-fold sum, so `mul(b, j + k) = add(mul(b, j), mul(b, k))`. */
  lemma ScalarIsTimes(g: CurveOps, b: Point, j: nat, k: nat)
    requires Lawful(g) && OnPoint(g, b) && Associative(g, b)
    ensures Scalar(g, b, k) == Some(Times(g, b, k)) && Scalar(g, b, j) == Some(Times(g, b, j))
    ensures Scalar(g, b, j + k) == g.add(Scalar(g, b, j).value, Scalar(g, b, k).value)
  {
    TimesOne(g, b);
    LadderTimes(g, b, 0, 1, k);
    LadderTimes(g, b, 0, 1, j);
    LadderTimes(g, b, 0, 1, j + k);
    TimesSum(g, b, j, k);
  }

  lemma TimesOne(g: CurveOps, b: Point)
    requires Lawful(g) && OnPoint(g, b)
    ensures Times(g, b, 1) == b && Times(g, b, 0) == NEUTRAL
  {
    assert Times(g, b, 1) == Plus(g, Times(g, b, 0), b);
  }

  /** Multiples of a multiple. */
  lemma ScalarOfMultiple(g: CurveOps, b: Point, m: nat, k: nat)
    requires Lawful(g) && OnPoint(g, b) && Associative(g, b)
    ensures m * k >= 0 && Scalar(g, Times(g, b, m), k) == Some(Times(g, b, m * k))
  {
    LadderTimes(g, b, 0, m, k);
  }

  /** `mul`: ValueError for a negative scalar. */
  method Mul(g: CurveOps, base: Point, scalar: int) returns (r: Option<Point>)
    ensures scalar < 0 ==> r.None?
    ensures scalar >= 0 ==> r == Scalar(g, base, scalar)
  {
    if scalar < 0 {
      return None;
    }
    var res, exp, k := NEUTRAL, base, scalar;
    while k > 0
      invariant k >= 0 && Ladder(g, res, exp, k) == Scalar(g, base, scalar)
    {
      if k % 2 == 1 {
        var sum := g.add(res, exp);
        if sum.None? {
          return None;
        }
        res := sum.value;
      }
      var twice := g.add(exp, exp);
      if twice.None? {
        return None;
      }
      exp := twice.value;
      k := k / 2;
    }
    return Some(res);
  }

  // ---- Order --------------------------------------------------------------------------

  /** Multiples of a point of order dividing n depend only on the scalar mod n. */
  lemma TimesMod(g: CurveOps, b: Point, n: nat, k: nat)
    requires Lawful(g) && OnPoint(g, b) && Associative(g, b)
    requires n > 0 && Times(g, b, n) == NEUTRAL
    ensures Times(g, b, k % n) == Times(g, b, k)
  {
    TimesOrder(g, b, n, k / n);
    assert n * (k / n) + k % n == k;
    TimesSum(g, b, n * (k / n), k % n);
  }

  lemma {:induction false} TimesOrder(g: CurveOps, b: Point, n: nat, q: nat)
    requires Lawful(g) && OnPoint(g, b) && Associative(g, b)
    requires Times(g, b, n) == NEUTRAL
    ensures n * q >= 0 && Times(g, b, n * q) == NEUTRAL
  {
    if q > 0 {
      TimesOrder(g, b, n, q - 1);
      TimesSum(g, b, n * (q - 1), n);
      assert n * (q - 1) + n == n * q;
    }
  }
}
