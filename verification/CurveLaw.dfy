/** Laws of `add` on the curve that need no hypothesis beyond completeness. */
module CurveLaw {
  import opened Base
  import opened Field
  import opened BabyJub
  import opened ScalarMul

  /** A reduced point of the curve. */
  predicate OnCurve(c: Curve, p: Point)
    requires c.p > 0
  {
    InCurve(c, p) && 0 <= p.x < c.p && 0 <= p.y < c.p
  }

  /** `add` as a total operation on curve points. */
  ghost function Plus(c: Curve, p: Point, q: Point): (r: Point)
    requires Complete(c) && OnCurve(c, p) && OnCurve(c, q)
    ensures Add(c, p, q) == Some(r) && OnCurve(c, r)
  {
    AddComplete(c, p, q);
    Add(c, p, q).value
  }

  lemma PlusUnique(c: Curve, p: Point, q: Point, r: Point)
    requires Complete(c) && OnCurve(c, p) && OnCurve(c, q) && IsSum(c, p, q, r)
    ensures Plus(c, p, q) == r
  {
    InCurveIsOn(c, p);
    InCurveIsOn(c, q);
    DenominatorsNonzero(c, p, q);
    AddComplete(c, p, q);
    SumUnique(c, p, q, r, Plus(c, p, q));
  }

  lemma Interchange(x1: int, y1: int, x2: int, y2: int)
    ensures (x1 * y2) * (y1 * x2) == (x2 * y1) * (y2 * x1)
  {
  }

  /** The addition formula is symmetric in its two points. */
  lemma SwapTerms(c: Curve, p: Point, q: Point)
    ensures Cross(p, q) == Cross(q, p) && Nx(p, q) == Nx(q, p) && Ny(c, p, q) == Ny(c, q, p)
  {
    Interchange(p.x, p.y, q.x, q.y);
    assert p.x * q.x == q.x * p.x && p.y * q.y == q.y * p.y;
  }

  lemma SwapSum(c: Curve, p: Point, q: Point, r: Point)
    requires c.p > 0 && IsSum(c, q, p, r)
    ensures IsSum(c, p, q, r)
  {
    SwapTerms(c, p, q);
  }

  lemma PlusIsSum(c: Curve, p: Point, q: Point)
    requires Complete(c) && OnCurve(c, p) && OnCurve(c, q)
    ensures IsSum(c, p, q, Plus(c, p, q))
  {
    AddComplete(c, p, q);
  }

  lemma Commutative(c: Curve, p: Point, q: Point)
    requires Complete(c) && OnCurve(c, p) && OnCurve(c, q)
    ensures Plus(c, p, q) == Plus(c, q, p)
  {
    var r := Plus(c, q, p);
    PlusIsSum(c, q, p);
    SwapSum(c, p, q, r);
    PlusUnique(c, p, q, r);
  }

  lemma NeutralOnCurve(c: Curve)
    requires c.p > 2
    ensures OnCurve(c, NEUTRAL)
  {
    assert 0 % c.p == 0 && 1 % c.p == 1;
    assert c.a * 0 == 0 && c.d * 0 * 1 == 0;
  }

  lemma NeutralTerms(a: int, d: int, x: int, y: int)
    ensures (x * 1) * (y * 0) == 0 && x * 1 + y * 0 == x && y * 1 - a * (x * 0) == y
    ensures x * (1 + d * 0) == x && y * (1 - d * 0) == y
  {
  }

  lemma NeutralSum(c: Curve, p: Point)
    requires c.p > 0 && 0 <= p.x < c.p && 0 <= p.y < c.p
    ensures IsSum(c, p, NEUTRAL, p)
  {
    NeutralTerms(c.a, c.d, p.x, p.y);
    assert Cross(p, NEUTRAL) == 0 && Nx(p, NEUTRAL) == p.x && Ny(c, p, NEUTRAL) == p.y;
  }

  /** (0, 1) is neutral on both sides. */
  lemma Neutral(c: Curve, p: Point)
    requires Complete(c) && OnCurve(c, p)
    ensures OnCurve(c, NEUTRAL) && Plus(c, p, NEUTRAL) == p && Plus(c, NEUTRAL, p) == p
  {
    NeutralOnCurve(c);
    NeutralSum(c, p);
    PlusUnique(c, p, NEUTRAL, p);
    Commutative(c, p, NEUTRAL);
  }

  lemma NegationOnCurve(c: Curve, p: Point, n: Point)
    requires c.p > 2 && On(c, p.x, p.y) && n.y == p.y && Cong(c.p, n.x, -p.x)
    ensures On(c, n.x, n.y)
  {
    var m, yy := c.p, p.y * p.y;
    CongMul(m, n.x, -p.x, n.x, -p.x);
    assert (-p.x) * (-p.x) == p.x * p.x;
    var u, v := n.x * n.x, p.x * p.x;
    CongMul(m, c.a, c.a, u, v);
    CongAdd(m, c.a * u, c.a * v, yy, yy);
    CongMul(m, u, v, yy, yy);
    CongMul(m, c.d, c.d, u * yy, v * yy);
    CongAdd(m, 1, 1, c.d * (u * yy), c.d * (v * yy));
  }

  /** (-x, y) is the inverse of (x, y). */
  lemma Inverse(c: Curve, p: Point)
    requires Complete(c) && OnCurve(c, p)
    ensures var n := Point((-p.x) % c.p, p.y); OnCurve(c, n) && Plus(c, p, n) == NEUTRAL
  {
    var n := Point((-p.x) % c.p, p.y);
    CongMod(c.p, -p.x);
    InCurveIsOn(c, p);
    NegationOnCurve(c, p, n);
    InCurveIsOn(c, n);
    NeutralOnCurve(c);
    NegationSum(c, p, n);
    PlusUnique(c, p, n, NEUTRAL);
  }

  lemma NegationCross(c: Curve, p: Point, n: Point)
    requires c.p > 0 && n.y == p.y && Cong(c.p, n.x, -p.x)
    ensures Cong(c.p, c.d * Cross(p, n), -(c.d * ((p.x * p.x) * (p.y * p.y))))
  {
    var m, x, y := c.p, p.x, p.y;
    CongMul(m, y, y, n.x, -x);
    CongMul(m, x * y, x * y, y * n.x, y * -x);
    CongMul(m, c.d, c.d, Cross(p, n), (x * y) * (y * -x));
    NegatedSquares(c.d, x, y);
  }

  lemma NegatedSquares(d: int, x: int, y: int)
    ensures d * ((x * y) * (y * -x)) == -(d * ((x * x) * (y * y)))
  {
    Squares(x, y);
    assert y * -x == -(x * y);
    MinusOut(x * y, x * y);
    MinusOut(d, (x * x) * (y * y));
  }

  lemma MinusOut(u: int, v: int)
    ensures u * -v == -(u * v)
  {
  }

  lemma NegationX(p: Point, n: Point, m: nat)
    requires m > 0 && n.y == p.y && Cong(m, n.x, -p.x)
    ensures Cong(m, Nx(p, n), 0)
  {
    CongMul(m, p.y, p.y, n.x, -p.x);
    CongAdd(m, p.x * p.y, p.x * p.y, p.y * n.x, p.y * -p.x);
    MinusOut(p.y, p.x);
    assert p.x * p.y == p.y * p.x;
  }

  lemma NegationY(c: Curve, p: Point, n: Point)
    requires c.p > 0 && n.y == p.y && Cong(c.p, n.x, -p.x)
    ensures Cong(c.p, Ny(c, p, n), c.a * (p.x * p.x) + p.y * p.y)
  {
    var m, x, y := c.p, p.x, p.y;
    CongMul(m, x, x, n.x, -x);
    CongMul(m, c.a, c.a, x * n.x, x * -x);
    CongAdd(m, y * y, y * y, c.a * (x * n.x), c.a * (x * -x));
    MinusOut(x, x);
    MinusOut(c.a, x * x);
  }

  /** Denominators and numerators agree: 0 / (1 + d*w) and (1 - d*w) / (1 - d*w). */
  lemma NegationSum(c: Curve, p: Point, n: Point)
    requires c.p > 2 && On(c, p.x, p.y) && n.y == p.y && Cong(c.p, n.x, -p.x)
    ensures IsSum(c, p, n, NEUTRAL)
  {
    NegationX(p, n, c.p);
    NegationY(c, p, n);
    NegationCross(c, p, n);
    CongAdd(c.p, 1, 1, c.d * Cross(p, n), -(c.d * ((p.x * p.x) * (p.y * p.y))));
    NegationFrom(c.p, c.d * Cross(p, n), Nx(p, n), Ny(c, p, n));
  }

  lemma NegationFrom(m: nat, t: int, nx: int, ny: int)
    requires m > 0 && Cong(m, nx, 0) && Cong(m, 1 - t, ny)
    ensures Cong(m, 0 * (1 + t), nx) && Cong(m, 1 * (1 - t), ny)
  {
  }

  /** `add` and `in_curve` as values. */
  function Ops(c: Curve): CurveOps
    requires c.p > 1
  {
    CurveOps((p, q) => Add(c, p, q), p => InCurve(c, p), (p: Point) => 0 <= p.x < c.p && 0 <= p.y < c.p)
  }

  lemma OpsClosed(c: Curve, p: Point, q: Point)
    requires Complete(c) && Ops(c).inCurve(p) && Ops(c).inCurve(q)
    ensures Ops(c).add(p, q).Some? && OnPoint(Ops(c), Ops(c).add(p, q).value)
  {
    AddComplete(c, p, q);
  }

  lemma OpsNeutral(c: Curve, p: Point)
    requires Complete(c) && OnPoint(Ops(c), p)
    ensures Ops(c).add(p, NEUTRAL) == Some(p) && Ops(c).add(NEUTRAL, p) == Some(p)
  {
    Neutral(c, p);
  }

  /** On a complete curve `add` is a closed, commutative operation with neutral (0, 1). */
  lemma CurveIsLawful(c: Curve)
    requires Complete(c)
    ensures Lawful(Ops(c))
  {
    NeutralOnCurve(c);
    forall p, q | Ops(c).inCurve(p) && Ops(c).inCurve(q)
      ensures Ops(c).add(p, q).Some? && OnPoint(Ops(c), Ops(c).add(p, q).value)
    {
      OpsClosed(c, p, q);
    }
    forall p | OnPoint(Ops(c), p) ensures Ops(c).add(p, NEUTRAL) == Some(p) && Ops(c).add(NEUTRAL, p) == Some(p) {
      OpsNeutral(c, p);
    }
  }
}
