/** Twisted Edwards arithmetic of _babyjub.py, for any curve
    a*x^2 + y^2 = 1 + d*x^2*y^2 over a prime field. */
module BabyJub {
  import opened Base
  import opened Field

  datatype Curve = Curve(p: nat, a: int, d: int)
  datatype Point = Point(x: int, y: int)

  const NEUTRAL := Point(0, 1)

  /** `in_curve`. */
  predicate InCurve(c: Curve, pt: Point)
    requires c.p > 0
  {
    var x2 := (pt.x * pt.x) % c.p;
    var y2 := (pt.y * pt.y) % c.p;
    (c.a * x2 + y2) % c.p == (1 + c.d * x2 * y2) % c.p
  }

  /** `add`; None where `_modinv` raises. */
  function Add(c: Curve, p: Point, q: Point): Option<Point>
    requires c.p > 1
  {
    var beta := (p.x * q.y) % c.p;
    var gamma := (p.y * q.x) % c.p;
    var delta := ((p.y - c.a * p.x) % c.p * (q.x + q.y)) % c.p % c.p;
    var tau := (beta * gamma) % c.p;
    var dtau := (c.d * tau) % c.p;
    var invPos := ModInv((1 + dtau) % c.p, c.p);
    if invPos.None? then None else
    var invNeg := ModInv((1 - dtau) % c.p, c.p);
    if invNeg.None? then None else
    var x3 := ((beta + gamma) * invPos.value) % c.p;
    var y3 := ((delta + c.a * beta - gamma) * invNeg.value) % c.p;
    Some(Point(x3, y3))
  }

  // ---- The hypotheses ----------------------------------------------------------

  /** Section 6 of "Twisted Edwards Curves" (Bernstein et al., 2008): p an odd
      prime, a a nonzero square, d a non-square. */
  ghost predicate Complete(c: Curve) {
    && Prime(c.p) && c.p > 2
    && Square(c.p, c.a) && !Cong(c.p, c.a, 0)
    && !Square(c.p, c.d)
  }

  /** The curve equation over the integers, modulo p. */
  ghost predicate On(c: Curve, x: int, y: int)
    requires c.p > 0
  {
    Cong(c.p, c.a * (x * x) + y * y, 1 + c.d * ((x * x) * (y * y)))
  }

  lemma InCurveIsOn(c: Curve, pt: Point)
    requires c.p > 0
    ensures InCurve(c, pt) <==> On(c, pt.x, pt.y)
  {
    var x2, y2 := pt.x * pt.x, pt.y * pt.y;
    CongMod(c.p, x2);
    CongMod(c.p, y2);
    CongMul(c.p, c.a, c.a, x2 % c.p, x2);
    CongAdd(c.p, c.a * (x2 % c.p), c.a * x2, y2 % c.p, y2);
    CongMul(c.p, x2 % c.p, x2, y2 % c.p, y2);
    CongMul(c.p, c.d, c.d, (x2 % c.p) * (y2 % c.p), x2 * y2);
    CongAdd(c.p, 1, 1, c.d * ((x2 % c.p) * (y2 % c.p)), c.d * (x2 * y2));
    assert c.d * (x2 % c.p) * (y2 % c.p) == c.d * ((x2 % c.p) * (y2 % c.p));
  }

  // ---- What add computes ---------------------------------------------------------

  /** The three polynomials of the addition formula. */
  function Cross(p: Point, q: Point): int { (p.x * q.y) * (p.y * q.x) }
  function Nx(p: Point, q: Point): int { p.x * q.y + p.y * q.x }
  function Ny(c: Curve, p: Point, q: Point): int { p.y * q.y - c.a * (p.x * q.x) }

  /** `r` is (Nx / (1 + d*w), Ny / (1 - d*w)), reduced. */
  ghost predicate IsSum(c: Curve, p: Point, q: Point, r: Point)
    requires c.p > 0
  {
    && 0 <= r.x < c.p && 0 <= r.y < c.p
    && Cong(c.p, r.x * (1 + c.d * Cross(p, q)), Nx(p, q))
    && Cong(c.p, r.y * (1 - c.d * Cross(p, q)), Ny(c, p, q))
  }

  /** The rearranged numerator of y equals y1*y2 - a*x1*x2. */
  lemma Rearranged(a: int, x1: int, y1: int, x2: int, y2: int)
    ensures (y1 - a * x1) * (x2 + y2) + a * (x1 * y2) - y1 * x2 == y1 * y2 - a * (x1 * x2)
  {
    calc {
      (y1 - a * x1) * (x2 + y2);
      y1 * (x2 + y2) - a * x1 * (x2 + y2);
      { assert a * x1 * (x2 + y2) == a * (x1 * x2) + a * (x1 * y2); }
      y1 * x2 + y1 * y2 - a * (x1 * x2) - a * (x1 * y2);
    }
  }

  lemma Quotient(p: nat, num: int, num': int, den: int, den': int, inv: int)
    requires p > 0 && Cong(p, num, num') && Cong(p, den, den') && Cong(p, den * inv, 1)
    ensures Cong(p, (num * inv) % p * den', num')
  {
    CongMod(p, num * inv);
    CongMul(p, (num * inv) % p, num * inv, den', den);
    CongMul(p, num, num', den * inv, 1);
    assert num * inv * den == num * (den * inv);
  }

  /** `add` succeeds when both denominators are nonzero, and then computes the
      quotients of the addition formula. */
  lemma AddComputes(c: Curve, p: Point, q: Point)
    requires Prime(c.p)
    requires !Cong(c.p, 1 + c.d * Cross(p, q), 0) && !Cong(c.p, 1 - c.d * Cross(p, q), 0)
    ensures Add(c, p, q).Some? && IsSum(c, p, q, Add(c, p, q).value)
  {
    var m := c.p;
    var b, g := p.x * q.y, p.y * q.x;
    var beta, gamma := b % m, g % m;
    CongMod(m, b);
    CongMod(m, g);
    CongMul(m, beta, b, gamma, g);
    var tau := (beta * gamma) % m;
    CongMod(m, beta * gamma);
    CongMul(m, c.d, c.d, tau, b * g);
    var dtau := (c.d * tau) % m;
    CongMod(m, c.d * tau);
    CongAdd(m, 1, 1, dtau, c.d * (b * g));
    CongMod(m, 1 + dtau);
    CongMod(m, 1 - dtau);
    PrimeInverse(m, (1 + dtau) % m);
    PrimeInverse(m, (1 - dtau) % m);
    var invPos, invNeg := ModInv((1 + dtau) % m, m).value, ModInv((1 - dtau) % m, m).value;
    CongAdd(m, beta, b, gamma, g);
    Quotient(m, beta + gamma, b + g, (1 + dtau) % m, 1 + c.d * (b * g), invPos);
    var u, v := p.y - c.a * p.x, q.x + q.y;
    var delta := (u % m * v) % m % m;
    CongMod(m, u);
    CongMul(m, u % m, u, v, v);
    CongMod(m, u % m * v);
    CongMod(m, (u % m * v) % m);
    CongMul(m, c.a, c.a, beta, b);
    CongAdd(m, delta, u * v, c.a * beta, c.a * b);
    CongAdd(m, delta + c.a * beta, u * v + c.a * b, gamma, g);
    Rearranged(c.a, p.x, p.y, q.x, q.y);
    Quotient(m, delta + c.a * beta - gamma, Ny(c, p, q), (1 - dtau) % m, 1 - c.d * (b * g), invNeg);
  }

  /** The sum is determined by the formula. */
  lemma SumUnique(c: Curve, p: Point, q: Point, r: Point, s: Point)
    requires Prime(c.p)
    requires !Cong(c.p, 1 + c.d * Cross(p, q), 0) && !Cong(c.p, 1 - c.d * Cross(p, q), 0)
    requires IsSum(c, p, q, r) && IsSum(c, p, q, s)
    ensures r == s
  {
    var pos, neg := 1 + c.d * Cross(p, q), 1 - c.d * Cross(p, q);
    Cancel(c.p, pos, r.x, s.x);
    CongEqual(c.p, r.x, s.x);
    Cancel(c.p, neg, r.y, s.y);
    CongEqual(c.p, r.y, s.y);
  }

  // ---- Completeness ------------------------------------------------------------------

  /** If d*x1*x2*y1*y2 = e with e^2 = 1, then
      (r*x1 + s*e*y1)^2 = d*(x1*y1*(r*x2 + s*y2))^2 for s = 1 and s = -1. */
  lemma SquareIdentity(c: Curve, p: Point, q: Point, r: int, e: int, s: int)
    requires c.p > 0 && On(c, p.x, p.y) && On(c, q.x, q.y)
    requires Cong(c.p, r * r, c.a) && Cong(c.p, c.d * Cross(p, q), e)
    requires e * e == 1 && s * s == 1
    ensures var left := r * p.x + s * e * p.y;
      var right := p.x * p.y * (r * q.x + s * q.y);
      Cong(c.p, left * left, c.d * (right * right))
  {
    var m, d := c.p, c.d;
    var x1, y1, x2, y2 := p.x, p.y, q.x, q.y;
    var left, right := r * x1 + s * e * y1, x1 * y1 * (r * x2 + s * y2);
    var m1, m2 := x1 * y1, x2 * y2;
    // left^2 == a*x1^2 + y1^2 + 2*s*e*r*m1
    calc {
      left * left;
      { SquareOfSum(r * x1, s * e * y1); }
      (r * x1) * (r * x1) + 2 * ((r * x1) * (s * e * y1)) + (s * e * y1) * (s * e * y1);
      { Squares(r, x1); Squares(s * e, y1); UnitSquare(s, e); Shuffle(r, x1, s * e, y1); }
      (r * r) * (x1 * x1) + 2 * (s * e * (r * m1)) + y1 * y1;
    }
    CongMul(m, r * r, c.a, x1 * x1, x1 * x1);
    CongAdd(m, (r * r) * (x1 * x1), c.a * (x1 * x1),
            2 * (s * e * (r * m1)) + y1 * y1, 2 * (s * e * (r * m1)) + y1 * y1);
    CongAdd(m, c.a * (x1 * x1) + y1 * y1, 1 + d * ((x1 * x1) * (y1 * y1)),
            2 * (s * e * (r * m1)), 2 * (s * e * (r * m1)));
    var middle := 1 + d * ((x1 * x1) * (y1 * y1)) + 2 * (s * e * (r * m1));
    assert Cong(m, left * left, middle);
    // d*right^2 == d*m1^2*(a*x2^2 + y2^2) + 2*s*r*m1*(d*w)
    var S2 := x2 * x2;
    calc {
      (r * x2 + s * y2) * (r * x2 + s * y2);
      { SquareOfSum(r * x2, s * y2); Squares(r, x2); Squares(s, y2); Shuffle(r, x2, s, y2); }
      (r * r) * S2 + 2 * (s * (r * m2)) + y2 * y2;
    }
    CongMul(m, r * r, c.a, S2, S2);
    CongAdd(m, (r * r) * S2, c.a * S2, y2 * y2, y2 * y2);
    var t := 1 + d * (S2 * (y2 * y2));
    assert Cong(m, (r * r) * S2 + y2 * y2, t);
    CongMul(m, d * (m1 * m1), d * (m1 * m1), (r * r) * S2 + y2 * y2, t);
    RightExpand(d, m1, r * x2 + s * y2, (r * r) * S2 + y2 * y2, s, r, m2);
    var w := Cross(p, q);
    assert w == m1 * m2 by { CrossProduct(x1, y1, x2, y2); }
    CongMul(m, 2 * (s * (r * m1)), 2 * (s * (r * m1)), d * w, e);
    CongAdd(m, d * (m1 * m1) * ((r * r) * S2 + y2 * y2), d * (m1 * m1) * t,
            2 * (s * (r * m1)) * (d * w), 2 * (s * (r * m1)) * e);
    CongMul(m, d * w, e, d * w, e);
    LastStep(d, m1, m2, S2 * (y2 * y2), w, x2, y2);
    assert d * (m1 * m1) * t == d * (m1 * m1) + (d * w) * (d * w);
    CongAdd(m, d * (m1 * m1), d * (m1 * m1), (d * w) * (d * w), 1);
    CongAdd(m, d * (m1 * m1) * t, d * (m1 * m1) + 1, 2 * (s * (r * m1)) * e, 2 * (s * (r * m1)) * e);
    assert d * (m1 * m1) + 1 + 2 * (s * (r * m1)) * e == middle by {
      Squares(x1, y1);
      assert 2 * (s * (r * m1)) * e == 2 * (s * e * (r * m1)) by { Shuffle3(s, e, r * m1); }
    }
  }

  lemma SquareOfSum(u: int, v: int)
    ensures (u + v) * (u + v) == u * u + 2 * (u * v) + v * v
  {
  }

  lemma Squares(u: int, v: int)
    ensures (u * v) * (u * v) == (u * u) * (v * v)
  {
  }

  lemma UnitSquare(s: int, e: int)
    requires s * s == 1 && e * e == 1
    ensures (s * e) * (s * e) == 1
  {
    Squares(s, e);
  }

  lemma Shuffle(r: int, x: int, t: int, y: int)
    ensures (r * x) * (t * y) == t * (r * (x * y))
  {
  }

  lemma Shuffle3(s: int, e: int, k: int)
    ensures 2 * (s * k) * e == 2 * (s * e * k)
  {
  }

  lemma CrossProduct(x1: int, y1: int, x2: int, y2: int)
    ensures (x1 * y2) * (y1 * x2) == (x1 * y1) * (x2 * y2)
  {
  }

  lemma RightExpand(d: int, m1: int, z: int, u: int, s: int, r: int, m2: int)
    requires z * z == u + 2 * (s * (r * m2))
    ensures d * ((m1 * z) * (m1 * z)) == d * (m1 * m1) * u + 2 * (s * (r * m1)) * (d * (m1 * m2))
  {
    Squares(m1, z);
    calc {
      d * ((m1 * m1) * (z * z));
      d * (m1 * m1) * (z * z);
      d * (m1 * m1) * (u + 2 * (s * (r * m2)));
      d * (m1 * m1) * u + d * (m1 * m1) * (2 * (s * (r * m2)));
      { Regroup(d, m1, s, r, m2); }
      d * (m1 * m1) * u + 2 * (s * (r * m1)) * (d * (m1 * m2));
    }
  }

  lemma Regroup(d: int, m1: int, s: int, r: int, m2: int)
    ensures d * (m1 * m1) * (2 * (s * (r * m2))) == 2 * (s * (r * m1)) * (d * (m1 * m2))
  {
  }

  lemma LastStep(d: int, m1: int, m2: int, u: int, w: int, x2: int, y2: int)
    requires u == (x2 * x2) * (y2 * y2) && m2 == x2 * y2 && w == m1 * m2
    ensures d * (m1 * m1) * (1 + d * u) == d * (m1 * m1) + (d * w) * (d * w)
  {
    Squares(x2, y2);
    Squares(m1, m2);
    Squares(d, w);
    var k := m1 * m1;
    assert (d * w) * (d * w) == d * d * (k * u);
    assert d * k * (d * u) == d * d * (k * u);
  }

  /** d is not the square of a quotient. */
  lemma NotQuotient(c: Curve, left: int, right: int)
    requires Complete(c) && Cong(c.p, left * left, c.d * (right * right))
    ensures Cong(c.p, right, 0)
  {
    var m := c.p;
    if !Cong(m, right, 0) {
      PrimeInverse(m, right);
      var i := ModInv(right, m).value;
      CongMul(m, left * left, c.d * (right * right), i * i, i * i);
      CongMul(m, right * i, 1, right * i, 1);
      CongMul(m, c.d, c.d, (right * i) * (right * i), 1);
      Squares(left, i);
      Squares(right, i);
      assert c.d * (right * right) * (i * i) == c.d * ((right * right) * (i * i));
      assert Cong(m, (left * i) * (left * i), c.d);
    }
  }

  /** A unit value e of d*x1*x2*y1*y2 is impossible: both factors of the
      identity would vanish, and with them x2. */
  lemma NotUnit(c: Curve, p: Point, q: Point, e: int)
    requires Complete(c) && On(c, p.x, p.y) && On(c, q.x, q.y) && e * e == 1
    ensures !Cong(c.p, c.d * Cross(p, q), e)
  {
    var m := c.p;
    if Cong(m, c.d * Cross(p, q), e) {
      var r: int :| Cong(m, r * r, c.a);
      var m1 := p.x * p.y;
      CrossNonzero(c, p, q, e);
      SquareIdentity(c, p, q, r, e, 1);
      SquareIdentity(c, p, q, r, e, -1);
      var plus, minus := r * q.x + 1 * q.y, r * q.x + -1 * q.y;
      NotQuotient(c, r * p.x + 1 * e * p.y, m1 * plus);
      NotQuotient(c, r * p.x + -1 * e * p.y, m1 * minus);
      NoZeroDivisors(m, m1, plus);
      NoZeroDivisors(m, m1, minus);
      CongAdd(m, plus, 0, minus, 0);
      assert plus + minus == 2 * (r * q.x);
      NoZeroDivisors(m, 2, r * q.x);
      NoZeroDivisors(m, r, q.x);
      assert !Cong(m, 2, 0);
      if Cong(m, r, 0) {
        CongMul(m, r, 0, r, 0);
      }
      assert false;
    }
  }

  /** If d*x1*x2*y1*y2 is a unit then x1*y1 and x2 are not zero. */
  lemma CrossNonzero(c: Curve, p: Point, q: Point, e: int)
    requires Prime(c.p) && Cong(c.p, c.d * Cross(p, q), e) && e * e == 1
    ensures !Cong(c.p, p.x * p.y, 0) && !Cong(c.p, q.x, 0)
  {
    var m, m1 := c.p, p.x * p.y;
    CrossProduct(p.x, p.y, q.x, q.y);
    var rest := c.d * (q.x * q.y);
    assert c.d * Cross(p, q) == m1 * rest;
    assert c.d * Cross(p, q) == q.x * (c.d * (m1 * q.y));
    if Cong(m, m1, 0) {
      CongMul(m, m1, 0, rest, rest);
      ZeroIsNotUnit(m, e);
    }
    if Cong(m, q.x, 0) {
      CongMul(m, q.x, 0, c.d * (m1 * q.y), c.d * (m1 * q.y));
      ZeroIsNotUnit(m, e);
    }
  }

  lemma ZeroIsNotUnit(m: nat, e: int)
    requires m > 1 && e * e == 1
    ensures !Cong(m, e, 0)
  {
    if Cong(m, e, 0) {
      CongMul(m, e, 0, e, 0);
      assert false;
    }
  }

  lemma DenominatorsNonzero(c: Curve, p: Point, q: Point)
    requires Complete(c) && On(c, p.x, p.y) && On(c, q.x, q.y)
    ensures !Cong(c.p, 1 + c.d * Cross(p, q), 0) && !Cong(c.p, 1 - c.d * Cross(p, q), 0)
  {
    var t := c.d * Cross(p, q);
    NotUnit(c, p, q, 1);
    NotUnit(c, p, q, -1);
    if Cong(c.p, 1 + t, 0) {
      CongAdd(c.p, 1 + t, 0, 1, 1);
    }
    if Cong(c.p, 1 - t, 0) {
      CongAdd(c.p, 1, 1, 1 - t, 0);
    }
  }

  // ---- Closure ---------------------------------------------------------------------------

  /** (1+t1*t2)(1+t1)(1+t2) = (1-t1*t2)^2 + t1*(1+t2)^2 + t2*(1+t1)^2. */
  lemma ClosureCore(t1: int, t2: int)
    ensures (1 + t1 * t2) * ((1 + t1) * (1 + t2))
         == (1 - t1 * t2) * (1 - t1 * t2) + t1 * ((1 + t2) * (1 + t2)) + t2 * ((1 + t1) * (1 + t1))
  {
    ClosureLeft(t1, t2, t1 * t2);
    TimesSquareOfOnePlus(t1, t2);
    TimesSquareOfOnePlus(t2, t1);
    ClosureRight(t1, t2, t1 * t2);
  }

  lemma ClosureLeft(t1: int, t2: int, u: int)
    requires u == t1 * t2
    ensures (1 + u) * ((1 + t1) * (1 + t2)) == 1 + t1 + t2 + 2 * u + u * t1 + u * t2 + u * u
  {
    OnePlusProduct(t1, t2);
    FourTerms(u, t1, t2);
  }

  lemma FourTerms(u: int, t1: int, t2: int)
    ensures (1 + u) * (1 + t1 + t2 + u) == 1 + t1 + t2 + 2 * u + u * t1 + u * t2 + u * u
  {
  }

  lemma ClosureRight(t1: int, t2: int, u: int)
    ensures (1 - u) * (1 - u) + (t1 + 2 * u + u * t2) + (t2 + 2 * u + u * t1)
         == 1 + t1 + t2 + 2 * u + u * t1 + u * t2 + u * u
  {
    SquareOfDifference(1, u);
  }

  lemma OnePlusProduct(a: int, b: int)
    ensures (1 + a) * (1 + b) == 1 + a + b + a * b
  {
  }

  lemma TimesSquareOfOnePlus(a: int, b: int)
    ensures a * ((1 + b) * (1 + b)) == a + 2 * (a * b) + (a * b) * b
  {
    OnePlusProduct(b, b);
    assert a * (b * b) == (a * b) * b;
  }

  /** A = Nx^2, B = Ny^2 over denominators 1+t and 1-t. */
  lemma CombineFractions(aA: int, B: int, t: int)
    ensures aA * ((1 - t) * (1 - t)) + B * ((1 + t) * (1 + t)) == (1 + t * t) * (aA + B) + 2 * t * (B - aA)
  {
    var tt := t * t;
    assert (1 - t) * (1 - t) == 1 - 2 * t + tt;
    assert (1 + t) * (1 + t) == 1 + 2 * t + tt;
  }

  lemma XNumeratorSquare(x1: int, y1: int, x2: int, y2: int)
    ensures var nx := x1 * y2 + y1 * x2;
      nx * nx == (x1 * x1) * (y2 * y2) + 2 * ((x1 * y2) * (y1 * x2)) + (y1 * y1) * (x2 * x2)
  {
    SquareOfSum(x1 * y2, y1 * x2);
    Squares(x1, y2);
    Squares(y1, x2);
  }

  lemma YNumeratorSquare(a: int, x1: int, y1: int, x2: int, y2: int)
    ensures var ny := y1 * y2 - a * (x1 * x2);
      ny * ny == (y1 * y1) * (y2 * y2) - 2 * (a * ((x1 * y2) * (y1 * x2))) + (a * a) * ((x1 * x1) * (x2 * x2))
  {
    var u, v := y1 * y2, x1 * x2;
    SquareOfDifference(u, a * v);
    Squares(y1, y2);
    Squares(a, v);
    Squares(x1, x2);
    Shuffle4(u, a, v);
    CrossProduct(x1, y1, x2, y2);
    CrossOfProducts(x1, y1, x2, y2);
  }

  lemma SquareOfDifference(u: int, v: int)
    ensures (u - v) * (u - v) == u * u - 2 * (u * v) + v * v
  {
  }

  lemma CrossOfProducts(x1: int, y1: int, x2: int, y2: int)
    ensures (y1 * y2) * (x1 * x2) == (x1 * y2) * (y1 * x2)
  {
  }

  lemma Spread3(a: int, u: int, w: int, v: int)
    ensures a * (u + 2 * w + v) == a * u + 2 * (a * w) + a * v
  {
  }

  /** a*Nx^2 + Ny^2 = (a*x1^2 + y1^2)(a*x2^2 + y2^2), and
      Ny^2 - a*Nx^2 = (y1^2 - a*x1^2)(y2^2 - a*x2^2) - 4*a*w. */
  lemma NumeratorSquares(a: int, x1: int, y1: int, x2: int, y2: int)
    ensures var nx := x1 * y2 + y1 * x2;
      var ny := y1 * y2 - a * (x1 * x2);
      var w := (x1 * y2) * (y1 * x2);
      a * (nx * nx) + ny * ny == (a * (x1 * x1) + y1 * y1) * (a * (x2 * x2) + y2 * y2)
      && ny * ny - a * (nx * nx) == (y1 * y1 - a * (x1 * x1)) * (y2 * y2 - a * (x2 * x2)) - 4 * (a * w)
  {
    var w := (x1 * y2) * (y1 * x2);
    XNumeratorSquare(x1, y1, x2, y2);
    YNumeratorSquare(a, x1, y1, x2, y2);
    Spread3(a, (x1 * x1) * (y2 * y2), w, (y1 * y1) * (x2 * x2));
    ProductOfSums(a, x1 * x1, y1 * y1, x2 * x2, y2 * y2);
  }

  lemma Shuffle4(u: int, a: int, v: int)
    ensures u * (a * v) == a * (u * v)
  {
  }

  lemma ProductOfSums(a: int, X1: int, Y1: int, X2: int, Y2: int)
    ensures (a * X1 + Y1) * (a * X2 + Y2) == (a * a) * (X1 * X2) + a * (X1 * Y2) + a * (Y1 * X2) + Y1 * Y2
    ensures (Y1 - a * X1) * (Y2 - a * X2) == (a * a) * (X1 * X2) - a * (X1 * Y2) - a * (Y1 * X2) + Y1 * Y2
  {
    var A1, A2 := a * X1, a * X2;
    assert A1 * A2 == (a * a) * (X1 * X2);
    assert A1 * Y2 == a * (X1 * Y2);
    assert Y1 * A2 == a * (Y1 * X2);
  }

  /** (Nx*Ny)^2 in terms of m_i = x_i*y_i and R_i = y_i^2 - a*x_i^2. */
  lemma NumeratorProduct(a: int, x1: int, y1: int, x2: int, y2: int)
    ensures var nx := x1 * y2 + y1 * x2;
      var ny := y1 * y2 - a * (x1 * x2);
      nx * ny == (x1 * y1) * (y2 * y2 - a * (x2 * x2)) + (x2 * y2) * (y1 * y1 - a * (x1 * x1))
  {
    var u, v, s, t := x1 * y2, y1 * x2, y1 * y2, x1 * x2;
    FourProducts(u, v, s, a, t);
    CommonFactor(x1, y1, y2);
    CommonFactor(x2, y2, y1);
    CommonFactor(y2, x2, x1);
    CommonFactor(y1, x1, x2);
    SpreadDifference(x1 * y1, y2 * y2, a, x2 * x2);
    SpreadDifference(x2 * y2, y1 * y1, a, x1 * x1);
  }

  lemma FourProducts(u: int, v: int, s: int, a: int, t: int)
    ensures (u + v) * (s - a * t) == u * s + v * s - a * (u * t) - a * (v * t)
  {
    Shuffle4(u, a, t);
    Shuffle4(v, a, t);
    assert (u + v) * (s - a * t) == u * (s - a * t) + v * (s - a * t);
  }

  lemma CommonFactor(u: int, v: int, k: int)
    ensures (u * k) * (v * k) == (u * v) * (k * k)
  {
  }

  lemma SpreadDifference(m: int, u: int, a: int, v: int)
    ensures m * (u - a * v) == m * u - a * (m * v)
  {
    Shuffle4(m, a, v);
  }

  /** (y^2 - a*x^2)^2 = (a*x^2 + y^2)^2 - 4*a*(x*y)^2. */
  lemma DifferenceSquare(a: int, x: int, y: int)
    ensures var s, r := a * (x * x) + y * y, y * y - a * (x * x);
      r * r == s * s - 4 * (a * ((x * y) * (x * y)))
  {
    Squares(x, y);
    var u, v := a * (x * x), y * y;
    SquareOfSum(u, v);
    SquareOfSum(v, -u);
    assert u * v == a * ((x * x) * (y * y));
  }

  /** The curve equation of the sum, cleared of denominators, as an integer
      identity in S_i = a*x_i^2 + y_i^2 and q_i = (x_i*y_i)^2. */
  lemma ClearedEquation(c: Curve, p: Point, q: Point)
    ensures var nx, ny, t := Nx(p, q), Ny(c, p, q), c.d * Cross(p, q);
      var s1, s2 := c.a * (p.x * p.x) + p.y * p.y, c.a * (q.x * q.x) + q.y * q.y;
      var t1, t2 := c.d * ((p.x * p.y) * (p.x * p.y)), c.d * ((q.x * q.y) * (q.x * q.y));
      t * t == t1 * t2 &&
      c.a * (nx * nx) * ((1 - t) * (1 - t)) + (ny * ny) * ((1 + t) * (1 + t)) - c.d * ((nx * ny) * (nx * ny))
      == (1 + t1 * t2) * (s1 * s2) - t1 * (s2 * s2) - t2 * (s1 * s1)
  {
    var a, d := c.a, c.d;
    var nx, ny, w := Nx(p, q), Ny(c, p, q), Cross(p, q);
    var m1, m2 := p.x * p.y, q.x * q.y;
    var s1, s2 := a * (p.x * p.x) + p.y * p.y, a * (q.x * q.x) + q.y * q.y;
    var r1, r2 := p.y * p.y - a * (p.x * p.x), q.y * q.y - a * (q.x * q.x);
    NumeratorSquares(a, p.x, p.y, q.x, q.y);
    NumeratorProduct(a, p.x, p.y, q.x, q.y);
    DifferenceSquare(a, p.x, p.y);
    DifferenceSquare(a, q.x, q.y);
    CrossProduct(p.x, p.y, q.x, q.y);
    ClearedFrom(a, d, nx, ny, w, m1, m2, r1, r2, s1, s2);
  }

  lemma ClearedFrom(a: int, d: int, nx: int, ny: int, w: int, m1: int, m2: int, r1: int, r2: int, s1: int, s2: int)
    requires w == m1 * m2 && nx * ny == m1 * r2 + m2 * r1
    requires r1 * r1 == s1 * s1 - 4 * (a * (m1 * m1)) && r2 * r2 == s2 * s2 - 4 * (a * (m2 * m2))
    requires a * (nx * nx) + ny * ny == s1 * s2 && ny * ny - a * (nx * nx) == r1 * r2 - 4 * (a * w)
    ensures var t, t1, t2 := d * w, d * (m1 * m1), d * (m2 * m2);
      t * t == t1 * t2 &&
      a * (nx * nx) * ((1 - t) * (1 - t)) + (ny * ny) * ((1 + t) * (1 + t)) - d * ((nx * ny) * (nx * ny))
      == (1 + t1 * t2) * (s1 * s2) - t1 * (s2 * s2) - t2 * (s1 * s1)
  {
    var t, t1, t2 := d * w, d * (m1 * m1), d * (m2 * m2);
    Assemble(a, d, w, m1, m2, r1, r2, s1, s2, nx * ny);
    Finish(a * (nx * nx), ny * ny, t, d, nx * ny, s1 * s2, r1 * r2 - 4 * (a * w), -t1 * (s2 * s2) - t2 * (s1 * s1));
    SquareOfTerm(d, m1, m2);
  }

  lemma SquareOfTerm(d: int, m1: int, m2: int)
    ensures (d * (m1 * m2)) * (d * (m1 * m2)) == (d * (m1 * m1)) * (d * (m2 * m2))
  {
    Squares(d, m1 * m2);
    Squares(m1, m2);
    var q1, q2 := m1 * m1, m2 * m2;
    assert (d * q1) * (d * q2) == (d * d) * (q1 * q2);
  }

  lemma Finish(aa: int, bb: int, t: int, d: int, n: int, sum: int, diff: int, rest: int)
    requires aa + bb == sum && bb - aa == diff && 2 * t * diff - d * (n * n) == rest
    ensures aa * ((1 - t) * (1 - t)) + bb * ((1 + t) * (1 + t)) - d * (n * n) == (1 + t * t) * sum + rest
  {
    CombineFractions(aa, bb, t);
  }

  lemma Assemble(a: int, d: int, w: int, m1: int, m2: int, r1: int, r2: int, s1: int, s2: int, n: int)
    requires w == m1 * m2 && n == m1 * r2 + m2 * r1
    requires r1 * r1 == s1 * s1 - 4 * (a * (m1 * m1)) && r2 * r2 == s2 * s2 - 4 * (a * (m2 * m2))
    ensures 2 * (d * w) * (r1 * r2 - 4 * (a * w)) - d * (n * n)
         == -(d * (m1 * m1)) * (s2 * s2) - (d * (m2 * m2)) * (s1 * s1)
  {
    var q1, q2, k := m1 * m1, m2 * m2, a * (w * w);
    var rr, u1, u2 := r1 * r2, q1 * (s2 * s2), q2 * (s1 * s1);
    assert n * n == q1 * (r2 * r2) + 2 * (w * rr) + q2 * (r1 * r1) by {
      SquareOfSum(m1 * r2, m2 * r1);
      Squares(m1, r2);
      Squares(m2, r1);
      Interleave(m1, r2, m2, r1);
    }
    assert q1 * (a * q2) == k && q2 * (a * q1) == k by {
      Squares(m1, m2);
      Shuffle4(q1, a, q2);
      Shuffle4(q2, a, q1);
    }
    Spread(q1, s2 * s2, a * q2);
    Spread(q2, s1 * s1, a * q1);
    assert n * n == u1 + u2 + 2 * (w * rr) - 8 * k;
    FinalSpread(d, w, rr, a, u1, u2, k);
    Reassociate(d, q1, s2 * s2);
    Reassociate(d, q2, s1 * s1);
  }

  lemma Interleave(m1: int, r2: int, m2: int, r1: int)
    ensures (m1 * r2) * (m2 * r1) == (m1 * m2) * (r1 * r2)
  {
  }

  lemma Reassociate(d: int, q: int, s: int)
    ensures -(d * q) * s == -(d * (q * s)) && (d * q) * s == d * (q * s)
  {
  }

  lemma Spread(q: int, u: int, v: int)
    ensures q * (u - 4 * v) == q * u - 4 * (q * v)
  {
  }

  lemma OneTerm(t: int, rr: int, v: int)
    ensures 2 * t * (rr - 4 * v) == 2 * (t * rr) - 8 * (t * v)
  {
  }

  lemma SharedFactor(d: int, w: int, a: int)
    ensures (d * w) * (a * w) == d * (a * (w * w))
  {
  }

  lemma SpreadSum(d: int, u1: int, u2: int, x: int, k: int)
    ensures d * (u1 + u2 + 2 * x - 8 * k) == d * u1 + d * u2 + 2 * (d * x) - 8 * (d * k)
  {
  }

  lemma FinalSpread(d: int, w: int, rr: int, a: int, u1: int, u2: int, k: int)
    requires k == a * (w * w)
    ensures 2 * (d * w) * (rr - 4 * (a * w)) - d * (u1 + u2 + 2 * (w * rr) - 8 * k) == - (d * u1) - (d * u2)
  {
    OneTerm(d * w, rr, a * w);
    SharedFactor(d, w, a);
    Reassociate(d, w, rr);
    SpreadSum(d, u1, u2, w * rr, k);
  }

  /** With S_i congruent to 1 + t_i the cleared equation is (1 - t1*t2)^2. */
  lemma SubstituteCurve(m: nat, s1: int, s2: int, t1: int, t2: int)
    requires m > 0 && Cong(m, s1, 1 + t1) && Cong(m, s2, 1 + t2)
    ensures Cong(m, (1 + t1 * t2) * (s1 * s2) - t1 * (s2 * s2) - t2 * (s1 * s1), (1 - t1 * t2) * (1 - t1 * t2))
  {
    var u1, u2 := 1 + t1, 1 + t2;
    CongMul(m, s1, u1, s2, u2);
    CongMul(m, s1, u1, s1, u1);
    CongMul(m, s2, u2, s2, u2);
    CongMul(m, 1 + t1 * t2, 1 + t1 * t2, s1 * s2, u1 * u2);
    CongMul(m, t1, t1, s2 * s2, u2 * u2);
    CongMul(m, t2, t2, s1 * s1, u1 * u1);
    CongAdd(m, (1 + t1 * t2) * (s1 * s2), (1 + t1 * t2) * (u1 * u2), t1 * (s2 * s2), t1 * (u2 * u2));
    CongAdd(m, (1 + t1 * t2) * (s1 * s2) - t1 * (s2 * s2), (1 + t1 * t2) * (u1 * u2) - t1 * (u2 * u2),
            t2 * (s1 * s1), t2 * (u1 * u1));
    ClosureCore(t1, t2);
  }

  /** Multiplying the curve equation of r by the squared denominators. */
  lemma ClearDenominators(m: nat, a: int, d: int, x: int, y: int, pos: int, neg: int, nx: int, ny: int)
    requires m > 0 && Cong(m, x * pos, nx) && Cong(m, y * neg, ny)
    ensures var k := (pos * neg) * (pos * neg);
      Cong(m, (a * (x * x) + y * y) * k, a * (nx * nx) * (neg * neg) + (ny * ny) * (pos * pos))
      && Cong(m, (1 + d * ((x * x) * (y * y))) * k, k + d * ((nx * ny) * (nx * ny)))
  {
    var k, xx, yy, pp, nn := (pos * neg) * (pos * neg), x * x, y * y, pos * pos, neg * neg;
    Squares(pos, neg);
    Squares(x, pos);
    Squares(y, neg);
    CongMul(m, x * pos, nx, x * pos, nx);
    CongMul(m, y * neg, ny, y * neg, ny);
    assert Cong(m, xx * pp, nx * nx) && Cong(m, yy * nn, ny * ny);
    CongMul(m, a * nn, a * nn, xx * pp, nx * nx);
    CongMul(m, yy * nn, ny * ny, pp, pp);
    CongAdd(m, a * nn * (xx * pp), a * nn * (nx * nx), yy * nn * pp, ny * ny * pp);
    ClearLeft(a, xx, yy, pp, nn, nx * nx);
    CongMul(m, xx * pp, nx * nx, yy * nn, ny * ny);
    CongMul(m, d, d, (xx * pp) * (yy * nn), (nx * nx) * (ny * ny));
    CongAdd(m, k, k, d * ((xx * pp) * (yy * nn)), d * ((nx * nx) * (ny * ny)));
    Squares(nx, ny);
    ClearRight(d, xx, yy, pp, nn);
  }

  lemma ClearLeft(a: int, xx: int, yy: int, pp: int, nn: int, n: int)
    ensures (a * xx + yy) * (pp * nn) == a * nn * (xx * pp) + yy * nn * pp
    ensures a * nn * n == a * n * nn
  {
    assert a * xx * (pp * nn) == a * nn * (xx * pp) by {
      var u := xx * pp;
      assert xx * (pp * nn) == u * nn;
      assert a * xx * (pp * nn) == a * (xx * (pp * nn));
      assert a * nn * u == a * (u * nn);
    }
    assert yy * (pp * nn) == yy * nn * pp;
  }

  lemma ClearRight(d: int, xx: int, yy: int, pp: int, nn: int)
    ensures (1 + d * (xx * yy)) * (pp * nn) == pp * nn + d * ((xx * pp) * (yy * nn))
  {
    Interleave(xx, pp, yy, nn);
    Interleave(xx, yy, pp, nn);
    assert (xx * pp) * (yy * nn) == (xx * yy) * (pp * nn);
    Reassociate(d, xx * yy, pp * nn);
  }

  /** The sum of two curve points is a curve point. */
  lemma SumOnCurve(c: Curve, p: Point, q: Point, r: Point)
    requires Complete(c) && On(c, p.x, p.y) && On(c, q.x, q.y) && IsSum(c, p, q, r)
    ensures On(c, r.x, r.y)
  {
    var m, nx, ny, t := c.p, Nx(p, q), Ny(c, p, q), c.d * Cross(p, q);
    var s1, s2 := c.a * (p.x * p.x) + p.y * p.y, c.a * (q.x * q.x) + q.y * q.y;
    var t1, t2 := c.d * ((p.x * p.y) * (p.x * p.y)), c.d * ((q.x * q.y) * (q.x * q.y));
    Squares(p.x, p.y);
    Squares(q.x, q.y);
    SubstituteCurve(m, s1, s2, t1, t2);
    ClearedEquation(c, p, q);
    var pos, neg := 1 + t, 1 - t;
    ClearDenominators(m, c.a, c.d, r.x, r.y, pos, neg, nx, ny);
    var k, left := (pos * neg) * (pos * neg), c.a * (nx * nx) * (neg * neg) + (ny * ny) * (pos * pos);
    var prod := c.d * ((nx * ny) * (nx * ny));
    assert pos * neg == 1 - t * t;
    assert Cong(m, left - prod, k);
    CongAdd(m, left - prod, k, prod, prod);
    DenominatorsNonzero(c, p, q);
    if Cong(m, k, 0) {
      NoZeroDivisors(m, pos * neg, pos * neg);
      NoZeroDivisors(m, pos, neg);
    }
    Cancel(m, k, c.a * (r.x * r.x) + r.y * r.y, 1 + c.d * ((r.x * r.x) * (r.y * r.y)));
  }

  /** Completeness and closure of `add`: on curve points it never raises and
      returns the reduced curve point of the addition formula. */
  lemma AddComplete(c: Curve, p: Point, q: Point)
    requires Complete(c) && InCurve(c, p) && InCurve(c, q)
    ensures Add(c, p, q).Some? && IsSum(c, p, q, Add(c, p, q).value) && InCurve(c, Add(c, p, q).value)
  {
    InCurveIsOn(c, p);
    InCurveIsOn(c, q);
    DenominatorsNonzero(c, p, q);
    AddComputes(c, p, q);
    var r := Add(c, p, q).value;
    SumOnCurve(c, p, q, r);
    InCurveIsOn(c, r);
  }
}
