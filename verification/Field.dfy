/** Arithmetic modulo a prime, as far as the curve needs it. */
module Field {
  import opened Base

  ghost predicate Prime(p: nat) {
    p >= 2 && forall k :: 2 <= k < p ==> p % k != 0
  }

  /** Congruence of integers. */
  ghost predicate Cong(p: nat, a: int, b: int)
    requires p > 0
  {
    a % p == b % p
  }

  lemma CongIntro(p: nat, a: int, b: int, k: int)
    requires p > 0 && a == b + p * k
    ensures Cong(p, a, b)
  {
    var q := a / p - b / p - k;
    assert p * q == b % p - a % p;
    if q >= 1 {
      MulLe(1, q, p);
      assert false;
    } else if q <= -1 {
      MulLe(q, -1, p);
      assert false;
    }
  }

  lemma CongWitness(p: nat, a: int, b: int) returns (k: int)
    requires p > 0 && Cong(p, a, b)
    ensures a == b + p * k
  {
    k := a / p - b / p;
  }

  lemma CongMod(p: nat, a: int)
    requires p > 0
    ensures Cong(p, a % p, a)
  {
    CongIntro(p, a % p, a, -(a / p));
  }

  lemma CongAdd(p: nat, a: int, b: int, c: int, d: int)
    requires p > 0 && Cong(p, a, b) && Cong(p, c, d)
    ensures Cong(p, a + c, b + d) && Cong(p, a - c, b - d)
  {
    var k := CongWitness(p, a, b);
    var l := CongWitness(p, c, d);
    CongIntro(p, a + c, b + d, k + l);
    CongIntro(p, a - c, b - d, k - l);
  }

  lemma CongMul(p: nat, a: int, b: int, c: int, d: int)
    requires p > 0 && Cong(p, a, b) && Cong(p, c, d)
    ensures Cong(p, a * c, b * d)
  {
    var k := CongWitness(p, a, b);
    var l := CongWitness(p, c, d);
    calc {
      a * c;
      (b + p * k) * (d + p * l);
      b * d + p * (b * l + k * d + k * (p * l));
    }
    CongIntro(p, a * c, b * d, b * l + k * d + k * (p * l));
  }

  /** Reduced residues that are congruent are equal. */
  lemma CongEqual(p: nat, a: int, b: int)
    requires p > 0 && Cong(p, a, b) && 0 <= a < p && 0 <= b < p
    ensures a == b
  {
  }

  // ---- Inverses --------------------------------------------------------------

  /** Extended Euclid: a common divisor g of a and b with g == s*a + t*b. */
  function Egcd(a: nat, b: nat): (r: (nat, int, int))
    ensures r.0 == r.1 * a + r.2 * b
    decreases b
  {
    if b == 0 then (a, 1, 0)
    else
      var (g, s, t) := Egcd(b, a % b);
      assert t * a + (s - a / b * t) * b == s * b + t * (a % b) by {
        assert a == a / b * b + a % b;
        EgcdStep(a, b, a / b, a % b, s, t);
      }
      (g, t, s - a / b * t)
  }

  lemma EgcdStep(a: int, b: int, q: int, m: int, s: int, t: int)
    requires a == q * b + m
    ensures t * a + (s - q * t) * b == s * b + t * m
  {
    calc {
      t * a + (s - q * t) * b;
      t * (q * b + m) + s * b - q * t * b;
      { assert t * (q * b + m) == t * (q * b) + t * m; assert t * (q * b) == q * t * b; }
      s * b + t * m;
    }
  }

  ghost predicate Divides(g: int, a: int) {
    exists k: int :: a == g * k
  }

  lemma DividesSum(g: int, q: int, b: int, m: int)
    requires Divides(g, b) && Divides(g, m)
    ensures Divides(g, q * b + m)
  {
    var k :| b == g * k;
    var l :| m == g * l;
    SumOfMultiples(g, q, k, l);
    assert q * b + m == g * (q * k + l);
  }

  lemma SumOfMultiples(g: int, q: int, k: int, l: int)
    ensures q * (g * k) + g * l == g * (q * k + l)
  {
    assert q * (g * k) == g * (q * k);
  }

  lemma DividesItself(g: int)
    ensures Divides(g, g) && Divides(g, 0)
  {
    assert g == g * 1 && 0 == g * 0;
  }

  lemma {:induction false} EgcdDivides(a: nat, b: nat)
    ensures Divides(Egcd(a, b).0, a) && Divides(Egcd(a, b).0, b)
    decreases b
  {
    if b == 0 {
      DividesItself(a);
    } else {
      EgcdDivides(b, a % b);
      DividesSum(Egcd(a, b).0, a / b, b, a % b);
      assert a == a / b * b + a % b;
    }
  }

  /** Python's `pow(a, -1, m)`: the inverse in [0, m), or ValueError. */
  function ModInv(a: int, m: nat): (r: Option<nat>)
    requires m > 1
    ensures r.Some? ==> r.value < m && Cong(m, a * r.value, 1)
    ensures r.None? ==> forall b: int :: !Cong(m, a * b, 1)
  {
    var (g, s, t) := Egcd(a % m, m);
    EgcdDivides(a % m, m);
    if g == 1 then
      InverseOf(a, m, s, t);
      Some(s % m)
    else
      NoInverse(a, m, g);
      None
  }

  lemma InverseOf(a: int, m: nat, s: int, t: int)
    requires m > 1 && s * (a % m) + t * m == 1
    ensures Cong(m, a * (s % m), 1)
  {
    CongMod(m, a);
    CongMod(m, s);
    CongMul(m, a % m, a, s % m, s);
    CongMul(m, a, a % m, s % m, s);
    assert (a % m) * s == 1 + m * (-t);
    CongIntro(m, (a % m) * s, 1, -t);
  }

  lemma CombinationFactors(g: int, v: int, q: int, u: int, b: int, k: int)
    ensures ((g * v) * q + g * u) * b - (g * v) * k == g * ((v * q + u) * b - v * k)
  {
    var n := v * q + u;
    assert (g * v) * q + g * u == g * n;
    assert (g * n) * b == g * (n * b) && (g * v) * k == g * (v * k);
  }

  lemma NoInverse(a: int, m: nat, g: nat)
    requires m > 1 && g != 1 && Divides(g, a % m) && Divides(g, m)
    ensures forall b: int :: !Cong(m, a * b, 1)
  {
    forall b: int ensures !Cong(m, a * b, 1) {
      if Cong(m, a * b, 1) {
        var k := CongWitness(m, a * b, 1);
        var u :| a % m == g * u;
        var v :| m == g * v;
        var q := a / m;
        assert a == m * q + g * u;
        CombinationFactors(g, v, q, u, b, k);
        DividesOne(g, (v * q + u) * b - v * k);
      }
    }
  }

  lemma DividesOne(g: nat, n: int)
    requires 1 == g * n
    ensures g == 1
  {
    if g >= 2 {
      if n >= 1 {
        MulLe(1, n, g);
      } else {
        MulLe(n, 0, g);
      }
      assert false;
    }
  }

  lemma PositiveFactor(r: nat, g: nat, k: int)
    requires r > 0 && r == g * k
    ensures 1 <= g <= r
  {
    if k <= 0 {
      MulLe(k, 0, g);
    } else {
      MulLe(1, k, g);
    }
  }

  lemma PrimeCoprime(p: nat, r: nat)
    requires Prime(p) && 0 < r < p
    ensures Egcd(r, p).0 == 1
  {
    var g := Egcd(r, p).0;
    EgcdDivides(r, p);
    var k :| r == g * k;
    var l :| p == g * l;
    PositiveFactor(r, g, k);
    CongIntro(g, p, 0, l);
  }

  /** Every nonzero residue of a prime has an inverse. */
  lemma PrimeInverse(p: nat, a: int)
    requires Prime(p) && !Cong(p, a, 0)
    ensures ModInv(a, p).Some?
  {
    PrimeCoprime(p, a % p);
  }

  /** Euclid's lemma: no zero divisors. */
  lemma NoZeroDivisors(p: nat, a: int, b: int)
    requires Prime(p) && Cong(p, a * b, 0)
    ensures Cong(p, a, 0) || Cong(p, b, 0)
  {
    if !Cong(p, a, 0) {
      PrimeInverse(p, a);
      var i := ModInv(a, p).value;
      CongMul(p, a * b, 0, i, i);
      CongMul(p, a * i, 1, b, b);
      assert a * b * i == a * i * b;
    }
  }

  /** A nonzero factor cancels. */
  lemma Cancel(p: nat, c: int, a: int, b: int)
    requires Prime(p) && !Cong(p, c, 0) && Cong(p, a * c, b * c)
    ensures Cong(p, a, b)
  {
    CongAdd(p, a * c, b * c, b * c, b * c);
    assert a * c - b * c == (a - b) * c;
    NoZeroDivisors(p, a - b, c);
    CongAdd(p, a - b, 0, b, b);
  }

  ghost predicate Square(p: nat, a: int)
    requires p > 0
  {
    exists r: int :: Cong(p, r * r, a)
  }
}
