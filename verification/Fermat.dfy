/** Powers, and Fermat's little theorem by the binomial theorem. */
module Fermat {
  import opened Field

  function Pow(x: int, n: nat): int {
    if n == 0 then 1 else x * Pow(x, n - 1)
  }

  lemma {:induction false} PowSum(x: int, m: nat, n: nat)
    ensures Pow(x, m + n) == Pow(x, m) * Pow(x, n)
  {
    if m > 0 {
      PowSum(x, m - 1, n);
      assert x * (Pow(x, m - 1) * Pow(x, n)) == (x * Pow(x, m - 1)) * Pow(x, n);
    }
  }

  lemma {:induction false} PowProduct(x: int, m: nat, n: nat)
    ensures m * n >= 0 && Pow(x, m * n) == Pow(Pow(x, m), n)
  {
    if n > 0 {
      PowProduct(x, m, n - 1);
      assert m * n == m + m * (n - 1);
      PowSum(x, m, m * (n - 1));
    } else {
      assert m * 0 == 0;
    }
  }

  lemma {:induction false} PowCong(p: nat, x: int, y: int, n: nat)
    requires p > 0 && Cong(p, x, y)
    ensures Cong(p, Pow(x, n), Pow(y, n))
  {
    if n > 0 {
      PowCong(p, x, y, n - 1);
      CongMul(p, x, y, Pow(x, n - 1), Pow(y, n - 1));
    }
  }

  lemma {:induction false} PowOne(n: nat)
    ensures Pow(1, n) == 1
  {
    if n > 0 {
      PowOne(n - 1);
    }
  }

  // ---- Binomial coefficients -----------------------------------------------------------

  function Choose(n: nat, k: nat): nat {
    if k == 0 then 1
    else if n == 0 then 0
    else Choose(n - 1, k) + Choose(n - 1, k - 1)
  }

  lemma {:induction false} ChooseBeyond(n: nat, k: nat)
    requires k > n
    ensures Choose(n, k) == 0
  {
    if n > 0 {
      ChooseBeyond(n - 1, k);
      ChooseBeyond(n - 1, k - 1);
    }
  }

  lemma {:induction false} ChooseAll(n: nat)
    ensures Choose(n, n) == 1
  {
    if n > 0 {
      ChooseAll(n - 1);
      ChooseBeyond(n - 1, n);
    }
  }

  lemma AbsorbSum(n: int, k: int, a: int, b: int, d: int)
    requires k * a == (n - 1) * b && (k - 1) * (b + d) == (n - 1) * d
    ensures k * (a + (b + d)) == n * (b + d)
  {
    var s := b + d;
    assert k * (a + s) == k * a + k * s;
    assert k * s == (k - 1) * s + s && n * s == (n - 1) * s + s;
    assert (n - 1) * s == (n - 1) * b + (n - 1) * d;
  }

  /** k * C(n, k) == n * C(n - 1, k - 1). */
  lemma {:induction false} Absorb(n: nat, k: nat)
    requires n > 0 && k > 0
    ensures k * Choose(n, k) == n * Choose(n - 1, k - 1)
  {
    if n == 1 {
      if k > 1 {
        ChooseBeyond(1, k);
        ChooseBeyond(0, k - 1);
      }
    } else if k == 1 {
      Absorb(n - 1, 1);
    } else {
      Absorb(n - 1, k);
      Absorb(n - 1, k - 1);
      var a, b, d := Choose(n - 1, k), Choose(n - 2, k - 1), Choose(n - 2, k - 2);
      assert Choose(n - 1, k - 1) == b + d;
      AbsorbSum(n, k, a, b, d);
    }
  }

  /** The first terms of the expansion of (x + 1)^n, up to x^k. */
  function Terms(n: nat, x: int, k: nat): int {
    Choose(n, k) * Pow(x, k) + if k == 0 then 0 else Terms(n, x, k - 1)
  }

  lemma {:induction false} TermsStep(n: nat, x: int, k: nat)
    requires n > 0 && k > 0
    ensures Terms(n, x, k) == Terms(n - 1, x, k) + x * Terms(n - 1, x, k - 1)
  {
    var q := Pow(x, k - 1);
    var a, b := Choose(n - 1, k), Choose(n - 1, k - 1);
    TermProduct(a, b, x, q);
    if k > 1 {
      TermsStep(n, x, k - 1);
      TimesSum(x, b * q, Terms(n - 1, x, k - 2));
    }
  }

  lemma TermProduct(a: int, b: int, x: int, q: int)
    ensures (a + b) * (x * q) == a * (x * q) + x * (b * q)
  {
    assert b * (x * q) == x * (b * q);
  }

  lemma TimesSum(x: int, u: int, v: int)
    ensures x * (u + v) == x * u + x * v
  {
  }

  /** The binomial theorem for x + 1. */
  lemma {:induction false} Binomial(x: int, n: nat)
    ensures Pow(x + 1, n) == Terms(n, x, n)
  {
    if n > 0 {
      Binomial(x, n - 1);
      TermsStep(n, x, n);
      ChooseBeyond(n - 1, n);
      assert (x + 1) * Terms(n - 1, x, n - 1) == Terms(n - 1, x, n - 1) + x * Terms(n - 1, x, n - 1);
    }
  }

  // ---- Modulo a prime --------------------------------------------------------------------

  /** A prime divides its inner binomial coefficients. */
  lemma ChoosePrime(p: nat, k: nat)
    requires Prime(p) && 0 < k < p
    ensures Cong(p, Choose(p, k), 0)
  {
    var c, d := Choose(p, k), Choose(p - 1, k - 1);
    Absorb(p, k);
    CongIntro(p, k * c, 0, d);
    NoZeroDivisors(p, k, c);
    BelowNonzero(p, k);
  }

  lemma BelowNonzero(p: nat, k: nat)
    requires 0 < k < p
    ensures !Cong(p, k, 0)
  {
  }

  lemma {:induction false} InnerTermsVanish(p: nat, x: int, k: nat)
    requires Prime(p) && k < p
    ensures Cong(p, Terms(p, x, k), 1)
  {
    if k > 0 {
      InnerTermsVanish(p, x, k - 1);
      ChoosePrime(p, k);
      CongMul(p, Choose(p, k), 0, Pow(x, k), Pow(x, k));
      CongAdd(p, Choose(p, k) * Pow(x, k), 0, Terms(p, x, k - 1), 1);
    } else {
      assert Terms(p, x, 0) == 1 * 1;
    }
  }

  /** Fermat's little theorem: x^p is x mod p. */
  lemma {:induction false} FermatLittle(p: nat, x: nat)
    requires Prime(p)
    ensures Cong(p, Pow(x, p), x)
  {
    if x == 0 {
      assert Pow(0, p) == 0 * Pow(0, p - 1) == 0;
    } else {
      FermatLittle(p, x - 1);
      Binomial(x - 1, p);
      ChooseAll(p);
      InnerTermsVanish(p, x - 1, p - 1);
      assert Terms(p, x - 1, p) == 1 * Pow(x - 1, p) + Terms(p, x - 1, p - 1);
      CongAdd(p, Pow(x - 1, p), x - 1, Terms(p, x - 1, p - 1), 1);
    }
  }

  /** x^(p-1) is 1 mod p for a nonzero residue x. */
  lemma FermatUnit(p: nat, x: nat)
    requires Prime(p) && 0 < x < p
    ensures Cong(p, Pow(x, p - 1), 1)
  {
    BelowNonzero(p, x);
    FermatLittle(p, x);
    assert Pow(x, p) == x * Pow(x, p - 1) == Pow(x, p - 1) * x && 1 * x == x;
    Cancel(p, x, Pow(x, p - 1), 1);
  }

  /** Exponents congruent to 1 mod p - 1 leave every residue as it is. */
  lemma PowerIsIdentity(p: nat, x: nat, n: nat, m: nat)
    requires Prime(p) && x < p && n == (p - 1) * m + 1
    ensures Cong(p, Pow(x, n), x)
  {
    if x == 0 {
      assert Pow(0, n) == 0 * Pow(0, n - 1) == 0;
    } else {
      FermatUnit(p, x);
      PowProduct(x, p - 1, m);
      PowCong(p, Pow(x, p - 1), 1, m);
      PowOne(m);
      CongMul(p, x, x, Pow(x, (p - 1) * m), 1);
    }
  }
}
