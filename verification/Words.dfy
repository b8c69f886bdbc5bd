/** Python integers used as 64-bit words: masking, xor and rotation (_blake1.py). */
module Words {
  import opened Base
  import opened Encoding

  const W: nat := 0x1_0000_0000_0000_0000

  type Word = x: nat | x < W

  /** `_u64`: x & 0xFFFFFFFFFFFFFFFF, of any integer. */
  function U64(x: int): Word {
    x % W
  }

  /** `x ^ y`. */
  function XorNat(x: nat, y: nat): nat
    decreases x + y
  {
    if x == 0 then y
    else if y == 0 then x
    else 2 * XorNat(x / 2, y / 2) + (x + y) % 2
  }

  lemma XorUnfold(x: nat, y: nat)
    ensures XorNat(x, y) == 2 * XorNat(x / 2, y / 2) + (x + y) % 2
  {
  }

  lemma {:induction false} XorBound(x: nat, y: nat, k: nat)
    requires x < Pow2(k) && y < Pow2(k)
    ensures XorNat(x, y) < Pow2(k)
    decreases k
  {
    if k > 0 {
      XorBound(x / 2, y / 2, k - 1);
      XorUnfold(x, y);
    }
  }

  lemma HalfAndParity(z: nat, h: nat, x: nat, y: nat)
    requires z == 2 * h + (x + y) % 2
    ensures z / 2 == h && 2 * (x / 2) + (z + y) % 2 == x
  {
  }

  lemma {:induction false} XorCancels(x: nat, y: nat)
    ensures XorNat(XorNat(x, y), y) == x
    decreases x + y
  {
    if x > 0 && y > 0 {
      var h, z := XorNat(x / 2, y / 2), XorNat(x, y);
      XorCancels(x / 2, y / 2);
      HalfAndParity(z, h, x, y);
      XorUnfold(z, y);
    } else if y > 0 {
      XorSelf(y);
    }
  }

  lemma {:induction false} XorSwaps(x: nat, y: nat)
    ensures XorNat(x, y) == XorNat(y, x)
    decreases x + y
  {
    if x > 0 && y > 0 {
      XorSwaps(x / 2, y / 2);
    }
  }

  lemma {:induction false} XorSelf(y: nat)
    ensures XorNat(y, y) == 0
  {
    if y > 0 {
      XorSelf(y / 2);
    }
  }

  lemma Pow2Of64()
    ensures Pow2(64) == W
  {
    assert Pow2(4) == 16;
    Pow2Sum(4, 4);
    assert Pow2(8) == 0x100;
    Pow2Sum(8, 8);
    assert Pow2(16) == 0x1_0000;
    Pow2Sum(16, 16);
    assert Pow2(32) == 0x1_0000_0000;
    Pow2Sum(32, 32);
  }

  lemma DoubleLeft(a: int, b: int)
    ensures (2 * a) * b == 2 * (a * b)
  {
  }

  lemma {:induction false} Pow2Sum(m: nat, n: nat)
    ensures Pow2(m + n) == Pow2(m) * Pow2(n)
  {
    if m > 0 {
      Pow2Sum(m - 1, n);
      Pow2Double(m - 1);
      Pow2Double(m - 1 + n);
      DoubleLeft(Pow2(m - 1), Pow2(n));
    }
  }

  function Xor(x: Word, y: Word): Word {
    Pow2Of64();
    XorBound(x, y, 64);
    XorNat(x, y)
  }

  // ---- Rotation --------------------------------------------------------------------

  lemma OrEven(a: nat, t: nat)
    ensures Or(a, 2 * t) == 2 * Or(a / 2, t) + a % 2
  {
    if t > 0 {
      OrDouble(a, t);
    } else if a > 0 {
      assert Or(a, 0) == a && Or(a / 2, 0) == a / 2;
    }
  }

  lemma Doubled(b: nat, h: nat)
    ensures b * (2 * h) == 2 * (b * h) && b * h >= 0
  {
    MulLe(0, h, b);
  }

  /** Or of a value below 2^k with a multiple of 2^k is their sum. */
  lemma {:induction false} OrDisjoint(a: nat, b: nat, k: nat)
    requires a < Pow2(k)
    ensures b * Pow2(k) >= 0 && Or(a, b * Pow2(k)) == a + b * Pow2(k)
  {
    if k == 0 {
      assert a == 0 && b * 1 == b;
    } else {
      var h := Pow2(k - 1);
      Pow2Double(k - 1);
      OrDisjoint(a / 2, b, k - 1);
      Doubled(b, h);
      OrEven(a, b * h);
    }
  }

  /** Left shift of a non-negative integer. */
  function Shl(x: nat, s: nat): nat {
    MulLe(0, s, x);
    x * s
  }

  /** Right shift of a non-negative integer. */
  function Shr(x: nat, s: nat): nat
    requires s > 0
  {
    x / s
  }

  lemma QuotientBound(x: nat, p: nat, s: nat)
    requires p > 0 && x < p * s
    ensures x / p < s
  {
    if x / p >= s {
      MulLe(s, x / p, p);
      assert false;
    }
  }

  lemma Distribute(u: int, v: int, s: int)
    ensures (u + v) * s == u * s + v * s
  {
  }

  /** (p*q + r)*s plus q is (p*s)*q plus a remainder below p*s. */
  lemma ShiftedSplit(p: nat, q: nat, r: nat, s: nat)
    requires r < p && q < s
    ensures q + (p * q + r) * s == (p * s) * q + (q + r * s) && 0 <= q + r * s < p * s
  {
    Distribute(p * q, r, s);
    assert (p * q) * s == (p * s) * q;
    MulLe(r + 1, p, s);
    Distribute(r, 1, s);
    assert s * (r + 1) == r * s + s && s * p == p * s;
    MulLe(0, r, s);
    assert s * r == r * s;
  }

  /** Or of x >> n and x << k, masked to n + k bits, for p = 2^n and s = 2^k:
      x = p*q + r becomes r*s + q. */
  lemma OrMasked(x: nat, p: nat, q: nat, r: nat, s: nat, k: nat)
    requires s == Pow2(k) && x == p * q + r && r < p && q < s
    ensures 0 <= q + r * s < p * s && Or(q, Shl(x, s)) % (p * s) == q + r * s
  {
    OrDisjoint(q, x, k);
    ShiftedSplit(p, q, r, s);
    DivModUnique(q + Shl(x, s), p * s, q, q + r * s);
  }

  lemma Parts(x: nat, p: nat, s: nat) returns (q: nat, r: nat)
    requires p > 0 && x < p * s
    ensures x == p * q + r && r < p && q < s && Shr(x, p) == q
  {
    q, r := x / p, x % p;
    QuotientBound(x, p, s);
  }

  /** One masked rotation swaps the two parts of x. */
  lemma RotateOnce(x: nat, p: nat, s: nat, k: nat) returns (q: nat, r: nat)
    requires p > 0 && s == Pow2(k) && x < p * s
    ensures x == p * q + r && r < p && q < s
    ensures Or(Shr(x, p), Shl(x, s)) % (p * s) == s * r + q
  {
    q, r := Parts(x, p, s);
    OrMasked(x, p, q, r, s, k);
    Commutes(s, r);
  }

  lemma SameParts(y: nat, s: nat, q: nat, r: nat, q': nat, r': nat)
    requires y == s * q + r && y == s * q' + r' && r < s && r' < s
    ensures q == q' && r == r'
  {
    DivModUnique(y, s, q, r);
    DivModUnique(y, s, q', r');
  }

  lemma Commutes(a: int, b: int)
    ensures a * b == b * a
  {
  }

  /** `_rotr64`, as written: shifts, or, mask. */
  function Rotr(x: Word, n: nat): Word
    requires n <= 64
  {
    U64(Or(Shr(x, Pow2(n)), Shl(x, Pow2(64 - n))))
  }

  lemma RotrParts(x: Word, n: nat, k: nat) returns (q: nat, r: nat)
    requires n + k == 64
    ensures x == Pow2(n) * q + r && r < Pow2(n) && q < Pow2(k)
    ensures Rotr(x, n) == Pow2(k) * r + q
  {
    Pow2Of64();
    Pow2Sum(n, k);
    q, r := RotateOnce(x, Pow2(n), Pow2(k), k);
  }

  /** Rotating on by 64 - n undoes a rotation by n. */
  lemma RotrBack(x: Word, n: nat, k: nat)
    requires n + k == 64
    ensures Rotr(Rotr(x, n), k) == x
  {
    var q, r := RotrParts(x, n, k);
    var y := Rotr(x, n);
    var q', r' := RotrParts(y, k, n);
    SameParts(y, Pow2(k), r, q, q', r');
  }
}
