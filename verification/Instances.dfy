/** The signature theorem over a complete curve, the constants of BabyJubjub,
    and a small group that satisfies every hypothesis. */
module Instances {
  import opened Base
  import opened Field
  import opened BabyJub
  import opened ScalarMul
  import opened CurveLaw
  import Eddsa

  /** Signing then verifying over a curve: the laws proved for `add` leave only
      associativity on multiples of the base, and its order, as hypotheses. */
  lemma CurveSignThenVerify(c: Curve, sch: Eddsa.Scheme, sk: Digest, leaf: int)
    requires Complete(c) && sch.g == Ops(c) && OnCurve(c, sch.base)
    requires sch.subOrder > 0 && sch.order == 8 * sch.subOrder
    requires Lawful(sch.g) ==> Associative(sch.g, sch.base) && Times(sch.g, sch.base, sch.subOrder) == NEUTRAL
    ensures Eddsa.PublicPoint(sch, sk).Some? && Eddsa.Sign(sch, sk, leaf).Some?
    ensures var pk, sig := Eddsa.PublicPoint(sch, sk).value, Eddsa.Sign(sch, sk, leaf).value;
      Eddsa.Verify(sch, pk, leaf, sig) == Some(sig.S != 0 && sig.R8 != NEUTRAL && pk != NEUTRAL)
  {
    CurveIsLawful(c);
    Eddsa.SignThenVerify(sch, sk, leaf);
  }

  const BABYJUB := Curve(PRIME, 168700, 168696)
  const ORDER: nat := 21888242871839275222246405745257275088614511777268538073601725287587578984328
  const SUB_ORDER: nat := ORDER / 8

  /** At BabyJubjub's constants completeness needs only that p is prime and d a
      non-square: a is a nonzero square with an explicit root. */
  lemma BabyJubjubComplete()
    requires Prime(PRIME) && !Square(PRIME, BABYJUB.d)
    ensures Complete(BABYJUB) && ORDER == 8 * SUB_ORDER
  {
    var r := 7214280148105020021932206872019688659210616427216992810330019057549499971851;
    assert Cong(BABYJUB.p, r * r, BABYJUB.a);
  }

  // ---- A small instance ------------------------------------------------------------

  /** 4*x^2 + y^2 = 1 + 6*x^2*y^2 over the field of 7 elements; (1, 4) has order 3. */
  const SMALL := Curve(7, 4, 6)
  const B1 := Point(1, 4)
  const B2 := Point(6, 4)

  lemma SquareModSeven(k: nat)
    requires k < 7
    ensures (k * k) % 7 != 6
  {
    if k <= 3 {
      assert k == 0 || k == 1 || k == 2 || k == 3;
    } else {
      assert k == 4 || k == 5 || k == 6;
    }
  }

  lemma SmallComplete()
    ensures Complete(SMALL) && OnCurve(SMALL, B1) && OnCurve(SMALL, B2)
  {
    assert Cong(7, 2 * 2, 4);
    forall r: int ensures !Cong(7, r * r, 6) {
      CongMod(7, r);
      CongMul(7, r % 7, r, r % 7, r);
      SquareModSeven(r % 7);
    }
  }

  lemma SmallDouble()
    ensures IsSum(SMALL, B1, B1, B2)
  {
    assert Cross(B1, B1) == 16 && Nx(B1, B1) == 8 && Ny(SMALL, B1, B1) == 12;
  }

  lemma SmallTriple()
    ensures IsSum(SMALL, B1, B2, NEUTRAL)
  {
    assert Cross(B1, B2) == 96 && Nx(B1, B2) == 28 && Ny(SMALL, B1, B2) == -8;
  }

  lemma SmallFourfold()
    ensures IsSum(SMALL, B2, B2, B1)
  {
    assert Cross(B2, B2) == 576 && Nx(B2, B2) == 48 && Ny(SMALL, B2, B2) == -128;
  }

  lemma SmallTable()
    ensures Complete(SMALL) && OnCurve(SMALL, B1) && OnCurve(SMALL, B2) && OnCurve(SMALL, NEUTRAL)
    ensures Add(SMALL, B1, B1) == Some(B2) && Add(SMALL, B2, B1) == Some(NEUTRAL)
    ensures Add(SMALL, B1, B2) == Some(NEUTRAL) && Add(SMALL, B2, B2) == Some(B1)
    ensures Add(SMALL, NEUTRAL, NEUTRAL) == Some(NEUTRAL)
    ensures Add(SMALL, NEUTRAL, B1) == Some(B1) == Add(SMALL, B1, NEUTRAL)
    ensures Add(SMALL, NEUTRAL, B2) == Some(B2) == Add(SMALL, B2, NEUTRAL)
  {
    SmallComplete();
    SmallDouble();
    SmallTriple();
    SmallFourfold();
    TableOf(SMALL, B1, B2);
  }

  /** The addition table of a point of order 3. */
  lemma TableOf(c: Curve, b1: Point, b2: Point)
    requires Complete(c) && OnCurve(c, b1) && OnCurve(c, b2)
    requires IsSum(c, b1, b1, b2) && IsSum(c, b1, b2, NEUTRAL) && IsSum(c, b2, b2, b1)
    ensures OnCurve(c, NEUTRAL)
    ensures Add(c, b1, b1) == Some(b2) && Add(c, b2, b1) == Some(NEUTRAL)
    ensures Add(c, b1, b2) == Some(NEUTRAL) && Add(c, b2, b2) == Some(b1)
    ensures Add(c, NEUTRAL, NEUTRAL) == Some(NEUTRAL)
    ensures Add(c, NEUTRAL, b1) == Some(b1) == Add(c, b1, NEUTRAL)
    ensures Add(c, NEUTRAL, b2) == Some(b2) == Add(c, b2, NEUTRAL)
  {
    NeutralOnCurve(c);
    PlusUnique(c, b1, b1, b2);
    PlusUnique(c, b1, b2, NEUTRAL);
    Commutative(c, b1, b2);
    PlusUnique(c, b2, b2, b1);
    Neutral(c, NEUTRAL);
    Neutral(c, b1);
    Neutral(c, b2);
  }

  /** A closed operation with that table: its multiples cycle and associate. */
  ghost predicate OrderThree(g: CurveOps, b1: Point, b2: Point) {
    && Lawful(g) && OnPoint(g, b1) && OnPoint(g, b2)
    && g.add(b1, b1) == Some(b2) && g.add(b2, b1) == Some(NEUTRAL)
    && g.add(b1, b2) == Some(NEUTRAL) && g.add(b2, b2) == Some(b1)
  }

  lemma {:induction false} CyclicTimes(g: CurveOps, b1: Point, b2: Point, k: nat)
    requires OrderThree(g, b1, b2)
    ensures Times(g, b1, k) == if k % 3 == 0 then NEUTRAL else if k % 3 == 1 then b1 else b2
  {
    if k > 0 {
      CyclicTimes(g, b1, b2, k - 1);
    }
  }

  lemma CyclicAssociative(g: CurveOps, b1: Point, b2: Point)
    requires OrderThree(g, b1, b2)
    ensures Associative(g, b1) && Times(g, b1, 3) == NEUTRAL
  {
    CyclicTimes(g, b1, b2, 3);
    forall i: nat, j: nat ensures AssociativeAt(g, b1, i, j) {
      CyclicTimes(g, b1, b2, i);
      CyclicTimes(g, b1, b2, j);
    }
  }

  /** The hypotheses of the signature theorem hold together: base (1, 4), order 3. */
  lemma HypothesesSatisfiable(poseidon: PoseidonHash, blake512: Bytes -> Eddsa.Bytes64)
    ensures Complete(SMALL) && B1 != NEUTRAL
    ensures Eddsa.Sound(Eddsa.Scheme(Ops(SMALL), B1, 24, 3, poseidon, blake512))
  {
    SmallTable();
    CurveIsLawful(SMALL);
    CyclicAssociative(Ops(SMALL), B1, B2);
  }
}
