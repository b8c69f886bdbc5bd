/** What a signature is bound to: the leaf it signs, the nonce and the key behind it. */
module EddsaBinding {
  import opened Base
  import opened Encoding
  import opened Field
  import opened BabyJub
  import opened ScalarMul
  import opened Eddsa

  lemma Eight(c: int)
    ensures 8 * c == c * 8
  {
  }

  /** What acceptance means: S in range, both points on the curve and neither of them
      neutral, and S times the base is R8 plus 8 times the hash of the two points and
      the leaf times the key, wherever these multiplications and the sum are defined. */
  lemma AcceptedExact(sch: Scheme, pk: Point, leaf: int, sig: Signature)
    requires sch.order > 0
    ensures var c: nat := sch.poseidon([ToFelt(sig.R8.x), ToFelt(sig.R8.y), ToFelt(pk.x), ToFelt(pk.y), ToFelt(leaf)]);
      Verify(sch, pk, leaf, sig) == Some(true) <==>
      && 0 < sig.S < sch.subOrder && sig.R8 != Point(0, 1) && pk != Point(0, 1)
      && sch.g.inCurve(sig.R8) && sch.g.inCurve(pk)
      && Scalar(sch.g, sch.base, sig.S).Some? && Scalar(sch.g, pk, (8 * c) % sch.order).Some?
      && sch.g.add(sig.R8, Scalar(sch.g, pk, (8 * c) % sch.order).value) == Scalar(sch.g, sch.base, sig.S)
  {
    var c := Challenge(sch, sig.R8, pk, leaf);
    Eight(c);
  }

  // ---- The challenge ------------------------------------------------------------------------

  /** Equal challenges mean the same nonce point, key and leaf modulo p, or two
      Poseidon inputs collide. */
  function CompareChallenges(sch: Scheme, R8: Point, pk: Point, leaf: int, R8': Point, pk': Point, leaf': int)
    : (r: Option<(seq<Felt>, seq<Felt>)>)
    requires Challenge(sch, R8, pk, leaf) == Challenge(sch, R8', pk', leaf')
    ensures r.None? ==> R8.x % PRIME == R8'.x % PRIME && R8.y % PRIME == R8'.y % PRIME
    ensures r.None? ==> pk.x % PRIME == pk'.x % PRIME && pk.y % PRIME == pk'.y % PRIME
    ensures r.None? ==> leaf % PRIME == leaf' % PRIME
    ensures r.Some? ==> Collides(sch.poseidon, r.value)
  {
    var a := [ToFelt(R8.x), ToFelt(R8.y), ToFelt(pk.x), ToFelt(pk.y), ToFelt(leaf)];
    var b := [ToFelt(R8'.x), ToFelt(R8'.y), ToFelt(pk'.x), ToFelt(pk'.y), ToFelt(leaf')];
    if a != b then Some((a, b))
    else
      assert a[0] == b[0] && a[1] == b[1] && a[2] == b[2] && a[3] == b[3] && a[4] == b[4];
      None
  }

  /** The multiple of the key that verification adds to the nonce point. */
  function KeyTerm(sch: Scheme, pk: Point, c: nat): Option<Point>
    requires sch.order > 0
  {
    Scalar(sch.g, pk, (c * 8) % sch.order)
  }

  /** One signature accepted for two leaves that differ modulo p: two Poseidon inputs
      collide, or two distinct challenges give the same right-hand side. */
  function TwoLeaves(sch: Scheme, pk: Point, sig: Signature, leaf: int, leaf': int)
    : (r: Option<(seq<Felt>, seq<Felt>)>)
    requires sch.order > 0 && leaf % PRIME != leaf' % PRIME
    requires Verify(sch, pk, leaf, sig) == Some(true) && Verify(sch, pk, leaf', sig) == Some(true)
    ensures r.Some? ==> Collides(sch.poseidon, r.value)
    ensures r.None? ==>
      var c, c' := Challenge(sch, sig.R8, pk, leaf), Challenge(sch, sig.R8, pk, leaf');
      && c != c' && KeyTerm(sch, pk, c).Some? && KeyTerm(sch, pk, c').Some?
      && sch.g.add(sig.R8, KeyTerm(sch, pk, c).value) == sch.g.add(sig.R8, KeyTerm(sch, pk, c').value)
  {
    if Challenge(sch, sig.R8, pk, leaf) != Challenge(sch, sig.R8, pk, leaf') then None
    else CompareChallenges(sch, sig.R8, pk, leaf, sig.R8, pk, leaf')
  }

  /** Adding R8 to two multiples of the key tells them apart. */
  ghost predicate Cancels(g: CurveOps, R8: Point, pk: Point)
    requires Lawful(g) && OnPoint(g, pk)
  {
    forall j: nat, k: nat {:trigger Times(g, pk, j), Times(g, pk, k)} ::
      g.add(R8, Times(g, pk, j)) == g.add(R8, Times(g, pk, k)) ==> Times(g, pk, j) == Times(g, pk, k)
  }

  /** Two such challenges: their difference times the cofactor annihilates the key. */
  lemma ChallengesAnnihilate(sch: Scheme, R8: Point, pk: Point, c: nat, d: nat)
    requires Lawful(sch.g) && OnPoint(sch.g, pk) && Associative(sch.g, pk)
    requires sch.order > 0 && Times(sch.g, pk, sch.order) == NEUTRAL && Cancels(sch.g, R8, pk)
    requires KeyTerm(sch, pk, c).Some? && KeyTerm(sch, pk, c + d).Some?
    requires sch.g.add(R8, KeyTerm(sch, pk, c).value) == sch.g.add(R8, KeyTerm(sch, pk, c + d).value)
    ensures Times(sch.g, pk, d * 8) == NEUTRAL
  {
    var g, n := sch.g, sch.order;
    ScalarIsTimes(g, pk, (c * 8) % n, ((c + d) * 8) % n);
    TimesMod(g, pk, n, c * 8);
    TimesMod(g, pk, n, (c + d) * 8);
    assert (c + d) * 8 == c * 8 + d * 8;
    var q := (c + d) * 8 + 1;
    TimesOrder(g, pk, n, q);
    MulLe(1, n, q);
    assert n * q == q * n;
    MultipleDifference(g, pk, n * q, c * 8, d * 8);
  }

  /** For a nonce point and key that are multiples of the base the two challenges
      agree modulo the subgroup order. */
  lemma ChallengesCongruent(sch: Scheme, r: nat, m: nat, c: nat, c': nat)
    requires Sound(sch) && Prime(sch.subOrder) && sch.subOrder > 2
    requires ExactOrder(sch.g, sch.base, sch.subOrder) && Times(sch.g, sch.base, m) != NEUTRAL
    requires var R8, pk := Times(sch.g, sch.base, r), Times(sch.g, sch.base, m);
      && KeyTerm(sch, pk, c).Some? && KeyTerm(sch, pk, c').Some?
      && sch.g.add(R8, KeyTerm(sch, pk, c).value) == sch.g.add(R8, KeyTerm(sch, pk, c').value)
    ensures c % sch.subOrder == c' % sch.subOrder
  {
    var n, k, k' := sch.subOrder, (c * 8) % sch.order, (c' * 8) % sch.order;
    RightSide(sch, r, m, k);
    RightSide(sch, r, m, k');
    MulLe(0, k, m);
    MulLe(0, k', m);
    SameResidue(sch, r + m * k, r + m * k');
    CongAdd(n, r + m * k, r + m * k', r, r);
    ModMultiple(c * 8, n);
    ModMultiple(c' * 8, n);
    CongMul(n, m, m, k, c * 8);
    CongMul(n, m, m, k', c' * 8);
    NotMultiple(sch, m);
    EightIsUnit(n);
    CancelTwice(n, m, 8, c, c');
  }

  lemma RightSide(sch: Scheme, r: nat, m: nat, k: nat)
    requires Sound(sch)
    ensures m * k >= 0 && Scalar(sch.g, Times(sch.g, sch.base, m), k).Some?
    ensures sch.g.add(Times(sch.g, sch.base, r), Scalar(sch.g, Times(sch.g, sch.base, m), k).value)
         == Some(Times(sch.g, sch.base, r + m * k))
  {
    ScalarOfMultiple(sch.g, sch.base, m, k);
    TimesSum(sch.g, sch.base, r, m * k);
  }

  /** Equal multiples of the base have scalars congruent modulo its order. */
  lemma SameResidue(sch: Scheme, i: nat, j: nat)
    requires Sound(sch) && ExactOrder(sch.g, sch.base, sch.subOrder)
    requires Times(sch.g, sch.base, i) == Times(sch.g, sch.base, j)
    ensures Cong(sch.subOrder, i, j)
  {
    var n := sch.subOrder;
    TimesMod(sch.g, sch.base, n, i);
    TimesMod(sch.g, sch.base, n, j);
    MultiplesDiffer(sch.g, sch.base, n, i % n, j % n);
  }

  lemma NotMultiple(sch: Scheme, m: nat)
    requires Sound(sch) && Times(sch.g, sch.base, m) != NEUTRAL
    ensures !Cong(sch.subOrder, m, 0)
  {
    TimesMod(sch.g, sch.base, sch.subOrder, m);
    TimesOne(sch.g, sch.base);
  }

  lemma ModMultiple(a: nat, n: nat)
    requires n > 0
    ensures Cong(n, a % (8 * n), a)
  {
    var q := a / (8 * n);
    assert a == (8 * n) * q + a % (8 * n);
    assert (8 * n) * q == n * (8 * q);
    CongIntro(n, a % (8 * n), a, -(8 * q));
  }

  lemma EightIsUnit(n: nat)
    requires Prime(n) && n > 2
    ensures !Cong(n, 8, 0)
  {
    assert n % 2 != 0;
    if n <= 8 {
      assert n == 3 || n == 5 || n == 7;
    }
  }

  lemma CancelTwice(n: nat, m: int, e: int, c: int, c': int)
    requires Prime(n) && !Cong(n, m, 0) && !Cong(n, e, 0) && Cong(n, m * (c * e), m * (c' * e))
    ensures Cong(n, c, c')
  {
    assert m * (c * e) == (c * e) * m && m * (c' * e) == (c' * e) * m;
    Cancel(n, m, c * e, c' * e);
    Cancel(n, e, c, c');
  }

  /** One signature accepted for two leaves that differ modulo p, by a key and nonce
      point that are multiples of the base: two Poseidon inputs collide, or two
      distinct challenges agree modulo the subgroup order. */
  lemma SignatureBindsLeaf(sch: Scheme, r: nat, m: nat, S: int, leaf: int, leaf': int)
    requires Sound(sch) && Prime(sch.subOrder) && sch.subOrder > 2 && ExactOrder(sch.g, sch.base, sch.subOrder)
    requires leaf % PRIME != leaf' % PRIME
    requires var pk, sig := Times(sch.g, sch.base, m), Signature(Times(sch.g, sch.base, r), S);
      Verify(sch, pk, leaf, sig) == Some(true) && Verify(sch, pk, leaf', sig) == Some(true)
    ensures var pk, sig := Times(sch.g, sch.base, m), Signature(Times(sch.g, sch.base, r), S);
      var c, c' := Challenge(sch, sig.R8, pk, leaf), Challenge(sch, sig.R8, pk, leaf');
      match TwoLeaves(sch, pk, sig, leaf, leaf')
      case Some(pair) => Collides(sch.poseidon, pair)
      case None => c != c' && c % sch.subOrder == c' % sch.subOrder
  {
    var pk, sig := Times(sch.g, sch.base, m), Signature(Times(sch.g, sch.base, r), S);
    if TwoLeaves(sch, pk, sig, leaf, leaf').None? {
      ChallengesCongruent(sch, r, m, Challenge(sch, sig.R8, pk, leaf), Challenge(sch, sig.R8, pk, leaf'));
    }
  }

  // ---- The nonce ------------------------------------------------------------------------------

  /** The second half of the key's digest, which keys the nonce. */
  function NonceKey(sch: Scheme, sk: Digest): Bytes {
    sch.blake512(sk)[32..]
  }

  lemma PrimeFits(w: nat)
    requires w == 0x1_0000_0000_0000_0000
    ensures PRIME < w * w * (w * w)
  {
  }

  lemma FeltFits(x: Felt, k: nat)
    requires k == 8
    ensures x < Pow256(4 * k)
  {
    EightBytes(k);
    PrimeFits(Pow256(k));
    FourPowers(k);
  }

  /** Two leaves that differ modulo p and share a nonce under one key: two different
      texts after the same 32 bytes, whose digests agree modulo the subgroup order. */
  function NonceReuse(sch: Scheme, sk: Digest, leaf: int, leaf': int): (r: (Bytes, Bytes))
    requires sch.subOrder > 0 && leaf % PRIME != leaf' % PRIME && Nonce(sch, sk, leaf) == Nonce(sch, sk, leaf')
    ensures r.0 != r.1 && |r.0| == |r.1| == 64 && r.0[..32] == r.1[..32] == NonceKey(sch, sk)
    ensures FromLE(r.0[32..]) == leaf % PRIME && FromLE(r.1[32..]) == leaf' % PRIME
    ensures FromLE(sch.blake512(r.0)) % sch.subOrder == FromLE(sch.blake512(r.1)) % sch.subOrder
  {
    var a := NonceKey(sch, sk) + ToLE(ToFelt(leaf), 32);
    var b := NonceKey(sch, sk) + ToLE(ToFelt(leaf'), 32);
    FeltFits(ToFelt(leaf), 8);
    FeltFits(ToFelt(leaf'), 8);
    LittleEndianRoundTrip(ToFelt(leaf), 32);
    LittleEndianRoundTrip(ToFelt(leaf'), 32);
    assert a[32..] == ToLE(ToFelt(leaf), 32) && b[32..] == ToLE(ToFelt(leaf'), 32);
    (a, b)
  }

  // ---- The secret scalar -----------------------------------------------------------------------

  /** The scalar's bytes, lowest first, are those of the first half of the key's
      digest, with only the bits that clamping fixes changed. */
  lemma SecretBytes(sch: Scheme, sk: Digest, i: nat)
    requires i < 32
    ensures var b := sch.blake512(sk)[i];
      ByteAt(SecretScalar(sch, sk), i) == if i == 0 then b - b % 8 else if i == 31 then b % 64 + 64 else b
  {
    LittleEndianByte(Pruned(sch.blake512(sk)[..32]), i);
  }
}
