/** BabyJubjub EdDSA over a Poseidon challenge (eddsa.py). */
module Eddsa {
  import opened Base
  import opened Encoding
  import opened Field
  import opened BabyJub
  import opened ScalarMul

  type Bytes64 = s: Bytes | |s| == 64 witness seq(64, i => 0)

  datatype Signature = Signature(R8: Point, S: int)

  /** The curve operations, the base point with its orders, and the two hashes. */
  datatype Scheme = Scheme(g: CurveOps, base: Point, order: nat, subOrder: nat,
                           poseidon: PoseidonHash, blake512: Bytes -> Bytes64)

  // ---- Clamping -----------------------------------------------------------------

  /** The clamped buffer: low three bits and top bit cleared, bit 254 set. */
  function Pruned(buf: Digest): Digest {
    [buf[0] - buf[0] % 8] + buf[1..31] + [buf[31] % 64 + 64]
  }

  /** What the three masks of `_prune` do to a byte. */
  lemma BitMasks(b: byte)
    ensures And(b, 0xF8) == b - b % 8
    ensures And(b, 0x7F) == b % 128
    ensures Or(b % 128, 0x40) == b % 64 + 64
  {
    Mask(b, 5, 3, 0xF8, 8);
    Ones(b, 7, 0x7F);
    Bit(b % 128, 6, 0x40);
    Mod64(b);
  }

  lemma Mod64(b: byte)
    ensures b % 128 % 64 == b % 64
  {
    var q, r := b / 128, b % 128;
    DivModUnique(b, 64, 2 * q + r / 64, r % 64);
  }

  lemma Mask(b: byte, n: nat, k: nat, mask: nat, low: nat)
    requires Encoding.Mask(n, k) == mask && Pow2(k) == low && Pow2(n + k) == 0x100
    ensures And(b, mask) == b - b % low
  {
    AndMask(b, n, k);
  }

  lemma Ones(b: byte, k: nat, mask: nat)
    requires Pow2(k) == mask + 1
    ensures And(b, mask) == b % (mask + 1)
  {
    AndOnes(b, k);
  }

  lemma Bit(c: byte, k: nat, bit: nat)
    requires Pow2(k) == bit && c < 2 * bit
    ensures Or(c, bit) == c % bit + bit
  {
    OrBit(c, k);
  }

  lemma MaskedEnds(buf: Digest)
    ensures And(buf[0], 0xF8) == Pruned(buf)[0] && And(buf[31], 0x7F) < 128
    ensures Or(And(buf[31], 0x7F), 0x40) == Pruned(buf)[31]
    ensures forall i :: 1 <= i < 31 ==> Pruned(buf)[i] == buf[i]
  {
    BitMasks(buf[0]);
    BitMasks(buf[31]);
  }

  /** `_prune`: ValueError unless 32 bytes. */
  method Prune(buf: Bytes) returns (r: Option<Bytes>)
    ensures r.None? <==> |buf| != 32
    ensures r.Some? ==> r.value == Pruned(buf)
  {
    if |buf| != 32 {
      return None;
    }
    var b := new byte[32](i requires 0 <= i < 32 => buf[i]);
    assert b[..] == buf;
    MaskedEnds(buf);
    b[0] := And(b[0], 0xF8);
    b[31] := And(b[31], 0x7F);
    b[31] := Or(b[31], 0x40);
    assert b[..] == Pruned(buf);
    return Some(b[..]);
  }

  /** The clamped scalar is a multiple of 8 between 2^254 and 2^255. */
  lemma Clamped(buf: Digest)
    ensures FromLE(Pruned(buf)) % 8 == 0
    ensures 64 * Pow256(31) <= FromLE(Pruned(buf)) < 128 * Pow256(31)
  {
    var p := Pruned(buf);
    LowByte(p);
    LastByte(p);
    FromLEBound(p[..31]);
    assert p[..|p| - 1] == p[..31];
    MulRange(p[31], Pow256(31), FromLE(p[..31]));
  }

  lemma LowByte(b: Bytes)
    requires b != [] && b[0] % 8 == 0
    ensures FromLE(b) % 8 == 0
  {
  }

  lemma MulRange(t: nat, m: nat, low: nat)
    requires 64 <= t <= 127 && low < m
    ensures 64 * m <= low + m * t < 128 * m
  {
    MulLe(64, t, m);
    MulLe(t, 127, m);
  }

  lemma {:induction false} LastByte(b: Bytes)
    requires b != []
    ensures FromLE(b) == FromLE(b[..|b| - 1]) + Pow256(|b| - 1) * b[|b| - 1]
  {
    if |b| > 1 {
      LastByte(b[1..]);
      assert b[..|b| - 1][1..] == b[1..][..|b| - 2];
      var m, t := Pow256(|b| - 2), b[|b| - 1];
      assert 256 * (m * t) == (256 * m) * t;
    } else {
      assert b[1..] == [] && b[..0] == [];
    }
  }

  // ---- Keys, signing, verifying --------------------------------------------------

  /** The secret scalar: the clamped first half of the key's digest. */
  function SecretScalar(sch: Scheme, sk: Digest): nat {
    FromLE(Pruned(sch.blake512(sk)[..32]))
  }

  /** The public point; None where scalar multiplication raises. */
  function PublicPoint(sch: Scheme, sk: Digest): Option<Point> {
    Scalar(sch.g, sch.base, SecretScalar(sch, sk) / 8)
  }

  /** The nonce: BLAKE-512 of the digest's second half and the message, mod the subgroup order. */
  function Nonce(sch: Scheme, sk: Digest, leaf: int): nat
    requires sch.subOrder > 0
  {
    FromLE(sch.blake512(sch.blake512(sk)[32..] + ToLE(ToFelt(leaf), 32))) % sch.subOrder
  }

  function Challenge(sch: Scheme, R8: Point, pk: Point, leaf: int): Felt {
    sch.poseidon([ToFelt(R8.x), ToFelt(R8.y), ToFelt(pk.x), ToFelt(pk.y), ToFelt(leaf)])
  }

  /** S: the nonce plus the challenge times the secret scalar, mod the subgroup order. */
  function Response(r: nat, c: nat, s: nat, n: nat): (S: nat)
    requires n > 0
    ensures S < n
  {
    (r + c * s) % n
  }

  function Sign(sch: Scheme, sk: Digest, leaf: int): Option<Signature>
    requires sch.subOrder > 0
  {
    var pk := PublicPoint(sch, sk);
    var r := Nonce(sch, sk, leaf);
    var R8 := Scalar(sch.g, sch.base, r);
    if pk.None? || R8.None? then None
    else
      var c := Challenge(sch, R8.value, pk.value, leaf);
      Some(Signature(R8.value, Response(r, c, SecretScalar(sch, sk), sch.subOrder)))
  }

  /** The checks of `verify_poseidon` that answer False before any arithmetic. */
  predicate Degenerate(sch: Scheme, pk: Point, sig: Signature) {
    || sig.S >= sch.subOrder || sig.S == 0
    || sig.R8 == NEUTRAL || pk == NEUTRAL
    || !sch.g.inCurve(sig.R8) || !sch.g.inCurve(pk)
  }

  /** None is an exception: a negative S, or an addition that raises. */
  function Verify(sch: Scheme, pk: Point, leaf: int, sig: Signature): Option<bool>
    requires sch.order > 0
  {
    if Degenerate(sch, pk, sig) then Some(false)
    else
      var c := Challenge(sch, sig.R8, pk, leaf);
      if sig.S < 0 then None else
      var left := Scalar(sch.g, sch.base, sig.S);
      var term := Scalar(sch.g, pk, (c * 8) % sch.order);
      if left.None? || term.None? then None else
      var right := sch.g.add(sig.R8, term.value);
      if right.None? then None else Some(left == right)
  }

  /** `bytes.fromhex` of the private key text, with or without 0x; 32 bytes or ValueError. */
  function KeyBytes(privateKeyHex: string): (r: Option<Bytes>)
    ensures r.Some? ==> |r.value| == 32
  {
    var sk := FromHex(StripPrefix(privateKeyHex));
    if sk.Some? && |sk.value| == 32 then sk else None
  }

  /** The text `generate_issuer_key` stores names the key it was made from. */
  lemma KeyTextRoundTrip(sk: Digest)
    ensures KeyBytes("0x" + ToHex(sk)) == Some(sk)
  {
    assert StripPrefix("0x" + ToHex(sk)) == ToHex(sk);
    HexRoundTrip(sk);
  }

  /** The key text with its 0x. */
  function Prefixed(privateKeyHex: string): string {
    if |privateKeyHex| >= 2 && privateKeyHex[0] == '0' && privateKeyHex[1] in {'x', 'X'} then privateKeyHex
    else "0x" + privateKeyHex
  }

  lemma PrefixedSameKey(privateKeyHex: string)
    ensures KeyBytes(Prefixed(privateKeyHex)) == KeyBytes(privateKeyHex)
  {
    assert ("0x" + privateKeyHex)[2..] == privateKeyHex;
  }

  lemma HasPrefix(privateKeyHex: string)
    ensures var t := Prefixed(privateKeyHex); |t| >= 2 && t[..2] in {"0x", "0X"}
  {
    var t := Prefixed(privateKeyHex);
    assert t[..2] == [t[0], t[1]];
  }

  datatype IssuerKey = IssuerKey(privateKeyHex: string, pub: Point)

  /** `restore_issuer_key`: None where the text is malformed or multiplication raises. */
  method RestoreIssuerKey(sch: Scheme, privateKeyHex: string) returns (key: Option<IssuerKey>)
    ensures var sk := KeyBytes(privateKeyHex);
      (key.Some? <==> sk.Some? && PublicPoint(sch, sk.value).Some?)
      && (key.Some? ==> Some(key.value.pub) == PublicPoint(sch, sk.value))
    ensures key.Some? ==> |key.value.privateKeyHex| >= 2 && key.value.privateKeyHex[..2] in {"0x", "0X"}
    ensures key.Some? ==> KeyBytes(key.value.privateKeyHex) == KeyBytes(privateKeyHex)
  {
    var sk := KeyBytes(privateKeyHex);
    if sk.None? {
      return None;
    }
    var h := sch.blake512(sk.value);
    var pruned := Prune(h[..32]);
    var s := FromLE(pruned.value);
    var pk := Mul(sch.g, sch.base, s / 8);
    if pk.None? {
      return None;
    }
    PrefixedSameKey(privateKeyHex);
    HasPrefix(privateKeyHex);
    return Some(IssuerKey(Prefixed(privateKeyHex), pk.value));
  }

  method SignPoseidon(sch: Scheme, privateKeyHex: string, leaf: int) returns (sig: Option<Signature>)
    requires sch.subOrder > 0
    ensures var sk := KeyBytes(privateKeyHex); sig == if sk.None? then None else Sign(sch, sk.value, leaf)
  {
    var sk := KeyBytes(privateKeyHex);
    if sk.None? {
      return None;
    }
    var h := sch.blake512(sk.value);
    var pruned := Prune(h[..32]);
    var s := FromLE(pruned.value);
    var pk := Mul(sch.g, sch.base, s / 8);
    if pk.None? {
      return None;
    }
    var compose := h[32..];
    compose := compose + ToLE(ToFelt(leaf), 32);
    var r := FromLE(sch.blake512(compose)) % sch.subOrder;
    var R8 := Mul(sch.g, sch.base, r);
    if R8.None? {
      return None;
    }
    var c := Challenge(sch, R8.value, pk.value, leaf);
    return Some(Signature(R8.value, (r + c * s) % sch.subOrder));
  }

  method VerifyPoseidon(sch: Scheme, pk: Point, leaf: int, sig: Signature) returns (ok: Option<bool>)
    requires sch.order > 0
    ensures ok == Verify(sch, pk, leaf, sig)
  {
    if sig.S >= sch.subOrder || sig.S == 0 || sig.R8 == NEUTRAL || pk == NEUTRAL {
      return Some(false);
    }
    if !sch.g.inCurve(sig.R8) || !sch.g.inCurve(pk) {
      return Some(false);
    }
    var c := Challenge(sch, sig.R8, pk, leaf);
    var left := Mul(sch.g, sch.base, sig.S);
    if left.None? {
      return None;
    }
    var term := Mul(sch.g, pk, (c * 8) % sch.order);
    if term.None? {
      return None;
    }
    var right := sch.g.add(sig.R8, term.value);
    if right.None? {
      return None;
    }
    return Some(left == right);
  }

  // ---- Correctness -------------------------------------------------------------------

  /** What the scheme assumes of its group: associativity on multiples of the
      base, and the base's order; the full order is 8 times it. */
  ghost predicate Sound(sch: Scheme) {
    && Lawful(sch.g) && OnPoint(sch.g, sch.base) && Associative(sch.g, sch.base)
    && sch.subOrder > 0 && sch.order == 8 * sch.subOrder
    && Times(sch.g, sch.base, sch.subOrder) == NEUTRAL
  }

  /** (8c mod 8n)*(s/8) and c*s agree mod n when 8 divides s. */
  lemma ScalarsAgree(c: nat, s: nat, n: nat)
    requires n > 0 && s % 8 == 0
    ensures s / 8 * ((c * 8) % (8 * n)) >= 0
    ensures (s / 8 * ((c * 8) % (8 * n))) % n == (c * s) % n
  {
    var m, q, r := s / 8, c / n, c % n;
    assert c == n * q + r;
    assert c * 8 == (8 * n) * q + 8 * r;
    DivModUnique(c * 8, 8 * n, q, 8 * r);
    assert s == 8 * m;
    assert c * s == n * (q * s) + r * s by {
      assert (n * q) * s == n * (q * s);
    }
    assert m * (8 * r) == r * s by { assert m * (8 * r) == (8 * m) * r; }
    CongIntro(n, c * s, r * s, q * s);
  }

  lemma SumsAgree(r: nat, a: nat, b: nat, n: nat)
    requires n > 0 && a % n == b % n
    ensures (r + a) % n == (r + b) % n
  {
    CongAdd(n, r, r, a, b);
  }

  /** r + (s/8)*k and S agree mod n, for S and k as the code computes them. */
  lemma ExponentsAgree(n: nat, order: nat, s: nat, r: nat, c: nat, S: int, k: int) returns (t: nat)
    requires n > 0 && order == 8 * n && s % 8 == 0 && S == Response(r, c, s, n) && k == (c * 8) % order
    ensures k >= 0 && t == s / 8 * k && S == (r + t) % n
  {
    MulLe(0, s, c);
    ScalarsAgree(c, s, n);
    t := s / 8 * k;
    SumsAgree(r, t, c * s, n);
  }

  /** S*b = r*b + k*(m*b) when S is r + m*k mod the order of b. */
  lemma VerificationEquation(g: CurveOps, b: Point, n: nat, m: nat, r: nat, k: nat, t: nat, S: nat)
    requires Lawful(g) && OnPoint(g, b) && Associative(g, b) && n > 0 && Times(g, b, n) == NEUTRAL
    requires t == m * k && S == (r + t) % n
    ensures Scalar(g, b, S).Some? && Scalar(g, Times(g, b, m), k).Some?
    ensures g.add(Times(g, b, r), Scalar(g, Times(g, b, m), k).value) == Scalar(g, b, S)
  {
    ScalarIsTimes(g, b, 0, S);
    ScalarOfMultiple(g, b, m, k);
    TimesSum(g, b, r, t);
    TimesMod(g, b, n, r + t);
  }

  lemma KeyIsMultiple(sch: Scheme, sk: Digest)
    requires Sound(sch)
    ensures var s := SecretScalar(sch, sk);
      s % 8 == 0 && PublicPoint(sch, sk) == Some(Times(sch.g, sch.base, s / 8))
  {
    Clamped(sch.blake512(sk)[..32]);
    ScalarIsTimes(sch.g, sch.base, 0, SecretScalar(sch, sk) / 8);
  }

  /** The key and the signature as multiples of the base. */
  lemma KeyAndNonce(sch: Scheme, sk: Digest, leaf: int) returns (s: nat, r: nat)
    requires Sound(sch)
    ensures s % 8 == 0 && PublicPoint(sch, sk) == Some(Times(sch.g, sch.base, s / 8))
    ensures var pk, R8 := Times(sch.g, sch.base, s / 8), Times(sch.g, sch.base, r);
      Sign(sch, sk, leaf) == Some(Signature(R8, Response(r, Challenge(sch, R8, pk, leaf), s, sch.subOrder)))
  {
    s, r := SecretScalar(sch, sk), Nonce(sch, sk, leaf);
    KeyIsMultiple(sch, sk);
    ScalarIsTimes(sch.g, sch.base, 0, r);
  }

  /** What signing returns, and the equation its parts satisfy. */
  lemma SignedParts(sch: Scheme, sk: Digest, leaf: int) returns (pk: Point, sig: Signature, k: nat)
    requires Sound(sch)
    ensures PublicPoint(sch, sk) == Some(pk) && Sign(sch, sk, leaf) == Some(sig)
    ensures OnPoint(sch.g, pk) && OnPoint(sch.g, sig.R8) && 0 <= sig.S < sch.subOrder
    ensures k == (Challenge(sch, sig.R8, pk, leaf) * 8) % sch.order
    ensures Scalar(sch.g, sch.base, sig.S).Some? && Scalar(sch.g, pk, k).Some?
    ensures sch.g.add(sig.R8, Scalar(sch.g, pk, k).value) == Scalar(sch.g, sch.base, sig.S)
  {
    var s, r := KeyAndNonce(sch, sk, leaf);
    var m := s / 8;
    pk := PublicPoint(sch, sk).value;
    sig := Sign(sch, sk, leaf).value;
    var c := Challenge(sch, sig.R8, pk, leaf);
    k := (c * 8) % sch.order;
    var t := ExponentsAgree(sch.subOrder, sch.order, s, r, c, sig.S, k);
    VerificationEquation(sch.g, sch.base, sch.subOrder, m, r, k, t, sig.S);
  }

  /** Signing then verifying under the restored key accepts, except exactly in
      the degenerate cases the verifier rejects outright. */
  lemma SignThenVerify(sch: Scheme, sk: Digest, leaf: int)
    requires Sound(sch)
    ensures PublicPoint(sch, sk).Some? && Sign(sch, sk, leaf).Some?
    ensures var pk, sig := PublicPoint(sch, sk).value, Sign(sch, sk, leaf).value;
      Verify(sch, pk, leaf, sig) == Some(sig.S != 0 && sig.R8 != NEUTRAL && pk != NEUTRAL)
  {
    var pk, sig, k := SignedParts(sch, sk, leaf);
  }

  /** `verify_poseidon` raises exactly on a negative S that reaches the multiplication. */
  lemma VerifyRaises(sch: Scheme, pk: Point, leaf: int, sig: Signature)
    requires Lawful(sch.g) && OnPoint(sch.g, sch.base) && sch.order > 0
    ensures Verify(sch, pk, leaf, sig).None? <==> sig.S < 0 && !Degenerate(sch, pk, sig)
  {
    if !Degenerate(sch, pk, sig) && sig.S >= 0 {
      LadderTotal(sch.g, NEUTRAL, sch.base, sig.S);
      LadderTotal(sch.g, NEUTRAL, pk, (Challenge(sch, sig.R8, pk, leaf) * 8) % sch.order);
    }
  }

  // ---- What the bound on S is for ----------------------------------------------------------

  /** No smaller positive multiple of the base is neutral. */
  ghost predicate ExactOrder(g: CurveOps, b: Point, n: nat)
    requires Lawful(g) && OnPoint(g, b)
  {
    forall k: nat :: 0 < k < n ==> Times(g, b, k) != NEUTRAL
  }

  /** Equal multiples differ by one that is neutral. */
  lemma MultipleDifference(g: CurveOps, b: Point, n: nat, i: nat, d: nat)
    requires Lawful(g) && OnPoint(g, b) && Associative(g, b) && n > 0 && Times(g, b, n) == NEUTRAL
    requires i <= n && d < n && Times(g, b, i) == Times(g, b, i + d)
    ensures Times(g, b, d) == NEUTRAL
  {
    TimesSum(g, b, n - i, i);
    TimesSum(g, b, n - i, i + d);
    assert (n - i) + (i + d) == n + d;
    DivModUnique(n + d, n, 1, d);
    TimesMod(g, b, n, n + d);
  }

  lemma MultiplesDiffer(g: CurveOps, b: Point, n: nat, i: nat, j: nat)
    requires Lawful(g) && OnPoint(g, b) && Associative(g, b) && Times(g, b, n) == NEUTRAL && ExactOrder(g, b, n)
    requires i < n && j < n && Times(g, b, i) == Times(g, b, j)
    ensures i == j
  {
    var low, d: nat := if i < j then i else j, if i < j then j - i else i - j;
    MultipleDifference(g, b, n, low, d);
  }

  lemma AcceptedMultiple(sch: Scheme, pk: Point, leaf: int, sig: Signature)
    requires Sound(sch) && Verify(sch, pk, leaf, sig) == Some(true)
    ensures 0 < sig.S < sch.subOrder
    ensures var term := Scalar(sch.g, pk, (Challenge(sch, sig.R8, pk, leaf) * 8) % sch.order);
      term.Some? && sch.g.add(sig.R8, term.value) == Some(Times(sch.g, sch.base, sig.S))
  {
    ScalarIsTimes(sch.g, sch.base, 0, sig.S);
  }

  /** For one nonce point, leaf and key at most one response is accepted, if the base
      has the stated order exactly. */
  lemma OneResponse(sch: Scheme, pk: Point, leaf: int, sig: Signature, other: int)
    requires Sound(sch) && ExactOrder(sch.g, sch.base, sch.subOrder)
    requires Verify(sch, pk, leaf, sig) == Some(true) && Verify(sch, pk, leaf, sig.(S := other)) == Some(true)
    ensures other == sig.S
  {
    AcceptedMultiple(sch, pk, leaf, sig);
    AcceptedMultiple(sch, pk, leaf, sig.(S := other));
    MultiplesDiffer(sch.g, sch.base, sch.subOrder, sig.S, other);
  }

  /** Only the bound stands in the way of a second response: adding the order to an
      accepted S keeps the equation, and the verifier answers False. */
  lemma SecondResponseRejected(sch: Scheme, pk: Point, leaf: int, sig: Signature)
    requires Sound(sch) && Verify(sch, pk, leaf, sig) == Some(true)
    ensures var S := sig.S + sch.subOrder;
      Scalar(sch.g, sch.base, S) == Scalar(sch.g, sch.base, sig.S) && Verify(sch, pk, leaf, sig.(S := S)) == Some(false)
  {
    var g, b, n, S := sch.g, sch.base, sch.subOrder, sig.S;
    AcceptedMultiple(sch, pk, leaf, sig);
    ScalarIsTimes(g, b, S, S + n);
    DivModUnique(S + n, n, 1, S);
    TimesMod(g, b, n, S + n);
  }

  // ---- Wire form -------------------------------------------------------------------------

  predicate Fits(v: int) {
    0 <= v < Pow256(32)
  }

  /** The 96 bytes under the base64 text; None where `to_bytes` overflows. */
  function Encode(sig: Signature): (r: Option<Bytes>)
    ensures r.Some? <==> Fits(sig.R8.x) && Fits(sig.R8.y) && Fits(sig.S)
    ensures r.Some? ==> |r.value| == 96
  {
    if Fits(sig.R8.x) && Fits(sig.R8.y) && Fits(sig.S)
    then Some(ToBE(sig.R8.x, 32) + ToBE(sig.R8.y, 32) + ToBE(sig.S, 32))
    else None
  }

  /** ValueError unless 96 bytes. */
  function Decode(buf: Bytes): Option<Signature> {
    if |buf| != 96 then None
    else Some(Signature(Point(FromBE(buf[0..32]), FromBE(buf[32..64])), FromBE(buf[64..96])))
  }

  lemma EncodeDecode(sig: Signature)
    requires Encode(sig).Some?
    ensures Decode(Encode(sig).value) == Some(sig)
    ensures var buf := Encode(sig).value;
      FromBE(buf[0..32]) == sig.R8.x && FromBE(buf[32..64]) == sig.R8.y && FromBE(buf[64..96]) == sig.S
  {
    var buf := Encode(sig).value;
    assert buf[0..32] == ToBE(sig.R8.x, 32) && buf[32..64] == ToBE(sig.R8.y, 32) && buf[64..96] == ToBE(sig.S, 32);
    BigEndianRoundTrip(sig.R8.x, 32);
    BigEndianRoundTrip(sig.R8.y, 32);
    BigEndianRoundTrip(sig.S, 32);
  }

  lemma ThreeParts(buf: Bytes)
    requires |buf| == 96
    ensures buf == buf[0..32] + buf[32..64] + buf[64..96]
  {
  }

  lemma DecodeEncode(buf: Bytes)
    requires |buf| == 96
    ensures Encode(Decode(buf).value) == Some(buf)
  {
    FromBEBound(buf[0..32]);
    FromBEBound(buf[32..64]);
    FromBEBound(buf[64..96]);
    BigEndianBytes(buf[0..32]);
    BigEndianBytes(buf[32..64]);
    BigEndianBytes(buf[64..96]);
    ThreeParts(buf);
  }
}
