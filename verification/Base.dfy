/** Types shared by every component: bytes, digests, field elements, and the
    outcome of a reduction to a hash collision. */
module Base {
  datatype Option<+T> = None | Some(value: T) {
    function GetOr(default: T): T {
      if Some? then value else default
    }
  }

  type byte = x: int | 0 <= x < 0x100
  type Bytes = seq<byte>

  /** A 32-byte value: a keccak digest, a tree node or a sibling in a proof. */
  type Digest = s: Bytes | |s| == 32 witness seq(32, i => 0)

  /** keccak256, kept abstract: nothing about it is assumed but its type. */
  type Keccak = Bytes -> Digest

  /** The BN254 scalar prime (poseidon.py:46-48, _babyjub.py:33). */
  const PRIME: nat := 21888242871839275222246405745257275088548364400416034343698204186575808495617

  type Felt = x: nat | x < PRIME

  /** Poseidon over a list of field elements, kept abstract wherever only its type matters. */
  type PoseidonHash = seq<Felt> -> Felt

  /** `x % PRIME` of a Python integer, as a field element. */
  function ToFelt(x: int): Felt {
    x % PRIME
  }

  /** Two different inputs with the same image. */
  predicate Collides<X(==), Y(==)>(h: X -> Y, pair: (X, X)) {
    pair.0 != pair.1 && h(pair.0) == h(pair.1)
  }

  function Pow2(n: nat): (r: nat)
    ensures r >= 1
  {
    if n == 0 then 1 else 2 * Pow2(n - 1)
  }

  lemma Pow2Double(n: nat)
    ensures Pow2(n + 1) == 2 * Pow2(n)
  {
  }

  lemma MulLe(a: int, b: int, p: nat)
    requires a <= b
    ensures p * a <= p * b
  {
  }

  lemma DivModUnique(a: int, m: nat, q: int, r: nat)
    requires a == m * q + r && r < m
    ensures a % m == r && a / m == q
  {
    var k := a / m - q;
    assert m * k == r - a % m;
    if k >= 1 {
      MulLe(1, k, m);
      assert false;
    } else if k <= -1 {
      MulLe(k, -1, m);
      assert false;
    }
  }
}
