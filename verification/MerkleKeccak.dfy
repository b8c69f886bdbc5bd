/** The OpenZeppelin-style Merkle tree of merkle_keccak.py: sorted-pair
    keccak256 nodes, an odd last node promoted unchanged. */
module MerkleKeccak {
  import opened Base
  import opened Encoding

  /** Python's `<` on byte strings: lexicographic. */
  predicate Less(a: Bytes, b: Bytes) {
    b != [] && (a == [] || a[0] < b[0] || (a[0] == b[0] && Less(a[1..], b[1..])))
  }

  lemma {:induction false} LessTotal(a: Bytes, b: Bytes)
    requires |a| == |b|
    ensures Less(a, b) ==> !Less(b, a)
    ensures !Less(a, b) && !Less(b, a) ==> a == b
  {
    if a != [] {
      LessTotal(a[1..], b[1..]);
    }
  }

  lemma {:induction false} LessLast(a: Bytes, b: Bytes, n: nat)
    requires |a| == |b| == n + 1
    ensures Less(a, b) <==> Less(a[..n], b[..n]) || (a[..n] == b[..n] && a[n] < b[n])
  {
    if n > 0 {
      LessLast(a[1..], b[1..], n - 1);
      FrontOfRest(a, n);
      FrontOfRest(b, n);
      assert a[..n] == b[..n] <==> a[0] == b[0] && a[1..n] == b[1..n];
    }
  }

  lemma FrontOfRest(a: Bytes, n: nat)
    requires |a| == n + 1 && n > 0
    ensures a[..n][0] == a[0] && a[..n][1..] == a[1..][..n - 1] == a[1..n] && a[1..][n - 1] == a[n]
    ensures a[..n] == [a[0]] + a[1..n]
  {
  }

  /** On byte strings of one length the order is that of the big-endian numbers. */
  lemma {:induction false} LessIsNumeric(a: Bytes, b: Bytes)
    requires |a| == |b|
    ensures Less(a, b) <==> FromBE(a) < FromBE(b)
    decreases |a|
  {
    if a != [] {
      var n := |a| - 1;
      LessIsNumeric(a[..n], b[..n]);
      LessIsNumeric(b[..n], a[..n]);
      LessTotal(a[..n], b[..n]);
      LessLast(a, b, n);
    }
  }

  /** The 64 bytes hashed for a pair of nodes: the smaller node first. */
  function SortedPair(a: Digest, b: Digest): Bytes {
    if Less(a, b) then a + b else b + a
  }

  function HashPair(keccak: Keccak, a: Digest, b: Digest): Digest {
    keccak(SortedPair(a, b))
  }

  /** The pair hashed does not depend on which child comes first, and is in ascending order. */
  lemma {:induction false} SortedPairSymmetric(a: Digest, b: Digest)
    ensures SortedPair(a, b) == SortedPair(b, a)
    ensures |SortedPair(a, b)| == 64 && !Less(SortedPair(a, b)[32..], SortedPair(a, b)[..32])
  {
    LessTotal(a, b);
    var s := SortedPair(a, b);
    assert s[..32] == (if Less(a, b) then a else b) && s[32..] == (if Less(a, b) then b else a);
  }

  /** A sorted pair determines its two members up to order. */
  lemma {:induction false} SortedPairInjective(a: Digest, b: Digest, c: Digest, d: Digest)
    requires SortedPair(a, b) == SortedPair(c, d)
    ensures (a == c && b == d) || (a == d && b == c)
  {
    var s, t := SortedPair(a, b), SortedPair(c, d);
    assert s[..32] == (if Less(a, b) then a else b) && s[32..] == (if Less(a, b) then b else a);
    assert t[..32] == (if Less(c, d) then c else d) && t[32..] == (if Less(c, d) then d else c);
  }

  // ---- The tree as a function of its leaves -------------------------------

  /** Node `i` of the layer above `cur`. */
  function Above(keccak: Keccak, cur: seq<Digest>, i: nat): Digest
    requires 2 * i < |cur|
  {
    if 2 * i + 1 < |cur| then HashPair(keccak, cur[2 * i], cur[2 * i + 1]) else cur[2 * i]
  }

  function NextLayer(keccak: Keccak, cur: seq<Digest>): (r: seq<Digest>)
    ensures |r| == (|cur| + 1) / 2
  {
    seq((|cur| + 1) / 2, i requires 0 <= i < (|cur| + 1) / 2 => Above(keccak, cur, i))
  }

  function Layers(keccak: Keccak, leaves: seq<Digest>): (r: seq<seq<Digest>>)
    requires leaves != []
    ensures r != [] && r[0] == leaves && |r[|r| - 1]| == 1
    decreases |leaves|
  {
    if |leaves| == 1 then [leaves] else [leaves] + Layers(keccak, NextLayer(keccak, leaves))
  }

  /** 32 zero bytes. */
  function Zero(): Digest {
    seq(32, i => 0)
  }

  function Root(keccak: Keccak, leaves: seq<Digest>): Digest {
    if leaves == [] then Zero() else
    var ls := Layers(keccak, leaves);
    ls[|ls| - 1][0]
  }

  /** Three leaves written out: the first two are hashed, smaller number first, the
      third is promoted. */
  lemma ThreeLeaves(keccak: Keccak, a: Digest, b: Digest, c: Digest)
    ensures var ab := keccak(if FromBE(a) < FromBE(b) then a + b else b + a);
      Root(keccak, [a, b, c]) == keccak(if FromBE(ab) < FromBE(c) then ab + c else c + ab)
  {
    var ab := HashPair(keccak, a, b);
    LessIsNumeric(a, b);
    LessIsNumeric(ab, c);
    var l0, l1, l2: seq<Digest> := [a, b, c], [ab, c], [HashPair(keccak, ab, c)];
    assert NextLayer(keccak, l0) == l1 && NextLayer(keccak, l1) == l2;
    assert Layers(keccak, l2) == [l2] && Layers(keccak, l1) == [l1, l2];
    assert Layers(keccak, l0) == [l0] + [l1, l2];
  }

  /** The sibling of node `i`, when there is one: `i ^ 1`. */
  function Sibling(layer: seq<Digest>, i: nat): seq<Digest> {
    var j := if i % 2 == 0 then i + 1 else i - 1;
    if j < |layer| then [layer[j]] else []
  }

  function ProofOf(layers: seq<seq<Digest>>, i: nat): seq<Digest> {
    if |layers| <= 1 then [] else Sibling(layers[0], i) + ProofOf(layers[1..], i / 2)
  }

  /** What `verify` computes: the leaf hashed with each sibling in turn. */
  function Climb(keccak: Keccak, leaf: Digest, proof: seq<Digest>): Digest {
    if proof == [] then leaf
    else HashPair(keccak, Climb(keccak, leaf, proof[..|proof| - 1]), proof[|proof| - 1])
  }

  lemma {:induction false} ClimbSplit(keccak: Keccak, leaf: Digest, p: seq<Digest>, q: seq<Digest>)
    ensures Climb(keccak, leaf, p + q) == Climb(keccak, Climb(keccak, leaf, p), q)
  {
    if q == [] {
      assert p + q == p;
    } else {
      ClimbSplit(keccak, leaf, p, q[..|q| - 1]);
      assert (p + q)[..|p + q| - 1] == p + q[..|q| - 1];
    }
  }

  /** Each layer is the `NextLayer` of the one below. */
  lemma {:induction false} LayersLinked(keccak: Keccak, leaves: seq<Digest>, l: nat)
    requires leaves != [] && l + 1 < |Layers(keccak, leaves)|
    ensures Layers(keccak, leaves)[l] != []
    ensures Layers(keccak, leaves)[l + 1] == NextLayer(keccak, Layers(keccak, leaves)[l])
    decreases l
  {
    var up := NextLayer(keccak, leaves);
    assert Layers(keccak, leaves) == [leaves] + Layers(keccak, up);
    if l > 0 {
      LayersLinked(keccak, up, l - 1);
    }
  }

  lemma LayersGrow(keccak: Keccak, below: seq<seq<Digest>>, cur: seq<Digest>)
    requires |cur| > 1
    ensures (below + [cur]) + Layers(keccak, NextLayer(keccak, cur)) == below + Layers(keccak, cur)
  {
    var rest := Layers(keccak, NextLayer(keccak, cur));
    assert (below + [cur]) + rest == below + ([cur] + rest);
  }

  // ---- Completeness and size ----------------------------------------------

  /** Hashing a node with its sibling, if any, gives the node above both. */
  lemma {:induction false} ClimbOnce(keccak: Keccak, layer: seq<Digest>, i: nat)
    requires i < |layer|
    ensures Climb(keccak, layer[i], Sibling(layer, i)) == NextLayer(keccak, layer)[i / 2]
  {
    var sib := Sibling(layer, i);
    if sib != [] {
      assert sib[..0] == [];
      assert Climb(keccak, layer[i], sib[..0]) == layer[i];
      SortedPairSymmetric(layer[i], sib[0]);
    }
  }

  lemma ProofUnfolds(layer: seq<Digest>, rest: seq<seq<Digest>>, i: nat)
    requires rest != []
    ensures ProofOf([layer] + rest, i) == Sibling(layer, i) + ProofOf(rest, i / 2)
  {
    assert ([layer] + rest)[1..] == rest;
  }

  lemma RootAbove(keccak: Keccak, leaves: seq<Digest>)
    requires |leaves| > 1
    ensures Root(keccak, leaves) == Root(keccak, NextLayer(keccak, leaves))
  {
  }

  /** Every leaf's own proof climbs to the root, through odd-node promotion. */
  lemma {:induction false} ProofClimbs(keccak: Keccak, leaves: seq<Digest>, i: nat)
    requires i < |leaves|
    ensures Climb(keccak, leaves[i], ProofOf(Layers(keccak, leaves), i)) == Root(keccak, leaves)
    decreases |leaves|
  {
    if |leaves| > 1 {
      var up := NextLayer(keccak, leaves);
      ProofUnfolds(leaves, Layers(keccak, up), i);
      RootAbove(keccak, leaves);
      ClimbOnce(keccak, leaves, i);
      ClimbSplit(keccak, leaves[i], Sibling(leaves, i), ProofOf(Layers(keccak, up), i / 2));
      ProofClimbs(keccak, up, i / 2);
    }
  }

  /** The build stops after ceil(log2 N) + 1 layers, the least height that can hold N leaves. */
  lemma {:induction false} Height(keccak: Keccak, leaves: seq<Digest>)
    requires leaves != []
    ensures var h := |Layers(keccak, leaves)| - 1;
      |leaves| <= Pow2(h) && (h > 0 ==> Pow2(h - 1) < |leaves|)
    decreases |leaves|
  {
    if |leaves| > 1 {
      var up := NextLayer(keccak, leaves);
      Height(keccak, up);
      var h := |Layers(keccak, up)| - 1;
      assert |Layers(keccak, leaves)| - 1 == h + 1;
      if h > 0 {
        assert Pow2(h) == 2 * Pow2(h - 1);
      }
    }
  }

  // ---- Any index -------------------------------------------------------------------

  /** `layer[idx ^ 1]` when that is below the length; a negative subscript counts
      from the end, and None is an IndexError. */
  function SiblingAt(layer: seq<Digest>, i: int): Option<seq<Digest>> {
    var j := if i % 2 == 0 then i + 1 else i - 1;
    if j >= |layer| then Some([])
    else if j >= 0 then Some([layer[j]])
    else if |layer| + j >= 0 then Some([layer[|layer| + j]])
    else None
  }

  function Prepend(a: seq<Digest>, rest: Option<seq<Digest>>): Option<seq<Digest>> {
    if rest.None? then None else Some(a + rest.value)
  }

  lemma PrependNothing(rest: Option<seq<Digest>>)
    ensures Prepend([], rest) == rest
  {
    if rest.Some? {
      assert [] + rest.value == rest.value;
    }
  }

  /** What `proof_for_index` collects from the layers for any integer. */
  function PathOf(layers: seq<seq<Digest>>, i: int): Option<seq<Digest>> {
    if |layers| <= 1 then Some([])
    else
      var sib := SiblingAt(layers[0], i);
      if sib.None? then None else Prepend(sib.value, PathOf(layers[1..], i / 2))
  }

  lemma {:induction false} PathOfIndex(layers: seq<seq<Digest>>, i: nat)
    ensures PathOf(layers, i) == Some(ProofOf(layers, i))
  {
    if |layers| > 1 {
      PathOfIndex(layers[1..], i / 2);
    }
  }

  /** Every layer but the last is twice as wide as the next. */
  predicate Halving(layers: seq<seq<Digest>>) {
    |layers| <= 1 || (|layers[0]| == 2 * |layers[1]| && Halving(layers[1..]))
  }

  lemma PathUnfolds(layer: seq<Digest>, rest: seq<seq<Digest>>, i: int)
    requires rest != [] && SiblingAt(layer, i).Some?
    ensures PathOf([layer] + rest, i) == Prepend(SiblingAt(layer, i).value, PathOf(rest, i / 2))
  {
    assert ([layer] + rest)[1..] == rest;
  }

  lemma HalfFromEnd(layer: seq<Digest>, m: nat, j: nat)
    requires |layer| == 2 * m && 1 <= j <= |layer|
    ensures 1 <= (j + 1) / 2 <= m && (0 - j) / 2 == 0 - (j + 1) / 2 && (|layer| - j) / 2 == m - (j + 1) / 2
    ensures SiblingAt(layer, 0 - j) == Some(Sibling(layer, |layer| - j))
  {
  }

  /** Index -j gives the proof of the j-th leaf from the end. */
  predicate NamesFromEnd(layers: seq<seq<Digest>>, j: nat)
    requires layers != [] && j <= |layers[0]|
  {
    PathOf(layers, 0 - j) == Some(ProofOf(layers, |layers[0]| - j))
  }

  lemma PathStep(first: seq<Digest>, rest: seq<seq<Digest>>, j: nat, k: nat)
    requires rest != [] && |first| == 2 * |rest[0]| && 1 <= j <= |first| && k == (j + 1) / 2 && k <= |rest[0]|
    requires NamesFromEnd(rest, k)
    ensures NamesFromEnd([first] + rest, j)
  {
    HalfFromEnd(first, |rest[0]|, j);
    var sib := Sibling(first, |first| - j);
    assert PathOf([first] + rest, 0 - j) == Prepend(sib, PathOf(rest, 0 - k)) by {
      PathUnfolds(first, rest, 0 - j);
    }
    assert ProofOf([first] + rest, |first| - j) == sib + ProofOf(rest, |rest[0]| - k) by {
      ProofUnfolds(first, rest, |first| - j);
    }
  }

  /** Where layers halve exactly, an index from the end means the leaf it names. */
  lemma {:induction false} PathFromEnd(layers: seq<seq<Digest>>, j: nat)
    requires layers != [] && Halving(layers) && 1 <= j <= |layers[0]|
    ensures NamesFromEnd(layers, j)
  {
    var first, rest := layers[0], layers[1..];
    if rest != [] {
      assert rest[0] == layers[1];
      PathFromEnd(rest, (j + 1) / 2);
      PathStep(first, rest, j, (j + 1) / 2);
      assert layers == [first] + rest;
    }
  }

  lemma {:induction false} PowerHalves(keccak: Keccak, leaves: seq<Digest>, h: nat)
    requires |leaves| == Pow2(h)
    ensures Halving(Layers(keccak, leaves))
    decreases h
  {
    var ls := Layers(keccak, leaves);
    if h > 0 {
      Pow2Double(h - 1);
      var up := NextLayer(keccak, leaves);
      PowerHalves(keccak, up, h - 1);
      assert ls == [leaves] + Layers(keccak, up);
    } else {
      assert ls == [leaves];
    }
  }

  /** With 2^h leaves, the j-th leaf from the end proves itself under index -j. */
  lemma FromEndClimbs(keccak: Keccak, leaves: seq<Digest>, h: nat, j: nat)
    requires |leaves| == Pow2(h) && 1 <= j <= |leaves|
    ensures var path := PathOf(Layers(keccak, leaves), 0 - j);
      path.Some? && Climb(keccak, leaves[|leaves| - j], path.value) == Root(keccak, leaves)
  {
    PowerHalves(keccak, leaves, h);
    PathFromEnd(Layers(keccak, leaves), j);
    ProofClimbs(keccak, leaves, |leaves| - j);
  }

  ghost predicate PowerOfTwo(n: nat) {
    exists h: nat :: n == Pow2(h)
  }

  lemma LastSiblingAt(layer: seq<Digest>)
    requires |layer| >= 2
    ensures SiblingAt(layer, -1).Some? && |SiblingAt(layer, -1).value| == 1 && -1 / 2 == -1
  {
  }

  /** The path under -1 has an entry on every layer below the top. */
  lemma {:induction false} LastPathLength(keccak: Keccak, leaves: seq<Digest>)
    requires leaves != []
    ensures var layers := Layers(keccak, leaves);
      PathOf(layers, -1).Some? && |PathOf(layers, -1).value| == |layers| - 1
    decreases |leaves|
  {
    if |leaves| > 1 {
      var up := NextLayer(keccak, leaves);
      LastPathLength(keccak, up);
      LastSiblingAt(leaves);
      PathUnfolds(leaves, Layers(keccak, up), -1);
    }
  }

  lemma LastParent(layer: seq<Digest>, m: nat)
    requires layer != [] && m == (|layer| + 1) / 2
    ensures |Sibling(layer, |layer| - 1)| == (if |layer| == 2 * m then 1 else 0) && (|layer| - 1) / 2 == m - 1
  {
  }

  /** The last leaf's own proof has an entry on every layer below the top. */
  ghost predicate LastIsFull(keccak: Keccak, leaves: seq<Digest>)
    requires leaves != []
  {
    |ProofOf(Layers(keccak, leaves), |leaves| - 1)| == |Layers(keccak, leaves)| - 1
  }

  /** That takes an even number of nodes on each of these layers. */
  lemma {:induction false} LastProofFull(keccak: Keccak, leaves: seq<Digest>)
    requires leaves != [] && LastIsFull(keccak, leaves)
    ensures |leaves| == Pow2(|Layers(keccak, leaves)| - 1)
    decreases |leaves|
  {
    if |leaves| > 1 {
      var up := NextLayer(keccak, leaves);
      var above := Layers(keccak, up);
      LastParent(leaves, |up|);
      ProofUnfolds(leaves, above, |leaves| - 1);
      ProofLength(above, |up| - 1);
      LastProofFull(keccak, up);
      Pow2Double(|above| - 1);
    }
  }

  lemma AllFromEnd(layers: seq<seq<Digest>>)
    requires layers != [] && Halving(layers)
    ensures forall j: nat {:trigger NamesFromEnd(layers, j)} :: 1 <= j <= |layers[0]| ==> NamesFromEnd(layers, j)
  {
    forall j: nat | 1 <= j <= |layers[0]| ensures NamesFromEnd(layers, j) {
      PathFromEnd(layers, j);
    }
  }

  lemma NotFullIsShorter(layers: seq<seq<Digest>>, i: nat)
    requires layers != [] && |ProofOf(layers, i)| != |layers| - 1
    ensures |ProofOf(layers, i)| < |layers| - 1
  {
    ProofLength(layers, i);
  }

  lemma NeverFull(keccak: Keccak, leaves: seq<Digest>)
    requires leaves != [] && !PowerOfTwo(|leaves|)
    ensures !LastIsFull(keccak, leaves)
  {
    if LastIsFull(keccak, leaves) {
      LastProofFull(keccak, leaves);
    }
  }

  lemma LastProofShort(keccak: Keccak, leaves: seq<Digest>)
    requires leaves != [] && !PowerOfTwo(|leaves|)
    ensures |ProofOf(Layers(keccak, leaves), |leaves| - 1)| < |Layers(keccak, leaves)| - 1
  {
    NeverFull(keccak, leaves);
    NotFullIsShorter(Layers(keccak, leaves), |leaves| - 1);
  }

  /** The path under -1 is longer than the last leaf's proof unless the leaves are a power of two. */
  lemma LastPathTooLong(keccak: Keccak, leaves: seq<Digest>)
    requires leaves != [] && !PowerOfTwo(|leaves|)
    ensures var layers := Layers(keccak, leaves);
      PathOf(layers, -1).Some? && |PathOf(layers, -1).value| > |ProofOf(layers, |leaves| - 1)|
  {
    LastPathLength(keccak, leaves);
    LastProofShort(keccak, leaves);
  }

  /** Index -1 gives the last leaf's own proof, and every index -j the proof of the leaf it
      names, if and only if the number of leaves is a power of two; where it is not, the
      path under -1 is too long. */
  lemma FromEndExact(keccak: Keccak, leaves: seq<Digest>)
    requires leaves != []
    ensures var layers := Layers(keccak, leaves);
      && (NamesFromEnd(layers, 1) <==> PowerOfTwo(|leaves|))
      && ((forall j: nat {:trigger NamesFromEnd(layers, j)} :: 1 <= j <= |leaves| ==> NamesFromEnd(layers, j))
          <==> PowerOfTwo(|leaves|))
      && (!PowerOfTwo(|leaves|) ==>
            PathOf(layers, -1).Some? && |PathOf(layers, -1).value| > |ProofOf(layers, |leaves| - 1)|)
  {
    var layers := Layers(keccak, leaves);
    if PowerOfTwo(|leaves|) {
      var h: nat :| |leaves| == Pow2(h);
      PowerHalves(keccak, leaves, h);
      AllFromEnd(layers);
    } else {
      LastPathTooLong(keccak, leaves);
      assert !NamesFromEnd(layers, 1);
    }
  }

  /** With an odd number of leaves, index -1 gives the promoted last leaf a sibling it
      does not have: with three, a proof of two entries in place of one. */
  lemma FromEndFails(keccak: Keccak, leaves: seq<Digest>)
    requires |leaves| == 3
    ensures var layers := Layers(keccak, leaves);
      |layers| == 3 && ProofOf(layers, 2) == [layers[1][0]] && PathOf(layers, -1) == Some([leaves[1], layers[1][0]])
  {
    var mid := NextLayer(keccak, leaves);
    var top := NextLayer(keccak, mid);
    assert Layers(keccak, mid) == [mid] + Layers(keccak, top) == [mid, top];
    assert Layers(keccak, leaves) == [leaves] + [mid, top] == [leaves, mid, top];
    var layers := Layers(keccak, leaves);
    assert layers[1..] == [mid, top] && [mid, top][1..] == [top];
    assert |mid| == 2 && SiblingAt(mid, -1) == Some([mid[0]]) && SiblingAt(leaves, -1) == Some([leaves[1]]);
    assert PathOf([top], -1) == Some([]) && ProofOf([top], 0) == [];
    assert [mid[0]] + [] == [mid[0]];
    assert PathOf([mid, top], -1) == Some([mid[0]]) && ProofOf([mid, top], 1) == [mid[0]];
    assert Sibling(leaves, 2) == [] && [] + [mid[0]] == [mid[0]];
    assert [leaves[1]] + [mid[0]] == [leaves[1], mid[0]];
    assert PathOf(layers, -1) == Prepend([leaves[1]], PathOf([mid, top], -1));
    assert ProofOf(layers, 2) == Sibling(leaves, 2) + ProofOf([mid, top], 1);
  }

  /** One turn of the proof loop: a level's sibling joins the siblings found so far. */
  lemma WalkStep(before: seq<Digest>, layers: seq<seq<Digest>>, l: nat, i: int)
    requires l + 1 < |layers|
    ensures var sib := SiblingAt(layers[l], i);
      Prepend(before, PathOf(layers[l..], i))
      == if sib.None? then None else Prepend(before + sib.value, PathOf(layers[l + 1..], i / 2))
  {
    assert layers[l..][1..] == layers[l + 1..] && layers[l..][0] == layers[l];
    var sib, rest := SiblingAt(layers[l], i), PathOf(layers[l + 1..], i / 2);
    if sib.Some? && rest.Some? {
      assert before + (sib.value + rest.value) == (before + sib.value) + rest.value;
    }
  }

  /** A proof is never longer than the height. */
  lemma {:induction false} ProofLength(layers: seq<seq<Digest>>, i: nat)
    requires layers != []
    ensures |ProofOf(layers, i)| <= |layers| - 1
  {
    if |layers| > 1 {
      ProofLength(layers[1..], i / 2);
    }
  }

  // ---- Soundness by domain separation --------------------------------------

  predicate Hashed(keccak: Keccak, pre: seq<Digest>, leaves: seq<Digest>) {
    |pre| == |leaves| && forall i :: 0 <= i < |pre| ==> leaves[i] == keccak(pre[i])
  }

  /** Walks an accepted proof down from node `i` of layer `l`, comparing what
      the verifier hashed with what the tree hashed. It ends at a leaf equal
      to the claimed one, or at two distinct inputs with one digest: a pair of
      64-byte nodes, or a 32-byte leaf preimage against a 64-byte node. */
  function Descend(keccak: Keccak, pre: seq<Digest>, leaves: seq<Digest>, l: nat, i: nat,
                   claimPre: Digest, proof: seq<Digest>): (r: Option<(Bytes, Bytes)>)
    requires leaves != [] && Hashed(keccak, pre, leaves)
    requires l < |Layers(keccak, leaves)| && i < |Layers(keccak, leaves)[l]|
    requires Climb(keccak, keccak(claimPre), proof) == Layers(keccak, leaves)[l][i]
    ensures r.None? ==> keccak(claimPre) in leaves
    ensures r.Some? ==> Collides(keccak, r.value)
    decreases |proof|, l
  {
    var n := |proof|;
    var last := if n == 0 then [] else SortedPair(Climb(keccak, keccak(claimPre), proof[..n - 1]), proof[n - 1]);
    if l == 0 then
      if n == 0 then None else Some((last, pre[i]))
    else
      assert Layers(keccak, leaves)[l] == NextLayer(keccak, Layers(keccak, leaves)[l - 1]) by {
        LayersLinked(keccak, leaves, l - 1);
      }
      var below := Layers(keccak, leaves)[l - 1];
      if 2 * i + 1 == |below| then
        Descend(keccak, pre, leaves, l - 1, 2 * i, claimPre, proof)
      else
        var node := SortedPair(below[2 * i], below[2 * i + 1]);
        if n == 0 then Some((claimPre, node))
        else if last != node then Some((last, node))
        else
          var child := Climb(keccak, keccak(claimPre), proof[..n - 1]);
          assert child == below[2 * i] || child == below[2 * i + 1] by {
            SortedPairInjective(child, proof[n - 1], below[2 * i], below[2 * i + 1]);
          }
          Descend(keccak, pre, leaves, l - 1, if child == below[2 * i] then 2 * i else 2 * i + 1,
                  claimPre, proof[..n - 1])
  }

  /** The whole reduction: from any accepted proof, of any length, that the
      digest of a 32-byte value is under the root. */
  function Refute(keccak: Keccak, pre: seq<Digest>, leaves: seq<Digest>,
                  claimPre: Digest, proof: seq<Digest>): (r: Option<(Bytes, Bytes)>)
    requires leaves != [] && Hashed(keccak, pre, leaves)
    requires Climb(keccak, keccak(claimPre), proof) == Root(keccak, leaves)
    ensures r.None? ==> keccak(claimPre) in leaves
    ensures r.Some? ==> Collides(keccak, r.value)
  {
    Descend(keccak, pre, leaves, |Layers(keccak, leaves)| - 1, 0, claimPre, proof)
  }

  /** Two inputs with one digest, or an input whose digest is the zero leaf. */
  datatype Evidence = Collision(pair: (Bytes, Bytes)) | ZeroPreimage(input: Bytes)

  predicate Breaks(keccak: Keccak, e: Evidence) {
    match e
    case Collision(pair) => Collides(keccak, pair)
    case ZeroPreimage(input) => keccak(input) == Zero()
  }

  /** Soundness when an empty list is published as a single zero leaf: nothing is in
      the list, and an accepted proof ends in an input that hashes to zero. */
  function RefutePublished(keccak: Keccak, pre: seq<Digest>, leaves: seq<Digest>,
                           claimPre: Digest, proof: seq<Digest>): (r: Option<Evidence>)
    requires Hashed(keccak, pre, leaves)
    requires Climb(keccak, keccak(claimPre), proof) == Root(keccak, if leaves == [] then [Zero()] else leaves)
    ensures r.None? ==> keccak(claimPre) in leaves
    ensures r.Some? ==> Breaks(keccak, r.value)
  {
    if leaves == [] then
      assert Layers(keccak, [Zero()]) == [[Zero()]];
      var n := |proof|;
      Some(ZeroPreimage(
        if n == 0 then claimPre
        else SortedPair(Climb(keccak, keccak(claimPre), proof[..n - 1]), proof[n - 1])))
    else
      match Refute(keccak, pre, leaves, claimPre, proof)
      case None => None
      case Some(pair) => Some(Collision(pair))
  }

  // ---- The class ------------------------------------------------------------

  class OZStandardMerkleTree {
    const keccak: Keccak
    var leaves: seq<Digest>
    var layers: seq<seq<Digest>>

    ghost predicate Valid()
      reads this
    {
      layers == if leaves == [] then [] else Layers(keccak, leaves)
    }

    constructor (keccak: Keccak, leaves: seq<Digest>)
      ensures Valid() && this.keccak == keccak && this.leaves == leaves
    {
      this.keccak := keccak;
      this.leaves := leaves;
      var built := BuildLayers(keccak, leaves);
      this.layers := built;
    }

    /** The root property: 32 zero bytes for an empty tree. */
    function RootOf(): (r: Digest)
      requires Valid()
      reads this
      ensures r == Root(keccak, leaves)
    {
      if layers == [] then Zero() else layers[|layers| - 1][0]
    }

    /** `ValueError` when the leaf is absent, else the proof at its first index. */
    method ProofFor(leaf: Digest) returns (proof: Option<seq<Digest>>)
      requires Valid()
      ensures proof.None? <==> leaf !in leaves
      ensures proof.Some? ==> Climb(keccak, leaf, proof.value) == Root(keccak, leaves)
    {
      var idx := FirstIndex(leaf);
      if idx == |leaves| {
        return None;
      }
      var path := ProofForIndex(idx);
      return path;
    }

    /** `list.index`; the length where the leaf is absent. */
    method FirstIndex(leaf: Digest) returns (idx: nat)
      ensures idx <= |leaves| && leaf !in leaves[..idx]
      ensures if idx < |leaves| then leaves[idx] == leaf else leaf !in leaves
    {
      idx := 0;
      while idx < |leaves| && leaves[idx] != leaf
        invariant idx <= |leaves|
        invariant leaf !in leaves[..idx]
      {
        idx := idx + 1;
      }
      assert leaves[..|leaves|] == leaves;
    }

    /** Any integer is taken for an index; None is Python's IndexError, which no index
        from 0 on raises. */
    method ProofForIndex(idx: int) returns (proof: Option<seq<Digest>>)
      requires Valid()
      ensures proof == PathOf(layers, idx)
      ensures idx >= 0 ==> proof == Some(ProofOf(layers, idx))
      ensures 0 <= idx < |leaves| ==> Climb(keccak, leaves[idx], proof.value) == Root(keccak, leaves)
      ensures idx >= 0 && leaves != [] ==> |proof.value| <= |layers| - 1
    {
      proof := Walk(layers, idx);
      if idx >= 0 {
        PathOfIndex(layers, idx);
        if leaves != [] {
          ProofLength(layers, idx);
        }
        if idx < |leaves| {
          ProofClimbs(keccak, leaves, idx);
        }
      }
    }

    /** The loop of `proof_for_index`. */
    static method Walk(layers: seq<seq<Digest>>, idx: int) returns (proof: Option<seq<Digest>>)
      ensures proof == PathOf(layers, idx)
    {
      var found: seq<Digest> := [];
      var i, l := idx, 0;
      assert layers[0..] == layers;
      PrependNothing(PathOf(layers, idx));
      while l + 1 < |layers|
        invariant l <= |layers|
        invariant Prepend(found, PathOf(layers[l..], i)) == PathOf(layers, idx)
      {
        WalkStep(found, layers, l, i);
        var siblingIdx := if i % 2 == 0 then i + 1 else i - 1;
        if siblingIdx < 0 - |layers[l]| {
          return None;
        }
        if siblingIdx < |layers[l]| {
          found := found + [layers[l][if siblingIdx >= 0 then siblingIdx else |layers[l]| + siblingIdx]];
        } else {
          assert found == found + [];
        }
        i := i / 2;
        l := l + 1;
      }
      assert PathOf(layers[l..], i) == Some([]) && found + [] == found;
      return Some(found);
    }

    /** Rejects anything that is not 32 bytes, then climbs. */
    static method Verify(keccak: Keccak, leaf: Bytes, proof: seq<Bytes>, root: Bytes) returns (ok: bool)
      ensures ok <==>
        && |leaf| == 32 && |root| == 32
        && (forall i :: 0 <= i < |proof| ==> |proof[i]| == 32)
        && Climb(keccak, leaf, Digests(proof)) == root
    {
      if |leaf| != 32 || |root| != 32 {
        return false;
      }
      var computed: Digest := leaf;
      var j := 0;
      while j < |proof|
        invariant j <= |proof|
        invariant forall i :: 0 <= i < j ==> |proof[i]| == 32
        invariant computed == Climb(keccak, leaf, Digests(proof[..j]))
      {
        if |proof[j]| != 32 {
          return false;
        }
        assert Digests(proof[..j + 1])[..j] == Digests(proof[..j]);
        computed := HashPair(keccak, computed, proof[j]);
        j := j + 1;
      }
      assert proof[..j] == proof;
      return computed == root;
    }

    /** The inner loop: one layer above a layer, an odd last node promoted. */
    static method BuildNext(keccak: Keccak, cur: seq<Digest>) returns (nxt: seq<Digest>)
      ensures nxt == NextLayer(keccak, cur)
    {
      nxt := [];
      var i := 0;
      while i < |cur|
        invariant i == 2 * |nxt| <= |cur| + 1
        invariant forall j :: 0 <= j < |nxt| ==> nxt[j] == Above(keccak, cur, j)
      {
        if i + 1 < |cur| {
          nxt := nxt + [HashPair(keccak, cur[i], cur[i + 1])];
        } else {
          nxt := nxt + [cur[i]];
        }
        i := i + 2;
      }
    }

    static method BuildLayers(keccak: Keccak, leaves: seq<Digest>) returns (layers: seq<seq<Digest>>)
      ensures layers == if leaves == [] then [] else Layers(keccak, leaves)
    {
      if leaves == [] {
        return [];
      }
      layers := [leaves];
      while |layers[|layers| - 1]| > 1
        invariant layers != [] && layers[|layers| - 1] != []
        invariant layers[..|layers| - 1] + Layers(keccak, layers[|layers| - 1]) == Layers(keccak, leaves)
        decreases |layers[|layers| - 1]|
      {
        var cur := layers[|layers| - 1];
        var nxt := BuildNext(keccak, cur);
        LayersGrow(keccak, layers[..|layers| - 1], cur);
        assert (layers + [nxt])[..|layers|] == layers[..|layers| - 1] + [cur];
        layers := layers + [nxt];
      }
    }
  }

  /** The 32-byte strings of a proof, as digests. */
  ghost function Digests(proof: seq<Bytes>): (r: seq<Digest>)
    requires forall i :: 0 <= i < |proof| ==> |proof[i]| == 32
    ensures |r| == |proof| && forall i :: 0 <= i < |r| ==> r[i] == proof[i]
  {
    seq(|proof|, i requires 0 <= i < |proof| => proof[i])
  }
}
