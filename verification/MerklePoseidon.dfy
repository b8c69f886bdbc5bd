/** The fixed-depth tagged Poseidon tree of merkle_poseidon.py: a sparse tree
    proved equal to the dense one over the zero-padded leaves. */
module MerklePoseidon {
  import opened Base

  const NODE_TAG: Felt := 2

  /** The three field elements hashed for a node. Every caller passes reduced
      values, so `int(left) % BN254_PRIME` is `left`. */
  function NodeInput(left: Felt, right: Felt): seq<Felt> {
    [NODE_TAG, left, right]
  }

  /** `_hash_node`. */
  function HashNode(h: PoseidonHash, left: Felt, right: Felt): Felt {
    h(NodeInput(left, right))
  }

  // ---- The dense reference --------------------------------------------------

  /** Leaves reduced mod p. */
  function Felts(leaves: seq<int>): seq<Felt> {
    seq(|leaves|, i requires 0 <= i < |leaves| => ToFelt(leaves[i]))
  }

  lemma FeltsOfFelts(leaves: seq<Felt>)
    ensures Felts(leaves) == leaves
  {
  }

  /** Bottom entry `i` of the padded tree. */
  function Leaf(leaves: seq<Felt>, i: nat): Felt {
    if i < |leaves| then leaves[i] else 0
  }

  /** Node `i` of `level` in the dense tree over the leaves padded with zeros. */
  function Dense(h: PoseidonHash, leaves: seq<Felt>, level: nat, i: nat): Felt {
    if level == 0 then Leaf(leaves, i)
    else HashNode(h, Dense(h, leaves, level - 1, 2 * i), Dense(h, leaves, level - 1, 2 * i + 1))
  }

  /** The tree of depth 2 written out: the tag 2, then the left node, then the right. */
  lemma FourLeaves(h: PoseidonHash, a: Felt, b: Felt, c: Felt)
    ensures Dense(h, [a, b, c], 2, 0) == h([2, h([2, a, b]), h([2, c, 0])])
  {
    assert Dense(h, [a, b, c], 1, 0) == h([2, a, b]);
    assert Dense(h, [a, b, c], 1, 1) == h([2, c, 0]);
  }

  /** The ancestor of bottom entry `j` on row `level`. */
  function Up(j: nat, level: nat): nat {
    if level == 0 then j else Up(j, level - 1) / 2
  }

  lemma {:induction false} UpBound(j: nat, depth: nat, level: nat)
    requires j < Pow2(depth) && level <= depth
    ensures Up(j, level) < Pow2(depth - level)
  {
    if level > 0 {
      UpBound(j, depth, level - 1);
      assert Pow2(depth - (level - 1)) == 2 * Pow2(depth - level);
    }
  }

  /** Appending a leaf changes, on each level, only the node above it. */
  lemma {:induction false} DenseLocal(h: PoseidonHash, leaves: seq<Felt>, leaf: Felt, level: nat, i: nat)
    requires i != Up(|leaves|, level)
    ensures Dense(h, leaves + [leaf], level, i) == Dense(h, leaves, level, i)
    decreases level
  {
    if level > 0 {
      DenseLocal(h, leaves, leaf, level - 1, 2 * i);
      DenseLocal(h, leaves, leaf, level - 1, 2 * i + 1);
    }
  }

  lemma OthersUnchanged(h: PoseidonHash, leaves: seq<Felt>, leaf: Felt, level: nat)
    ensures forall i: nat {:trigger Dense(h, leaves + [leaf], level, i)} :: i != Up(|leaves|, level) ==>
      Dense(h, leaves + [leaf], level, i) == Dense(h, leaves, level, i)
  {
    forall i: nat | i != Up(|leaves|, level)
      ensures Dense(h, leaves + [leaf], level, i) == Dense(h, leaves, level, i)
    {
      DenseLocal(h, leaves, leaf, level, i);
    }
  }

  /** A node and its sibling, in order, hash to the node above. */
  lemma ParentHash(h: PoseidonHash, leaves: seq<Felt>, level: nat, i: nat, left: Felt, right: Felt)
    requires left == Dense(h, leaves, level, if i % 2 == 1 then i - 1 else i)
    requires right == Dense(h, leaves, level, if i % 2 == 1 then i else i + 1)
    ensures HashNode(h, left, right) == Dense(h, leaves, level + 1, i / 2)
  {
    assert (if i % 2 == 1 then i - 1 else i) == 2 * (i / 2);
  }

  // ---- The same tree row by row ---------------------------------------------

  function Pad(leaves: seq<Felt>, depth: nat): (r: seq<Felt>)
    requires |leaves| <= Pow2(depth)
    ensures |r| == Pow2(depth)
  {
    seq(Pow2(depth), i requires 0 <= i => Leaf(leaves, i))
  }

  type NodeHash = (Felt, Felt) -> Felt

  /** `_hash_node` as a value. */
  function Hasher(h: PoseidonHash): NodeHash {
    (left, right) => HashNode(h, left, right)
  }

  /** The row above: nodes hashed two by two. */
  function Halve(node: NodeHash, row: seq<Felt>): (r: seq<Felt>)
    ensures |r| == |row| / 2
  {
    seq(|row| / 2, i requires 0 <= i < |row| / 2 => node(row[2 * i], row[2 * i + 1]))
  }

  /** Row `level` above a bottom row. */
  function Row(node: NodeHash, bottom: seq<Felt>, level: nat): seq<Felt> {
    if level == 0 then bottom else Halve(node, Row(node, bottom, level - 1))
  }

  lemma {:induction false} RowLength(node: NodeHash, bottom: seq<Felt>, level: nat)
    ensures |Row(node, bottom, level)| == Up(|bottom|, level)
    decreases level
  {
    if level > 0 {
      RowLength(node, bottom, level - 1);
    }
  }

  lemma {:induction false} UpOfPower(level: nat, rest: nat)
    ensures Up(Pow2(level + rest), level) == Pow2(rest)
    decreases level
  {
    if level > 0 {
      UpOfPower(level - 1, rest + 1);
      Pow2Double(rest);
    }
  }

  /** The nodes of a binary tree, by level and index. */
  type Tree = (nat, nat) -> Felt

  /** The nodes above `level` are the hashes of their two children. */
  ghost predicate Hashed(node: NodeHash, tree: Tree, level: nat) {
    forall i: nat {:trigger tree(level + 1, i)} ::
      tree(level + 1, i) == node(tree(level, 2 * i), tree(level, 2 * i + 1))
  }

  /** A row holding the nodes of `level`. */
  ghost predicate RowAgrees(tree: Tree, row: seq<Felt>, level: nat) {
    forall i: nat {:trigger row[i]} :: i < |row| ==> row[i] == tree(level, i)
  }

  lemma HalveAgrees(node: NodeHash, tree: Tree, row: seq<Felt>, level: nat)
    requires RowAgrees(tree, row, level) && Hashed(node, tree, level)
    ensures RowAgrees(tree, Halve(node, row), level + 1)
  {
    forall i: nat | i < |row| / 2 ensures Halve(node, row)[i] == tree(level + 1, i) {
      assert row[2 * i] == tree(level, 2 * i) && row[2 * i + 1] == tree(level, 2 * i + 1);
    }
  }

  lemma {:induction false} RowIsTree(node: NodeHash, tree: Tree, bottom: seq<Felt>, level: nat)
    requires RowAgrees(tree, bottom, 0) && forall l: nat {:trigger Hashed(node, tree, l)} :: Hashed(node, tree, l)
    ensures RowAgrees(tree, Row(node, bottom, level), level)
    decreases level
  {
    if level > 0 {
      var below := Row(node, bottom, level - 1);
      RowIsTree(node, tree, bottom, level - 1);
      assert Hashed(node, tree, level - 1);
      HalveAgrees(node, tree, below, level - 1);
      assert Row(node, bottom, level) == Halve(node, below);
    }
  }

  function DenseTree(h: PoseidonHash, leaves: seq<Felt>): Tree {
    (level, i) => Dense(h, leaves, level, i)
  }

  lemma AllHashed(h: PoseidonHash, leaves: seq<Felt>)
    ensures forall l: nat {:trigger Hashed(Hasher(h), DenseTree(h, leaves), l)} ::
      Hashed(Hasher(h), DenseTree(h, leaves), l)
  {
  }

  lemma PadAgrees(h: PoseidonHash, leaves: seq<Felt>, depth: nat)
    requires |leaves| <= Pow2(depth)
    ensures RowAgrees(DenseTree(h, leaves), Pad(leaves, depth), 0) && |Pad(leaves, depth)| == Pow2(depth)
  {
  }

  lemma RowSize(node: NodeHash, bottom: seq<Felt>, level: nat, rest: nat)
    requires |bottom| == Pow2(level + rest)
    ensures |Row(node, bottom, level)| == Pow2(rest)
  {
    RowLength(node, bottom, level);
    UpOfPower(level, rest);
  }

  lemma DenseRowSize(h: PoseidonHash, leaves: seq<Felt>, depth: nat, level: nat)
    requires |leaves| <= Pow2(depth) && level <= depth
    ensures |Row(Hasher(h), Pad(leaves, depth), level)| == Pow2(depth - level)
  {
    var rest := depth - level;
    assert level + rest == depth;
    RowSize(Hasher(h), Pad(leaves, depth), level, rest);
  }

  lemma DenseRowAgrees(h: PoseidonHash, leaves: seq<Felt>, depth: nat, level: nat)
    requires |leaves| <= Pow2(depth)
    ensures RowAgrees(DenseTree(h, leaves), Row(Hasher(h), Pad(leaves, depth), level), level)
  {
    PadAgrees(h, leaves, depth);
    AllHashed(h, leaves);
    RowIsTree(Hasher(h), DenseTree(h, leaves), Pad(leaves, depth), level);
  }

  lemma RowEntry(tree: Tree, row: seq<Felt>, level: nat, i: nat)
    requires RowAgrees(tree, row, level) && i < |row|
    ensures row[i] == tree(level, i)
  {
  }

  /** Materialising all 2^depth padded leaves and hashing row by row gives the
      same nodes; the last row is the root alone. */
  lemma DenseIsRow(h: PoseidonHash, leaves: seq<Felt>, depth: nat, level: nat, i: nat)
    requires |leaves| <= Pow2(depth) && level <= depth && i < Pow2(depth - level)
    ensures |Row(Hasher(h), Pad(leaves, depth), level)| == Pow2(depth - level)
    ensures Row(Hasher(h), Pad(leaves, depth), level)[i] == Dense(h, leaves, level, i)
  {
    DenseRowSize(h, leaves, depth, level);
    DenseRowAgrees(h, leaves, depth, level);
    RowEntry(DenseTree(h, leaves), Row(Hasher(h), Pad(leaves, depth), level), level, i);
  }

  // ---- Proofs ------------------------------------------------------------------

  datatype PoseidonProof = PoseidonProof(pathElements: seq<int>, pathIndices: seq<int>)

  /** One step of `verify`: side 0 keeps the current node on the left. */
  function StepInput(cur: Felt, sib: int, side: int): seq<Felt> {
    if side == 0 then NodeInput(cur, ToFelt(sib)) else NodeInput(ToFelt(sib), cur)
  }

  function Climb(h: PoseidonHash, leaf: int, els: seq<int>, sides: seq<int>): Felt
    requires |els| == |sides|
  {
    if els == [] then ToFelt(leaf)
    else
      var n := |els| - 1;
      h(StepInput(Climb(h, leaf, els[..n], sides[..n]), els[n], sides[n]))
  }

  predicate Accepts(h: PoseidonHash, leaf: int, proof: PoseidonProof, root: int) {
    |proof.pathElements| == |proof.pathIndices| &&
    Climb(h, leaf, proof.pathElements, proof.pathIndices) == ToFelt(root)
  }

  /** The leaf index the path spells, lowest bit first; any nonzero side counts as 1. */
  function Spelled(sides: seq<int>): nat {
    if sides == [] then 0
    else
      var n := |sides| - 1;
      Spelled(sides[..n]) + if sides[n] == 0 then 0 else Pow2(n)
  }

  lemma {:induction false} SpelledBound(sides: seq<int>)
    ensures Spelled(sides) < Pow2(|sides|)
  {
    if sides != [] {
      SpelledBound(sides[..|sides| - 1]);
    }
  }

  /** The bottom index reached from node `i` by following the sides downwards. */
  function Below(i: nat, sides: seq<int>): nat
    decreases |sides|
  {
    if sides == [] then i
    else
      var n := |sides| - 1;
      Below(2 * i + (if sides[n] == 0 then 0 else 1), sides[..n])
  }

  lemma ShiftedBit(i: nat, bit: nat, m: nat)
    requires bit <= 1
    ensures (2 * i + bit) * m == i * (2 * m) + if bit == 0 then 0 else m
  {
    assert (2 * i) * m == i * (2 * m);
    if bit == 1 {
      assert (2 * i + 1) * m == (2 * i) * m + m;
    }
  }

  /** From the root, following the sides downwards reaches the index they spell. */
  lemma {:induction false} BelowIsSpelled(i: nat, sides: seq<int>)
    ensures Below(i, sides) == i * Pow2(|sides|) + Spelled(sides)
    decreases |sides|
  {
    if sides != [] {
      var n := |sides| - 1;
      var bit := if sides[n] == 0 then 0 else 1;
      BelowIsSpelled(2 * i + bit, sides[..n]);
      ShiftedBit(i, bit, Pow2(n));
    }
  }

  /** Walks an accepted proof down from the node it reached after |els| steps,
      node `i` of that level, to the leaf it claims. */
  function Descend(h: PoseidonHash, leaves: seq<Felt>, leaf: int, els: seq<int>, sides: seq<int>, i: nat)
    : (r: Option<(seq<Felt>, seq<Felt>)>)
    requires |els| == |sides|
    requires Climb(h, leaf, els, sides) == Dense(h, leaves, |els|, i)
    ensures r.None? ==> ToFelt(leaf) == Leaf(leaves, Below(i, sides))
    ensures r.Some? ==> Collides(h, r.value)
    decreases |els|
  {
    if els == [] then None
    else
      var n := |els| - 1;
      var node := NodeInput(Dense(h, leaves, n, 2 * i), Dense(h, leaves, n, 2 * i + 1));
      var claimed := StepInput(Climb(h, leaf, els[..n], sides[..n]), els[n], sides[n]);
      if claimed != node then Some((claimed, node))
      else
        assert claimed[1] == node[1] && claimed[2] == node[2];
        Descend(h, leaves, leaf, els[..n], sides[..n], 2 * i + if sides[n] == 0 then 0 else 1)
  }

  /** Binding: an accepted proof of length `depth` fixes the leaf at the index
      it spells, which is in range. */
  function Refute(h: PoseidonHash, leaves: seq<Felt>, depth: nat, leaf: int, proof: PoseidonProof)
    : (r: Option<(seq<Felt>, seq<Felt>)>)
    requires |leaves| <= Pow2(depth) && |proof.pathElements| == depth
    requires Accepts(h, leaf, proof, Dense(h, leaves, depth, 0))
    ensures Spelled(proof.pathIndices) < Pow2(depth)
    ensures r.None? ==> ToFelt(leaf) == Leaf(leaves, Spelled(proof.pathIndices))
    ensures r.Some? ==> Collides(h, r.value)
  {
    BelowIsSpelled(0, proof.pathIndices);
    SpelledBound(proof.pathIndices);
    Descend(h, leaves, leaf, proof.pathElements, proof.pathIndices, 0)
  }

  /** Two padded leaf lists agree on every entry below node `i` of `level`. */
  ghost predicate AgreeUnder(xs: seq<Felt>, ys: seq<Felt>, level: nat, i: nat) {
    forall j: nat :: Up(j, level) == i ==> Leaf(xs, j) == Leaf(ys, j)
  }

  lemma AgreeAbove(xs: seq<Felt>, ys: seq<Felt>, level: nat, i: nat)
    requires AgreeUnder(xs, ys, level, 2 * i) && AgreeUnder(xs, ys, level, 2 * i + 1)
    ensures AgreeUnder(xs, ys, level + 1, i)
  {
    forall j: nat | Up(j, level + 1) == i ensures Leaf(xs, j) == Leaf(ys, j) {
      assert Up(j, level) == 2 * i || Up(j, level) == 2 * i + 1;
    }
  }

  /** The input hashed for node `i` of `level` + 1. */
  function Children(h: PoseidonHash, xs: seq<Felt>, level: nat, i: nat): seq<Felt> {
    NodeInput(Dense(h, xs, level, 2 * i), Dense(h, xs, level, 2 * i + 1))
  }

  lemma SameChildren(h: PoseidonHash, xs: seq<Felt>, ys: seq<Felt>, level: nat, i: nat)
    requires Children(h, xs, level, i) == Children(h, ys, level, i)
    ensures Dense(h, xs, level, 2 * i) == Dense(h, ys, level, 2 * i)
    ensures Dense(h, xs, level, 2 * i + 1) == Dense(h, ys, level, 2 * i + 1)
  {
    var x, y := Children(h, xs, level, i), Children(h, ys, level, i);
    assert x[1] == y[1] && x[2] == y[2];
  }

  /** Two trees that agree on a node agree on every padded leaf below it, or
      two node inputs collide. */
  function Compare(h: PoseidonHash, xs: seq<Felt>, ys: seq<Felt>, level: nat, i: nat)
    : (r: Option<(seq<Felt>, seq<Felt>)>)
    requires Dense(h, xs, level, i) == Dense(h, ys, level, i)
    ensures r.None? ==> AgreeUnder(xs, ys, level, i)
    ensures r.Some? ==> Collides(h, r.value)
    decreases level
  {
    if level == 0 then None
    else
      var nx, ny := Children(h, xs, level - 1, i), Children(h, ys, level - 1, i);
      if nx != ny then Some((nx, ny))
      else
        SameChildren(h, xs, ys, level - 1, i);
        var l := Compare(h, xs, ys, level - 1, 2 * i);
        if l.Some? then l else
        var r := Compare(h, xs, ys, level - 1, 2 * i + 1);
        if r.Some? then r else
          AgreeAbove(xs, ys, level - 1, i);
          None
  }

  /** Equal roots at one depth: equal padded leaf vectors, or a collision. */
  function CompareRoots(h: PoseidonHash, xs: seq<Felt>, ys: seq<Felt>, depth: nat): (r: Option<(seq<Felt>, seq<Felt>)>)
    requires |xs| <= Pow2(depth) && |ys| <= Pow2(depth)
    requires Dense(h, xs, depth, 0) == Dense(h, ys, depth, 0)
    ensures r.None? ==> Pad(xs, depth) == Pad(ys, depth)
    ensures r.Some? ==> Collides(h, r.value)
  {
    forall j: nat | j < Pow2(depth) ensures Up(j, depth) == 0 {
      UpBound(j, depth, depth);
    }
    Compare(h, xs, ys, depth, 0)
  }

  // ---- Proofs of any length ----------------------------------------------------

  /** What breaks the tree: two inputs with one image, or an input hashing to the
      zero of an empty slot. */
  datatype Evidence = Collision(pair: (seq<Felt>, seq<Felt>)) | ZeroPreimage(input: seq<Felt>)

  predicate Breaks(h: PoseidonHash, e: Evidence) {
    match e
    case Collision(pair) => Collides(h, pair)
    case ZeroPreimage(input) => h(input) == 0
  }

  /** An input that no node hashes, because its first element is not the node tag. */
  predicate LeafInput(x: seq<Felt>) {
    x != [] && x[0] != NODE_TAG
  }

  predicate Tagged(h: PoseidonHash, pre: seq<seq<Felt>>, leaves: seq<Felt>) {
    |pre| == |leaves| && forall i :: 0 <= i < |pre| ==> LeafInput(pre[i]) && leaves[i] == h(pre[i])
  }

  /** Walks an accepted proof of any length down from node `i` of `level`. It can
      end early, at a node, or late, below a leaf: the tag tells them apart. */
  function DescendTagged(h: PoseidonHash, pre: seq<seq<Felt>>, leaves: seq<Felt>, level: nat, i: nat,
                         claimPre: seq<Felt>, els: seq<int>, sides: seq<int>): (r: Option<Evidence>)
    requires Tagged(h, pre, leaves) && LeafInput(claimPre) && |els| == |sides|
    requires Climb(h, h(claimPre), els, sides) == Dense(h, leaves, level, i)
    ensures r.None? ==> h(claimPre) in leaves
    ensures r.Some? ==> Breaks(h, r.value)
    decreases |els|
  {
    var n := |els|;
    var last :=
      if n == 0 then claimPre
      else StepInput(Climb(h, h(claimPre), els[..n - 1], sides[..n - 1]), els[n - 1], sides[n - 1]);
    if level == 0 then
      if i >= |leaves| then Some(ZeroPreimage(last))
      else if n == 0 then None
      else Some(Collision((last, pre[i])))
    else
      var node := Children(h, leaves, level - 1, i);
      if last != node then Some(Collision((last, node)))
      else
        assert n > 0 && last[1] == node[1] && last[2] == node[2];
        DescendTagged(h, pre, leaves, level - 1, 2 * i + if sides[n - 1] == 0 then 0 else 1,
                      claimPre, els[..n - 1], sides[..n - 1])
  }

  /** Soundness by tags: from any accepted proof, of any length, that a value with
      a leaf-tagged preimage is under the root of such leaves, the value is one of
      them, or two inputs collide, or an input hashes to zero. */
  function RefuteTagged(h: PoseidonHash, pre: seq<seq<Felt>>, leaves: seq<Felt>, depth: nat,
                        claimPre: seq<Felt>, proof: PoseidonProof): (r: Option<Evidence>)
    requires Tagged(h, pre, leaves) && LeafInput(claimPre)
    requires Accepts(h, h(claimPre), proof, Dense(h, leaves, depth, 0))
    ensures r.None? ==> h(claimPre) in leaves
    ensures r.Some? ==> Breaks(h, r.value)
  {
    DescendTagged(h, pre, leaves, depth, 0, claimPre, proof.pathElements, proof.pathIndices)
  }

  // ---- Generated proofs --------------------------------------------------------

  function SiblingIndex(i: nat): nat {
    if i % 2 == 1 then i - 1 else i + 1
  }

  /** The first `n` steps of the path of index `i`. */
  function PathElements(h: PoseidonHash, leaves: seq<Felt>, i: nat, n: nat): (r: seq<int>)
    ensures |r| == n
  {
    if n == 0 then []
    else PathElements(h, leaves, i, n - 1) + [Dense(h, leaves, n - 1, SiblingIndex(Up(i, n - 1)))]
  }

  function PathIndices(i: nat, n: nat): (r: seq<int>)
    ensures |r| == n
  {
    if n == 0 then [] else PathIndices(i, n - 1) + [Up(i, n - 1) % 2]
  }

  function ProofOf(h: PoseidonHash, leaves: seq<Felt>, i: nat, depth: nat): PoseidonProof {
    PoseidonProof(PathElements(h, leaves, i, depth), PathIndices(i, depth))
  }

  /** A node hashed with its sibling on the side its index says is the node above. */
  lemma StepUp(h: PoseidonHash, leaves: seq<Felt>, level: nat, i: nat)
    ensures h(StepInput(Dense(h, leaves, level, i), Dense(h, leaves, level, SiblingIndex(i)), i % 2))
         == Dense(h, leaves, level + 1, i / 2)
  {
    if i % 2 == 0 {
      assert i == 2 * (i / 2);
    } else {
      assert i == 2 * (i / 2) + 1;
    }
  }

  lemma ClimbMore(h: PoseidonHash, leaf: int, els: seq<int>, sides: seq<int>, el: int, side: int)
    requires |els| == |sides|
    ensures Climb(h, leaf, els + [el], sides + [side]) == h(StepInput(Climb(h, leaf, els, sides), el, side))
  {
    assert (els + [el])[..|els|] == els && (sides + [side])[..|els|] == sides;
  }

  /** A path that reaches node `i` of `level` reaches the node above with the sibling of `i`. */
  lemma ClimbStep(h: PoseidonHash, leaves: seq<Felt>, leaf: int, els: seq<int>, sides: seq<int>, level: nat, i: nat)
    requires |els| == |sides| && Climb(h, leaf, els, sides) == Dense(h, leaves, level, i)
    ensures Climb(h, leaf, els + [Dense(h, leaves, level, SiblingIndex(i))], sides + [i % 2])
         == Dense(h, leaves, level + 1, i / 2)
  {
    ClimbMore(h, leaf, els, sides, Dense(h, leaves, level, SiblingIndex(i)), i % 2);
    StepUp(h, leaves, level, i);
  }

  lemma SpelledMore(sides: seq<int>, side: int)
    ensures Spelled(sides + [side]) == Spelled(sides) + if side == 0 then 0 else Pow2(|sides|)
  {
    assert (sides + [side])[..|sides|] == sides;
  }

  /** The first `n` steps of the path of `i` lead from its leaf to its ancestor. */
  ghost predicate Reaches(h: PoseidonHash, leaves: seq<Felt>, i: nat, n: nat) {
    Climb(h, Leaf(leaves, i), PathElements(h, leaves, i, n), PathIndices(i, n)) == Dense(h, leaves, n, Up(i, n))
  }

  lemma PathUnfolds(h: PoseidonHash, leaves: seq<Felt>, i: nat, n: nat)
    ensures PathElements(h, leaves, i, n + 1)
         == PathElements(h, leaves, i, n) + [Dense(h, leaves, n, SiblingIndex(Up(i, n)))]
    ensures PathIndices(i, n + 1) == PathIndices(i, n) + [Up(i, n) % 2] && Up(i, n + 1) == Up(i, n) / 2
  {
  }

  lemma ReachesNext(h: PoseidonHash, leaves: seq<Felt>, i: nat, n: nat)
    requires Reaches(h, leaves, i, n)
    ensures Reaches(h, leaves, i, n + 1)
  {
    PathUnfolds(h, leaves, i, n);
    ClimbStep(h, leaves, Leaf(leaves, i), PathElements(h, leaves, i, n), PathIndices(i, n), n, Up(i, n));
  }

  lemma {:induction false} PathClimbs(h: PoseidonHash, leaves: seq<Felt>, i: nat, n: nat)
    ensures Reaches(h, leaves, i, n)
    decreases n
  {
    if n == 0 {
      ReachesLeaf(h, leaves, i);
    } else {
      PathClimbs(h, leaves, i, n - 1);
      ReachesNext(h, leaves, i, n - 1);
    }
  }

  lemma ReachesLeaf(h: PoseidonHash, leaves: seq<Felt>, i: nat)
    ensures Reaches(h, leaves, i, 0)
  {
  }

  lemma SpellStep(i: nat, up: nat, m: nat, low: nat)
    requires i == up * m + low
    ensures i == (up / 2) * (2 * m) + (low + if up % 2 == 0 then 0 else m)
  {
    ShiftedBit(up / 2, up % 2, m);
  }

  lemma {:induction false} PathSpells(i: nat, n: nat)
    ensures i == Up(i, n) * Pow2(n) + Spelled(PathIndices(i, n))
  {
    if n > 0 {
      PathSpells(i, n - 1);
      var up := Up(i, n - 1);
      SpelledMore(PathIndices(i, n - 1), up % 2);
      Pow2Double(n - 1);
      SpellStep(i, up, Pow2(n - 1), Spelled(PathIndices(i, n - 1)));
    }
  }

  lemma RootIndex(i: nat, depth: nat)
    requires i < Pow2(depth)
    ensures Up(i, depth) == 0 && Up(i, depth) * Pow2(depth) == 0
  {
    UpBound(i, depth, depth);
  }

  lemma ReducedAccepts(h: PoseidonHash, leaf: Felt, proof: PoseidonProof, root: Felt)
    requires |proof.pathElements| == |proof.pathIndices|
    requires Climb(h, leaf, proof.pathElements, proof.pathIndices) == root
    ensures Accepts(h, leaf, proof, root)
  {
  }

  /** Completeness: for every index below 2^depth, inserted or not, the path
      verifies the padded leaf against the root and its bits spell the index. */
  lemma ProofVerifies(h: PoseidonHash, leaves: seq<Felt>, i: nat, depth: nat)
    requires i < Pow2(depth)
    ensures Accepts(h, Leaf(leaves, i), ProofOf(h, leaves, i, depth), Dense(h, leaves, depth, 0))
    ensures Spelled(PathIndices(i, depth)) == i
  {
    RootIndex(i, depth);
    PathClimbs(h, leaves, i, depth);
    ReducedAccepts(h, Leaf(leaves, i), ProofOf(h, leaves, i, depth), Dense(h, leaves, depth, 0));
    PathSpells(i, depth);
  }

  // ---- The class -----------------------------------------------------------------

  class PoseidonMerkleTree {
    const h: PoseidonHash
    const depth: nat
    var leaves: seq<Felt>
    var zeros: seq<Felt>
    var nodes: seq<map<nat, Felt>>

    ghost predicate Shaped()
      reads this
    {
      |zeros| == |nodes| == depth + 1
    }

    /** `_node_at`: the stored node, or the root of an empty subtree. */
    function NodeAt(level: nat, index: nat): Felt
      requires Shaped() && level <= depth
      reads this
    {
      if index in nodes[level] then nodes[level][index] else zeros[level]
    }

    /** Levels `lo` to `hi` hold exactly the dense tree over `xs`. */
    ghost predicate Represents(xs: seq<Felt>, lo: nat, hi: nat)
      requires Shaped() && hi <= depth
      reads this
    {
      forall level: nat, i: nat {:trigger NodeAt(level, i)} :: lo <= level <= hi ==>
        NodeAt(level, i) == Dense(h, xs, level, i)
    }

    ghost predicate Valid()
      reads this
    {
      Shaped() && Represents(leaves, 0, depth)
    }

    /** `ValueError` for a depth below 1 or more than 2^depth leaves. */
    static method New(h: PoseidonHash, depth: nat, leaves: seq<int>) returns (tree: Option<PoseidonMerkleTree>)
      ensures tree.None? <==> depth < 1 || |leaves| > Pow2(depth)
      ensures tree.Some? ==> tree.value.Valid() && tree.value.h == h && tree.value.depth == depth
      ensures tree.Some? ==> tree.value.leaves == Felts(leaves)
    {
      if depth < 1 || |leaves| > Pow2(depth) {
        return None;
      }
      var t := new PoseidonMerkleTree(h, depth, leaves);
      return Some(t);
    }

    constructor (h: PoseidonHash, depth: nat, leaves: seq<int>)
      requires depth >= 1 && |leaves| <= Pow2(depth)
      ensures Valid()
      ensures this.h == h && this.depth == depth && this.leaves == Felts(leaves)
    {
      this.h := h;
      this.depth := depth;
      this.leaves := Felts(leaves);
      var emptySubtrees := Zeros(h, depth);
      this.zeros := emptySubtrees;
      this.nodes := seq(depth + 1, i => map[]);
      new;
      InsertAll();
    }

    /** The constructor's loop. */
    method InsertAll()
      requires Shaped() && Represents([], 0, depth)
      modifies this`nodes
      ensures Valid()
    {
      assert leaves[..0] == [];
      var k := 0;
      while k < |leaves|
        invariant k <= |leaves| && Shaped() && Represents(leaves[..k], 0, depth)
      {
        assert leaves[..k + 1] == leaves[..k] + [leaves[k]];
        Insert(k, leaves[k], leaves[..k]);
        k := k + 1;
      }
      assert leaves[..k] == leaves;
    }

    /** The root of an all-zero subtree of each height. */
    static method Zeros(h: PoseidonHash, depth: nat) returns (zeros: seq<Felt>)
      ensures |zeros| == depth + 1
      ensures forall l, i: nat :: 0 <= l <= depth ==> zeros[l] == Dense(h, [], l, i)
    {
      zeros := seq(depth + 1, i => 0);
      var d := 1;
      while d <= depth
        invariant 1 <= d <= depth + 1 == |zeros|
        invariant forall l, i: nat :: 0 <= l < d ==> zeros[l] == Dense(h, [], l, i)
      {
        var zero := HashNode(h, zeros[d - 1], zeros[d - 1]);
        forall i: nat ensures Dense(h, [], d, i) == zero {
          assert Dense(h, [], d - 1, 2 * i) == zeros[d - 1] == Dense(h, [], d - 1, 2 * i + 1);
        }
        zeros := zeros[d := zero];
        d := d + 1;
      }
    }

    /** One assignment to a level's dictionary. */
    method SetNode(level: nat, index: nat, value: Felt)
      requires Shaped() && level <= depth
      modifies this`nodes
      ensures Shaped()
      ensures forall l: nat, i: nat {:trigger NodeAt(l, i)} :: l <= depth ==>
        NodeAt(l, i) == if l == level && i == index then value else old(NodeAt(l, i))
    {
      var row: map<nat, Felt> := nodes[level][index := value];
      nodes := nodes[level := row];
    }

    /** Writes a leaf after those of `xs` and rehashes its ancestors. */
    method Insert(leafIndex: nat, value: int, ghost xs: seq<Felt>)
      requires Shaped() && Represents(xs, 0, depth) && leafIndex == |xs|
      modifies this`nodes
      ensures Shaped() && Represents(xs + [ToFelt(value)], 0, depth)
    {
      ghost var leaf := ToFelt(value);
      SetNode(0, leafIndex, ToFelt(value));
      var idx := leafIndex;
      var level := 0;
      while level < depth
        invariant level <= depth && Shaped()
        invariant idx == Up(leafIndex, level)
        invariant Represents(xs + [leaf], 0, level) && Represents(xs, level + 1, depth)
      {
        Rehash(level, idx, xs, leaf);
        idx := idx / 2;
        level := level + 1;
      }
    }

    /** One turn of that loop: the parent of node `idx`. */
    method Rehash(level: nat, idx: nat, ghost xs: seq<Felt>, ghost leaf: Felt)
      requires Shaped() && level < depth && idx == Up(|xs|, level)
      requires Represents(xs + [leaf], 0, level) && Represents(xs, level + 1, depth)
      modifies this`nodes
      ensures Shaped() && Represents(xs + [leaf], 0, level + 1) && Represents(xs, level + 2, depth)
    {
      var isRight := idx % 2 == 1;
      var left := if isRight then NodeAt(level, idx - 1) else NodeAt(level, idx);
      var right := if isRight then NodeAt(level, idx) else NodeAt(level, idx + 1);
      ParentHash(h, xs + [leaf], level, idx, left, right);
      OthersUnchanged(h, xs, leaf, level + 1);
      WriteParent(level + 1, idx / 2, HashNode(h, left, right), xs, xs + [leaf]);
    }

    /** One write that makes a level agree with the longer list moves the border up. */
    method WriteParent(level: nat, index: nat, value: Felt, ghost xs: seq<Felt>, ghost ys: seq<Felt>)
      requires Shaped() && 0 < level <= depth && Represents(ys, 0, level - 1) && Represents(xs, level, depth)
      requires value == Dense(h, ys, level, index)
      requires forall i: nat {:trigger Dense(h, ys, level, i)} :: i != index ==>
        Dense(h, ys, level, i) == Dense(h, xs, level, i)
      modifies this`nodes
      ensures Shaped() && Represents(ys, 0, level) && Represents(xs, level + 1, depth)
    {
      SetNode(level, index, value);
    }

    /** The root property: the dense root over the leaves. */
    function RootOf(): (r: Felt)
      requires Valid()
      reads this
      ensures r == Dense(h, leaves, depth, 0)
    {
      NodeAt(depth, 0)
    }

    /** `ValueError` for an index out of range, else the path of that index. */
    method ProofForIndex(idx: int) returns (proof: Option<PoseidonProof>)
      requires Valid()
      ensures proof.None? <==> idx < 0 || idx >= Pow2(depth)
      ensures proof.Some? ==> proof.value == ProofOf(h, leaves, idx, depth)
    {
      if idx < 0 || idx >= Pow2(depth) {
        return None;
      }
      var pathElements, pathIndices: seq<int> := [], [];
      var cur, d := idx, 0;
      while d < depth
        invariant d <= depth && cur >= 0 && cur == Up(idx, d)
        invariant pathElements == PathElements(h, leaves, idx, d) && pathIndices == PathIndices(idx, d)
      {
        var isRight := cur % 2;
        var sibIdx := if isRight == 1 then cur - 1 else cur + 1;
        pathElements := pathElements + [NodeAt(d, sibIdx)];
        pathIndices := pathIndices + [isRight];
        cur := cur / 2;
        d := d + 1;
      }
      return Some(PoseidonProof(pathElements, pathIndices));
    }

    static method Verify(h: PoseidonHash, leaf: int, proof: PoseidonProof, root: int) returns (ok: bool)
      ensures ok <==> Accepts(h, leaf, proof, root)
    {
      var els, sides := proof.pathElements, proof.pathIndices;
      if |els| != |sides| {
        return false;
      }
      var cur := ToFelt(leaf);
      var j := 0;
      while j < |els|
        invariant j <= |els|
        invariant cur == Climb(h, leaf, els[..j], sides[..j])
      {
        assert els[..j + 1][..j] == els[..j] && sides[..j + 1][..j] == sides[..j];
        var sib := ToFelt(els[j]);
        if sides[j] == 0 {
          cur := HashNode(h, cur, sib);
        } else {
          cur := HashNode(h, sib, cur);
        }
        j := j + 1;
      }
      assert els[..j] == els && sides[..j] == sides;
      return cur == ToFelt(root);
    }
  }
}
