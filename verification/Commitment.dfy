/** What a published root pair commits to, and what a failed instance keeps. */
module Commitment {
  import opened Base
  import opened Dict
  import opened Events
  import opened IssuerSpec
  import opened IssuerRuns
  import MK = MerkleKeccak
  import MP = MerklePoseidon

  // ---- Active entries are genuine leaves --------------------------------------------------

  /** A `derive_leaf` value: the digest of a 32-byte digest. */
  ghost predicate Derived(keccak: Keccak, k: Digest) {
    exists pre: Digest :: keccak(pre) == k
  }

  /** A `compute_zk_leaf` value: Poseidon of a leaf-tagged input. */
  ghost predicate TaggedLeaf(poseidon: PoseidonHash, p: Felt) {
    exists input: seq<Felt> :: MP.LeafInput(input) && poseidon(input) == p
  }

  ghost predicate Genuine(c: Config, k: Digest, p: Felt) {
    Derived(c.keccak, k) && TaggedLeaf(c.poseidon, p)
  }

  ghost predicate CredsGenuine(c: Config, creds: seq<Cred>) {
    forall cr :: cr in creds && cr.k.Some? && cr.p.Some? ==> Genuine(c, cr.k.value, cr.p.value)
  }

  ghost predicate ActionsGenuine(c: Config, actions: seq<Action>) {
    forall a :: a in actions && a.DoAdd? ==> CredsGenuine(c, a.creds)
  }

  ghost predicate LeavesGenuine(c: Config, d: Leaves) {
    forall e :: e in d ==> Genuine(c, e.0, e.1)
  }

  ghost predicate AddsGenuine(c: Config, es: seq<Event>) {
    forall e :: e in es && e.kind.Add? ==> Genuine(c, e.k, e.p)
  }

  lemma {:induction false} AddLoopGenuine(c: Config, active: Leaves, batch: Leaves, creds: seq<Cred>)
    requires CredsGenuine(c, creds) && LeavesGenuine(c, batch)
    ensures LeavesGenuine(c, AddLoop(active, batch, creds).batch)
    decreases |creds|
  {
    if creds != [] && creds[0].k.Some? {
      assert creds[0] in creds;
      assert CredsGenuine(c, creds[1..]) by {
        forall cr | cr in creds[1..] ensures cr in creds {
        }
      }
      var k := creds[0].k.value;
      if Has(active, k) {
        AddLoopGenuine(c, active, batch, creds[1..]);
      } else if creds[0].p.Some? {
        AddLoopGenuine(c, Set(active, k, creds[0].p.value), batch + [(k, creds[0].p.value)], creds[1..]);
      }
    }
  }

  ghost predicate BatchGenuine(c: Config, b: Batch) {
    b.kind.Add? ==> LeavesGenuine(c, b.leaves)
  }

  /** All added leaves, mined or pending, are genuine. */
  ghost predicate WorldGenuine(c: Config, w: World) {
    AddsGenuine(c, w.log) && forall i :: 0 <= i < |w.pending| ==> BatchGenuine(c, w.pending[i])
  }

  lemma MineGenuine(c: Config, w: World, b: Batch, gap: nat)
    requires WorldGenuine(c, w) && BatchGenuine(c, b)
    ensures WorldGenuine(c, MineBatch(w, b, gap))
  {
    var more := BatchEvents(w.tip + 1 + gap, b.kind, b.leaves);
    forall e | e in w.log + more && e.kind.Add? ensures Genuine(c, e.k, e.p) {
      if e !in w.log {
        var i :| 0 <= i < |more| && more[i] == e;
        assert b.leaves[i] in b.leaves;
      }
    }
  }

  lemma LandGenuine(c: Config, w: World, gap: nat)
    requires WorldGenuine(c, w) && w.pending != []
    ensures WorldGenuine(c, Land(w, gap))
  {
    assert BatchGenuine(c, w.pending[0]);
    MineGenuine(c, w.(pending := w.pending[1..]), w.pending[0], gap);
  }

  lemma {:induction false} LandAllGenuine(c: Config, w: World, gaps: seq<nat>)
    requires WorldGenuine(c, w)
    ensures WorldGenuine(c, LandAll(w, gaps))
    decreases |w.pending|
  {
    if w.pending != [] {
      var gap := if gaps == [] then 0 else gaps[0];
      LandGenuine(c, w, gap);
      LandAllGenuine(c, Land(w, gap), if gaps == [] then [] else gaps[1..]);
    }
  }

  lemma PublishGenuine(c: Config, w: World, inst: Instance, st: IssuerState, kind: Kind, leaves: Leaves, f: Faults)
    requires WorldGenuine(c, w) && (kind.Add? ==> LeavesGenuine(c, leaves))
    ensures WorldGenuine(c, Publish(c, w, inst, st, kind, leaves, f).0)
  {
    if f.fate.Mined? {
      LandAllGenuine(c, w, f.fate.earlier);
      var b := Batch(kind, leaves, RootsOf(c, st.active));
      MineGenuine(c, LandAll(w, f.fate.earlier), b, f.fate.gap);
    }
  }

  lemma AddGenuine(c: Config, w: World, inst: Instance, st: IssuerState, creds: seq<Cred>, f: Faults)
    requires WorldGenuine(c, w) && CredsGenuine(c, creds)
    ensures WorldGenuine(c, AddBatch(c, w, inst, st, creds, f).0)
  {
    var end := AddLoop(st.active, [], creds);
    AddLoopGenuine(c, st.active, [], creds);
    PublishGenuine(c, w, inst, st.(active := end.active), Add, end.batch, f);
  }

  lemma RevokeGenuine(c: Config, w: World, inst: Instance, st: IssuerState, ks: seq<Option<Digest>>, f: Faults)
    requires WorldGenuine(c, w)
    ensures WorldGenuine(c, RevokeBatch(c, w, inst, st, ks, f).0)
  {
    var end := RevokeLoop(st.active, [], ks);
    PublishGenuine(c, w, inst, st.(active := end.active), Revoke, end.batch, f);
  }

  lemma NextGenuine(c: Config, s: System, a: Action)
    requires WorldGenuine(c, s.w) && (a.DoAdd? ==> CredsGenuine(c, a.creds))
    ensures WorldGenuine(c, Next(c, s, a).w)
  {
    if a.DoAdd? && a.creds != [] {
      var (w1, inst1, st) := GetOrInit(s.w, s.inst, a.f);
      if st.Some? {
        var (w2, inst2) := InitChain(w1, inst1, a.f);
        AddGenuine(c, w2, inst2, st.value, a.creds, a.f);
      }
    } else if a.DoRevoke? && a.ks != [] {
      var (w1, inst1, st) := GetOrInit(s.w, s.inst, a.f);
      if st.Some? {
        RevokeGenuine(c, w1, inst1, st.value, a.ks, a.f);
      }
    } else if a.Arrive? && s.w.pending != [] {
      LandGenuine(c, s.w, a.gap);
    }
  }

  lemma {:induction false} RunGenuine(c: Config, actions: seq<Action>)
    requires ActionsGenuine(c, actions)
    ensures WorldGenuine(c, Run(c, actions).w)
  {
    if actions != [] {
      var init := actions[..|actions| - 1];
      assert actions[|actions| - 1] in actions && forall a :: a in init ==> a in actions;
      RunGenuine(c, init);
      NextGenuine(c, Run(c, init), actions[|actions| - 1]);
    }
  }

  lemma {:induction false} FoldGenuine(c: Config, d: Leaves, es: seq<Event>)
    requires AddsGenuine(c, es) && LeavesGenuine(c, d) && NoDup(d)
    ensures LeavesGenuine(c, Fold(d, es))
  {
    if es != [] {
      var init, e := es[..|es| - 1], es[|es| - 1];
      assert e in es && forall x :: x in init ==> x in es;
      FoldGenuine(c, d, init);
      FoldKeys(d, init);
      PopKeys(Fold(d, init), e.k);
      if e.kind.Add? {
        SetMembers(Fold(d, init), e.k, e.p);
      }
    }
  }

  lemma {:induction false} SetMembers(d: Leaves, k: Digest, p: Felt)
    ensures forall x :: x in Set(d, k, p) ==> x == (k, p) || x in d
  {
    if d != [] && d[0].0 != k {
      SetMembers(d[1..], k, p);
      assert d == [d[0]] + d[1..];
    }
  }

  lemma {:induction false} EntryPreimages(c: Config, a: Leaves) returns (pre: seq<Digest>, inputs: seq<seq<Felt>>)
    requires LeavesGenuine(c, a)
    ensures MK.Hashed(c.keccak, pre, Keys(a)) && MP.Tagged(c.poseidon, inputs, Values(a))
  {
    if a == [] {
      pre, inputs := [], [];
    } else {
      var n := |a| - 1;
      var pre', inputs' := EntryPreimages(c, a[..n]);
      assert a[n] in a;
      var d: Digest :| c.keccak(d) == a[n].0;
      var x: seq<Felt> :| MP.LeafInput(x) && c.poseidon(x) == a[n].1;
      pre, inputs := pre' + [d], inputs' + [x];
      assert Keys(a) == Keys(a[..n]) + [a[n].0] && Values(a) == Values(a[..n]) + [a[n].1];
    }
  }

  /** In every reachable state the active keys have 32-byte preimages, and the
      active Poseidon leaves leaf-tagged ones. */
  lemma PreimagesExist(c: Config, actions: seq<Action>) returns (pre: seq<Digest>, inputs: seq<seq<Felt>>)
    requires ActionsGenuine(c, actions)
    ensures MK.Hashed(c.keccak, pre, Keys(Current(Run(c, actions).w)))
    ensures MP.Tagged(c.poseidon, inputs, Values(Current(Run(c, actions).w)))
  {
    RunGenuine(c, actions);
    FoldGenuine(c, [], Run(c, actions).w.log);
    pre, inputs := EntryPreimages(c, Current(Run(c, actions).w));
  }

  // ---- The commitment ---------------------------------------------------------------------

  lemma {:induction false} FeltsBelow(values: seq<Felt>, i: nat)
    requires i < |values|
    ensures MP.Leaf(values, i) == values[i]
  {
  }

  /** After any run with something published, no batch sent behind a pending one, the
      published pair is the roots of the active leaves in order, and the i-th active
      leaves prove themselves at index i in both trees. */
  lemma PublishedCommits(c: Config, actions: seq<Action>, i: nat)
    requires Spaced(c, actions) && Run(c, actions).w.log != [] && i < |Current(Run(c, actions).w)|
    ensures var w := Run(c, actions).w;
      var keys, values := Keys(Current(w)), Values(Current(w));
      w.published.Some? && |keys| <= Pow2(DEPTH)
      && MK.Climb(c.keccak, keys[i], MK.ProofOf(MK.Layers(c.keccak, keys), i)) == w.published.value.keccak
      && MP.Accepts(c.poseidon, values[i], MP.ProofOf(c.poseidon, values, i, DEPTH), w.published.value.poseidon)
      && MP.Spelled(MP.PathIndices(i, DEPTH)) == i
  {
    SpacedRun(c, actions);
    var w := Run(c, actions).w;
    var keys, values := Keys(Current(w)), Values(Current(w));
    MK.ProofClimbs(c.keccak, keys, i);
    MP.ProofVerifies(c.poseidon, values, i, DEPTH);
    FeltsBelow(values, i);
  }

  lemma SpacedRun(c: Config, actions: seq<Action>)
    requires Spaced(c, actions)
    ensures Good(c, Run(c, actions))
  {
    assert Waits(c, actions);
    RunKeeps(c, actions);
  }

  /** Nothing else verifies against the published keccak root: any `derive_leaf`
      value accepted with a proof of any length is active, or two inputs collide, or,
      when nothing is active, one hashes to the zero leaf published instead. */
  lemma AcceptedIsActive(c: Config, actions: seq<Action>, pre: seq<Digest>, claimPre: Digest, proof: seq<Digest>)
    requires var w := Run(c, actions).w;
      Spaced(c, actions) && w.log != [] && MK.Hashed(c.keccak, pre, Keys(Current(w)))
      && w.published.Some? && MK.Climb(c.keccak, c.keccak(claimPre), proof) == w.published.value.keccak
    ensures MK.Climb(c.keccak, c.keccak(claimPre), proof) == KeccakRoot(c, Current(Run(c, actions).w))
    ensures var a := Current(Run(c, actions).w);
      match MK.RefutePublished(c.keccak, pre, Keys(a), claimPre, proof)
      case None => Has(a, c.keccak(claimPre))
      case Some(e) => MK.Breaks(c.keccak, e)
  {
    SpacedRun(c, actions);
    var a := Current(Run(c, actions).w);
    if MK.RefutePublished(c.keccak, pre, Keys(a), claimPre, proof).None? {
      var i :| 0 <= i < |Keys(a)| && Keys(a)[i] == c.keccak(claimPre);
      HasIndex(a, c.keccak(claimPre));
      assert a[i].0 == c.keccak(claimPre);
    }
  }

  /** Against the published Poseidon root, a full-length proof forces the active
      leaf at its index, or zero beyond the active leaves, or a collision. */
  lemma AcceptedPoseidonIsActive(c: Config, actions: seq<Action>, leaf: int, proof: MP.PoseidonProof)
    requires var w := Run(c, actions).w;
      Spaced(c, actions) && w.log != [] && w.published.Some? && |proof.pathElements| == DEPTH
      && MP.Accepts(c.poseidon, leaf, proof, w.published.value.poseidon)
    ensures var values, i := Values(Current(Run(c, actions).w)), MP.Spelled(proof.pathIndices);
      |values| <= Pow2(DEPTH) && MP.Accepts(c.poseidon, leaf, proof, MP.Dense(c.poseidon, values, DEPTH, 0))
      && match MP.Refute(c.poseidon, values, DEPTH, leaf, proof)
         case None => ToFelt(leaf) == if i < |values| then values[i] else 0
         case Some(pair) => Collides(c.poseidon, pair)
  {
    SpacedRun(c, actions);
  }

  /** Against the published Poseidon root, a leaf-tagged value accepted with a proof
      of any length is an active leaf, or two inputs collide, or one hashes to zero. */
  lemma AcceptedTaggedIsActive(c: Config, actions: seq<Action>, inputs: seq<seq<Felt>>, claimPre: seq<Felt>,
                               proof: MP.PoseidonProof)
    requires var w := Run(c, actions).w;
      Spaced(c, actions) && w.log != [] && w.published.Some? && MP.Tagged(c.poseidon, inputs, Values(Current(w)))
      && MP.LeafInput(claimPre) && MP.Accepts(c.poseidon, c.poseidon(claimPre), proof, w.published.value.poseidon)
    ensures var values := Values(Current(Run(c, actions).w));
      MP.Accepts(c.poseidon, c.poseidon(claimPre), proof, MP.Dense(c.poseidon, values, DEPTH, 0))
      && match MP.RefuteTagged(c.poseidon, inputs, values, DEPTH, claimPre, proof)
         case None => c.poseidon(claimPre) in values
         case Some(e) => MP.Breaks(c.poseidon, e)
  {
    SpacedRun(c, actions);
  }

  /** A key is active after any run exactly when its last event is an add. */
  lemma ActiveIffLastAdded(c: Config, actions: seq<Action>, k: Digest)
    ensures var w := Run(c, actions).w;
      Has(Current(w), k) <==> LastWord(w.log, k).Some? && LastWord(w.log, k).value.Some?
  {
    FoldGet([], Run(c, actions).w.log, k);
  }

  // ---- A failed instance --------------------------------------------------------------------

  /** The snapshot of `add_issued` is taken after the writes, and the loop and both
      roots are computed outside the `try`: however the call raises, the instance's
      cache has the leaves the loop got to, appended to what was there. It is what
      it was if and only if the loop had collected nothing. */
  lemma AddRaisesExact(c: Config, w: World, inst: Instance, st: IssuerState, creds: seq<Cred>, f: Faults)
    requires inst.cache == Some(st) && AddBatch(c, w, inst, st, creds, f).2.Raised?
    ensures var (w', inst', out) := AddBatch(c, w, inst, st, creds, f);
      var batch := AddLoop(st.active, [], creds).batch;
      inst'.cache == Some(st.(active := st.active + batch)) && w'.log == w.log && w'.published == w.published
      && (inst'.cache == inst.cache <==> batch == [])
  {
    AddLoopBatch(st.active, [], creds);
    var batch := AddLoop(st.active, [], creds).batch;
    assert batch[0..] == batch && |st.active + batch| == |st.active| + |batch|;
    assert batch == [] ==> st.active + batch == st.active;
  }

  lemma {:induction false} PopLength(d: Leaves, k: Digest)
    ensures |Pop(d, k)| == if Has(d, k) then |d| - 1 else |d|
  {
    if d != [] && d[0].0 != k {
      PopLength(d[1..], k);
    }
  }

  lemma {:induction false} RevokeLoopShrinks(active: Leaves, batch: Leaves, ks: seq<Option<Digest>>)
    ensures var end := RevokeLoop(active, batch, ks);
      |end.active| + |end.batch| == |active| + |batch| && |end.batch| >= |batch|
      && (|end.batch| == |batch| ==> end.active == active)
    decreases |ks|
  {
    if ks != [] && ks[0].Some? && Has(active, ks[0].value) {
      var k := ks[0].value;
      PopLength(active, k);
      RevokeLoopShrinks(Pop(active, k), batch + [(k, Get(active, k).value)], ks[1..]);
    }
  }

  /** `revoke` restores nothing: however the call raises, the cache lacks the leaves
      the loop got to, and is what it was if and only if there were none. */
  lemma RevokeRaisesExact(c: Config, w: World, inst: Instance, st: IssuerState, ks: seq<Option<Digest>>, f: Faults)
    requires inst.cache == Some(st) && RevokeBatch(c, w, inst, st, ks, f).2.Raised?
    ensures var (w', inst', out) := RevokeBatch(c, w, inst, st, ks, f);
      var end := RevokeLoop(st.active, [], ks);
      inst'.cache == Some(st.(active := end.active)) && w'.log == w.log && w'.published == w.published
      && (inst'.cache == inst.cache <==> end.batch == [])
  {
    RevokeLoopShrinks(st.active, [], ks);
    RevokeRaised(c, w, inst, st, ks, f);
    OtherMapOtherState(st, RevokeLoop(st.active, [], ks).active);
  }

  lemma OtherMapOtherState(st: IssuerState, active: Leaves)
    ensures Some(st.(active := active)) == Some(st) <==> active == st.active
  {
  }

  lemma RevokeRaised(c: Config, w: World, inst: Instance, st: IssuerState, ks: seq<Option<Digest>>, f: Faults)
    requires RevokeBatch(c, w, inst, st, ks, f).2.Raised?
    ensures var (w', inst', out) := RevokeBatch(c, w, inst, st, ks, f);
      inst'.cache == Some(st.(active := RevokeLoop(st.active, [], ks).active))
      && w'.log == w.log && w'.published == w.published
  {
  }

  lemma {:induction false} AllPresentNothingAdded(active: Leaves, creds: seq<Cred>)
    requires forall cr :: cr in creds ==> cr.k.Some? && Has(active, cr.k.value)
    ensures AddLoop(active, [], creds) == LoopEnd(active, [], false)
    decreases |creds|
  {
    if creds != [] {
      assert creds[0] in creds;
      AllPresentNothingAdded(active, creds[1..]);
    }
  }

  lemma HasAppend(a: Leaves, b: Leaves, k: Digest)
    requires Has(a, k) || Has(b, k)
    ensures Has(a + b, k)
  {
    HasIndex(a, k);
    HasIndex(b, k);
    HasIndex(a + b, k);
    if Has(a, k) {
      var i :| 0 <= i < |a| && a[i].0 == k;
      assert (a + b)[i].0 == k;
    } else {
      var i :| 0 <= i < |b| && b[i].0 == k;
      assert (a + b)[|a| + i].0 == k;
    }
  }

  lemma {:induction false} AddLoopPresent(active: Leaves, batch: Leaves, creds: seq<Cred>, cr: Cred)
    requires !AddLoop(active, batch, creds).raised && cr in creds
    ensures cr.k.Some? && Has(AddLoop(active, batch, creds).active, cr.k.value)
    decreases |creds|
  {
    var k := creds[0].k.value;
    var next := if Has(active, k) then active else Set(active, k, creds[0].p.value);
    var batch' := if Has(active, k) then batch else batch + [(k, creds[0].p.value)];
    if cr == creds[0] {
      if !Has(active, k) {
        GetSet(active, k, creds[0].p.value, k);
      }
      AddLoopBatch(next, batch', creds[1..]);
      HasAppend(next, AddLoop(next, batch', creds[1..]).batch[|batch'|..], k);
    } else {
      AddLoopPresent(next, batch', creds[1..], cr);
    }
  }

  /** A call that raises past its loop leaves the collected leaves in the cache. */
  lemma RaisedCache(c: Config, w: World, inst: Instance, st: IssuerState, creds: seq<Cred>, f: Faults)
    requires inst.cache == Some(st) && !AddLoop(st.active, [], creds).raised
    requires AddBatch(c, w, inst, st, creds, f).2.Raised?
    ensures AddBatch(c, w, inst, st, creds, f).1.cache
         == Some(st.(active := AddLoop(st.active, [], creds).active))
  {
  }

  lemma NothingToDo(c: Config, w: World, inst: Instance, st: IssuerState, creds: seq<Cred>, g: Faults)
    requires inst.cache == Some(st) && AddLoop(st.active, [], creds) == LoopEnd(st.active, [], false)
    ensures var (w', inst', out) := AddIssued(c, w, inst, creds, g);
      out == Returned(None) && w' == w.(tip := w'.tip)
  {
  }

  /** After a raise past the loop, retrying the same credentials on the failed
      instance publishes nothing and reports nothing to do. */
  lemma RetryOnFailedInstanceSkips(c: Config, w: World, inst: Instance, st: IssuerState, creds: seq<Cred>,
                                   f: Faults, g: Faults)
    requires inst.cache == Some(st) && creds != [] && !AddLoop(st.active, [], creds).raised
    requires AddBatch(c, w, inst, st, creds, f).2.Raised?
    ensures var (w1, inst1, out1) := AddBatch(c, w, inst, st, creds, f);
      var (w2, inst2, out2) := AddIssued(c, w1, inst1, creds, g);
      out2 == Returned(None) && w2 == w1.(tip := w2.tip)
  {
    var (w1, inst1, out1) := AddBatch(c, w, inst, st, creds, f);
    var a := AddLoop(st.active, [], creds).active;
    RaisedCache(c, w, inst, st, creds, f);
    forall cr | cr in creds ensures cr.k.Some? && Has(a, cr.k.value) {
      AddLoopPresent(st.active, [], creds, cr);
    }
    AllPresentNothingAdded(a, creds);
    NothingToDo(c, w1, inst1, st.(active := a), creds, g);
  }

  /** The snapshot moved above the loop, the `try` left where it is. */
  function AddBatchMoved(c: Config, w: World, inst: Instance, st: IssuerState, creds: seq<Cred>, f: Faults)
    : (World, Instance, Outcome)
  {
    var (w', inst', out) := AddBatch(c, w, inst, st, creds, f);
    var end := AddLoop(st.active, [], creds);
    if out.Raised? && !end.raised && |end.active| <= Pow2(DEPTH) then (w', inst'.(cache := Some(st)), out)
    else (w', inst', out)
  }

  /** Moving the snapshot alone restores the cache only of calls that raise in the
      `try`: not when a credential fails part-way, nor beyond 2^26 leaves. */
  lemma MovedExact(c: Config, w: World, inst: Instance, st: IssuerState, creds: seq<Cred>, f: Faults)
    requires inst.cache == Some(st) && AddBatchMoved(c, w, inst, st, creds, f).2.Raised?
    ensures var end := AddLoop(st.active, [], creds);
      AddBatchMoved(c, w, inst, st, creds, f).1.cache == inst.cache
      <==> end.batch == [] || (!end.raised && |end.active| <= Pow2(DEPTH))
  {
    AddRaisesExact(c, w, inst, st, creds, f);
  }

  /** The snapshot before the loop and the `try` around loop, roots and batch. */
  function AddBatchGuarded(c: Config, w: World, inst: Instance, st: IssuerState, creds: seq<Cred>, f: Faults)
    : (World, Instance, Outcome)
  {
    var (w', inst', out) := AddBatch(c, w, inst, st, creds, f);
    if out.Raised? then (w', inst'.(cache := Some(st)), out) else (w', inst', out)
  }

  /** With the `try` around all of it, every outcome leaves an instance whose state
      is the cold fold of the log. */
  lemma GuardedKeeps(c: Config, w: World, inst: Instance, st: IssuerState, creds: seq<Cred>, f: Faults)
    requires MapOk(w) && inst.cache == Some(st) && StateOk(w, st) && (f.fate.Mined? ==> w.pending == [])
    ensures var (w', inst', out) := AddBatchGuarded(c, w, inst, st, creds, f); MapOk(w') && CacheOk(w', inst')
  {
    AddBatchKeeps(c, w, inst, st, creds, f);
    if AddBatch(c, w, inst, st, creds, f).2.Raised? {
      AddRaisesExact(c, w, inst, st, creds, f);
    }
  }
}
