/** The issuer of zk_issuer.py as objects updated in place, proved to perform
    exactly the steps of IssuerSpec. */
module Issuer {
  import opened Base
  import opened Dict
  import opened Events
  import opened Scan
  import opened IssuerSpec
  import opened IssuerRuns
  import opened Leaf
  import opened Commitment
  import MK = MerkleKeccak
  import MP = MerklePoseidon

  /** The registry contract and the wallet, as the issuer sees them. */
  class Backend {
    var w: World

    constructor ()
      ensures w == World([], 0, None, None, [])
    {
      w := World([], 0, None, None, []);
    }

    /** `get_leaf_events` up to the newest block; None when the scan raises. */
    method LeafEvents(fromBlock: nat, fails: bool) returns (events: Option<seq<Event>>)
      requires LogOk(w)
      ensures events == if fails then None else Some(Since(w.log, fromBlock))
    {
      if fails {
        return None;
      }
      var es := GetLeafEvents(w.log, fromBlock, w.tip);
      NoneAfter(w.log, w.tip);
      return Some(es);
    }

    /** `batch_update`: the block it was mined in; None when the call raises, before
        anything is sent or while waiting for the receipt. Transactions have
        consecutive nonces, so those sent before are mined before. */
    method BatchUpdate(batch: Batch, fate: Fate) returns (receipt: Option<nat>)
      modifies this
      ensures w == match fate
        case Refused => old(w)
        case LeftPending => old(w).(pending := old(w).pending + [batch])
        case Mined(gap, earlier) => MineBatch(LandAll(old(w), earlier), batch, gap)
      ensures receipt == if fate.Mined? then Some(w.tip) else None
    {
      if fate.LeftPending? {
        w := w.(pending := w.pending + [batch]);
      } else if fate.Mined? {
        w := MineBatch(LandAll(w, fate.earlier), batch, fate.gap);
        return Some(w.tip);
      }
      return None;
    }
  }

  class KanonZkIssuerState {
    var active: Leaves
    var lastSyncedBlock: nat

    constructor (st: IssuerState)
      ensures Value() == st
    {
      active, lastSyncedBlock := st.active, st.lastSyncedBlock;
    }

    function Value(): IssuerState
      reads this
    {
      IssuerState(active, lastSyncedBlock)
    }

    /** The replay loop over the events. */
    method Replay(events: seq<Event>, tip: nat)
      modifies this
      ensures Value() == IssuerState(Fold(old(active), events), tip)
    {
      var i := 0;
      while i < |events|
        invariant i <= |events| && active == Fold(old(active), events[..i])
      {
        assert events[..i + 1][..i] == events[..i];
        if events[i].kind.Add? {
          active := Set(active, events[i].k, events[i].p);
        } else {
          active := Pop(active, events[i].k);
        }
        i := i + 1;
      }
      assert events[..i] == events;
      lastSyncedBlock := tip;
    }
  }

  /** A credential as `add_issued` takes it: its id text and attribute map. */
  type Credential = (string, Attrs)

  function Resolve(h: Hashes, cd: Bytes, cr: Credential): Cred {
    Cred(DeriveLeaf(h.keccak, Hex(cr.0)), PublishedLeaf(h, cd, cr.0, cr.1))
  }

  function ResolveAll(h: Hashes, cd: Bytes, crs: seq<Credential>): (r: seq<Cred>)
    ensures |r| == |crs|
  {
    seq(|crs|, i requires 0 <= i < |crs| => Resolve(h, cd, crs[i]))
  }

  function DeriveAll(h: Hashes, ids: seq<string>): (r: seq<Option<Digest>>)
    ensures |r| == |ids|
  {
    seq(|ids|, i requires 0 <= i < |ids| => DeriveLeaf(h.keccak, Hex(ids[i])))
  }

  /** What `add_issued` resolves credentials to are genuine leaves of both kinds. */
  lemma ResolvedAreGenuine(h: Hashes, cd: Bytes, crs: seq<Credential>)
    ensures CredsGenuine(Config(h.keccak, h.poseidon), ResolveAll(h, cd, crs))
  {
    var c := Config(h.keccak, h.poseidon);
    var creds := ResolveAll(h, cd, crs);
    forall cr | cr in creds && cr.k.Some? && cr.p.Some? ensures Genuine(c, cr.k.value, cr.p.value) {
      var i :| 0 <= i < |crs| && creds[i] == Resolve(h, cd, crs[i]) == cr;
      DerivedKey(h, crs[i].0);
      PublishedIsTagged(h, cd, crs[i].0, crs[i].1);
    }
  }

  lemma DerivedKey(h: Hashes, cid: string)
    requires DeriveLeaf(h.keccak, Hex(cid)).Some?
    ensures Derived(h.keccak, DeriveLeaf(h.keccak, Hex(cid)).value)
  {
    var inner: Digest := h.keccak(IdBytes(Hex(cid)).value);
    assert h.keccak(inner) == DeriveLeaf(h.keccak, Hex(cid)).value;
  }

  lemma PublishedIsTagged(h: Hashes, cd: Bytes, cid: string, attrs: Attrs)
    requires PublishedLeaf(h, cd, cid, attrs).Some?
    ensures TaggedLeaf(h.poseidon, PublishedLeaf(h, cd, cid, attrs).value)
  {
    var cr := Raw(h.keccak(h.utf8(cid)));
    var input := LeafElements(h, IdToFelt(Raw(cd)).value, IdToFelt(cr).value, PaddedAttrs(Encode(h, attrs, RESERVED)));
    assert MP.LeafInput(input);
    assert h.poseidon(input) == PublishedLeaf(h, cd, cid, attrs).value;
  }

  class KanonZkIssuer {
    const h: Hashes
    const cd: Bytes
    const env: Backend
    var cache: KanonZkIssuerState?
    var chainInitialized: bool

    constructor (h: Hashes, cd: Bytes, env: Backend)
      ensures this.h == h && this.cd == cd && this.env == env && InstanceOf() == NEW_INSTANCE
    {
      this.h, this.cd, this.env := h, cd, env;
      cache, chainInitialized := null, false;
    }

    function Cfg(): Config {
      Config(h.keccak, h.poseidon)
    }

    function Cached(): set<object>
      reads this
    {
      if cache == null then {} else {cache}
    }

    function InstanceOf(): Instance
      reads this, Cached()
    {
      Instance(if cache == null then None else Some(cache.Value()), chainInitialized)
    }

    /** `get_or_init`: the cached state, else load, replay, save and cache. */
    method GetOrInit(f: Faults) returns (state: KanonZkIssuerState?)
      requires LogOk(env.w)
      modifies this`cache, env
      ensures old(cache) != null ==> cache == old(cache)
      ensures old(cache) == null && cache != null ==> fresh(cache)
      ensures state != null ==> state == cache
      ensures var r := if state == null then None else Some(state.Value());
        (env.w, InstanceOf(), r) == IssuerSpec.GetOrInit(old(env.w), old(InstanceOf()), f)
    {
      if cache != null {
        return cache;
      }
      var loaded := LoadCheckpoint(f.loadFails);
      var events := env.LeafEvents(loaded.lastSyncedBlock, f.scanFails);
      if events.None? {
        return null;
      }
      loaded.Replay(events.value, env.w.tip);
      SaveCheckpoint(loaded, f.firstSaveLost);
      cache := loaded;
      return loaded;
    }

    /** `_load_checkpoint`. */
    method LoadCheckpoint(fails: bool) returns (state: KanonZkIssuerState)
      ensures fresh(state) && state.Value() == Loaded(env.w, fails)
    {
      if !fails && env.w.record.Some? {
        var st := FromDict(env.w.record.value);
        if st.Some? {
          state := new KanonZkIssuerState(st.value);
          return;
        }
      }
      state := new KanonZkIssuerState(FRESH);
    }

    /** `_save_checkpoint`; a storage failure is only logged. */
    method SaveCheckpoint(state: KanonZkIssuerState, lost: bool)
      modifies env
      ensures env.w == Saved(old(env.w), state.Value(), lost)
    {
      if !lost {
        env.w := env.w.(record := Some(ToDict(state.Value())));
      }
    }

    /** `_compute_keccak_root`: a single zero leaf stands for the empty set. */
    method ComputeKeccakRoot(active: Leaves) returns (root: Digest)
      ensures root == KeccakRoot(Cfg(), active)
    {
      var tree := new MK.OZStandardMerkleTree(h.keccak, if active == [] then [MK.Zero()] else Keys(active));
      root := tree.RootOf();
    }

    /** `_compute_poseidon_root`: ValueError beyond 2^26 leaves. */
    method ComputePoseidonRoot(active: Leaves) returns (root: Option<Felt>)
      ensures root.None? <==> |active| > Pow2(DEPTH)
      ensures root.Some? ==> root.value == PoseidonRoot(Cfg(), active)
    {
      var tree := MP.PoseidonMerkleTree.New(h.poseidon, DEPTH, Values(active));
      if tree.None? {
        return None;
      }
      MP.FeltsOfFelts(Values(active));
      return Some(tree.value.RootOf());
    }

    /** The common end of both calls: roots, batch, watermark, checkpoint. */
    method PublishBatch(state: KanonZkIssuerState, kind: Kind, batch: Leaves, f: Faults) returns (out: Outcome)
      requires state == cache
      modifies env, state
      ensures (env.w, InstanceOf(), out)
           == Publish(Cfg(), old(env.w), old(InstanceOf()), old(state.Value()), kind, batch, f)
    {
      var keccakRoot := ComputeKeccakRoot(state.active);
      var poseidonRoot := ComputePoseidonRoot(state.active);
      if poseidonRoot.None? {
        return Raised;
      }
      out := SubmitBatch(state, Batch(kind, batch, Roots(keccakRoot, poseidonRoot.value)), f);
    }

    method SubmitBatch(state: KanonZkIssuerState, batch: Batch, f: Faults) returns (out: Outcome)
      requires state == cache
      modifies env, state
      ensures (env.w, InstanceOf(), out)
           == Submit(old(env.w), old(InstanceOf()), old(state.Value()), batch, f)
    {
      var receipt := env.BatchUpdate(batch, f.fate);
      if receipt.None? {
        return Raised;
      }
      AdvanceAndSave(state, receipt.value, f.lastSaveLost);
      return Returned(receipt);
    }

    /** Raises the watermark to the receipt's block and saves the checkpoint. */
    method AdvanceAndSave(state: KanonZkIssuerState, block: nat, lost: bool)
      modifies env, state
      ensures state.Value() == old(state.Value()).(
        lastSyncedBlock := if block > old(state.lastSyncedBlock) then block else old(state.lastSyncedBlock))
      ensures env.w == Saved(old(env.w), state.Value(), lost)
    {
      if block > state.lastSyncedBlock {
        state.lastSyncedBlock := block;
      }
      SaveCheckpoint(state, lost);
    }

    /** `add_issued`. After a raise the cache keeps the new leaves: the snapshot the
        source restores was taken after they were written. */
    method AddIssued(credentials: seq<Credential>, f: Faults) returns (out: Outcome)
      requires LogOk(env.w)
      modifies this, env, Cached()
      ensures (env.w, InstanceOf(), out)
           == IssuerSpec.AddIssued(Cfg(), old(env.w), old(InstanceOf()), ResolveAll(h, cd, credentials), f)
    {
      if credentials == [] {
        return Returned(None);
      }
      var state := GetOrInit(f);
      if state == null {
        return Raised;
      }
      EnsureChainInitialized(f);
      out := AddEachAndPublish(state, credentials, f);
    }

    /** The lazy `initialize_cred_def_state`. */
    method EnsureChainInitialized(f: Faults)
      modifies this`chainInitialized, env
      ensures (env.w, InstanceOf()) == InitChain(old(env.w), old(InstanceOf()), f)
    {
      if !chainInitialized {
        env.w := env.w.(tip := env.w.tip + f.initGap);
        if !f.initFails {
          chainInitialized := true;
        }
      }
    }

    method AddEachAndPublish(state: KanonZkIssuerState, credentials: seq<Credential>, f: Faults) returns (out: Outcome)
      requires state == cache
      modifies env, state
      ensures (env.w, InstanceOf(), out)
           == AddBatch(Cfg(), old(env.w), old(InstanceOf()), old(state.Value()), ResolveAll(h, cd, credentials), f)
    {
      ghost var creds := ResolveAll(h, cd, credentials);
      ghost var w0, inst0, st0 := env.w, InstanceOf(), state.Value();
      var raised, batch := AddEach(state, credentials);
      ghost var inst1, st1 := InstanceOf(), state.Value();
      assert AddLoop(st0.active, [], creds) == LoopEnd(st1.active, batch, raised);
      assert inst1 == inst0.(cache := Some(st1)) && st1 == st0.(active := st1.active);
      if raised {
        return Raised;
      }
      if batch == [] {
        AddLoopUnchanged(st0.active, [], creds);
        return Returned(None);
      }
      var activeBefore, lastSyncedBlockBefore := state.active, state.lastSyncedBlock;
      out := PublishBatch(state, Add, batch, f);
      PublishIgnoresCache(Cfg(), w0, inst0, inst1, st1, Add, batch, f);
      if out.Raised? {
        state.active, state.lastSyncedBlock := activeBefore, lastSyncedBlockBefore;
      }
    }

    /** The loop of `add_issued`, writing each new leaf to the state at once. */
    method AddEach(state: KanonZkIssuerState, credentials: seq<Credential>) returns (raised: bool, batch: Leaves)
      modifies state
      ensures state.lastSyncedBlock == old(state.lastSyncedBlock)
      ensures LoopEnd(state.active, batch, raised) == AddLoop(old(state.active), [], ResolveAll(h, cd, credentials))
    {
      ghost var creds := ResolveAll(h, cd, credentials);
      raised, batch := false, [];
      var i := 0;
      assert creds[0..] == creds;
      while i < |credentials|
        invariant i <= |credentials| && !raised
        invariant state.lastSyncedBlock == old(state.lastSyncedBlock)
        invariant AddLoop(state.active, batch, creds[i..]) == AddLoop(old(state.active), [], creds)
      {
        assert creds[i..][0] == Resolve(h, cd, credentials[i]) && creds[i..][1..] == creds[i + 1..];
        var (cid, attrs) := credentials[i];
        var leaf := DeriveLeaf(h.keccak, Hex(cid));
        if leaf.None? {
          raised := true;
          return;
        }
        if !Has(state.active, leaf.value) {
          var poseidon := PublishedLeaf(h, cd, cid, attrs);
          if poseidon.None? {
            raised := true;
            return;
          }
          state.active := Set(state.active, leaf.value, poseidon.value);
          batch := batch + [(leaf.value, poseidon.value)];
        }
        i := i + 1;
      }
      assert creds[i..] == [];
    }

    /** `revoke`; nothing restores the deletions of a failed call. */
    method Revoke(credIds: seq<string>, f: Faults) returns (out: Outcome)
      requires LogOk(env.w)
      modifies this, env, Cached()
      ensures (env.w, InstanceOf(), out)
           == IssuerSpec.Revoke(Cfg(), old(env.w), old(InstanceOf()), DeriveAll(h, credIds), f)
    {
      if credIds == [] {
        return Returned(None);
      }
      var state := GetOrInit(f);
      if state == null {
        return Raised;
      }
      out := RevokeEachAndPublish(state, credIds, f);
    }

    method RevokeEachAndPublish(state: KanonZkIssuerState, credIds: seq<string>, f: Faults) returns (out: Outcome)
      requires state == cache
      modifies env, state
      ensures (env.w, InstanceOf(), out)
           == RevokeBatch(Cfg(), old(env.w), old(InstanceOf()), old(state.Value()), DeriveAll(h, credIds), f)
    {
      ghost var w0, inst0, st0 := env.w, InstanceOf(), state.Value();
      var raised, batch := RevokeEach(state, credIds);
      ghost var inst1, st1 := InstanceOf(), state.Value();
      assert RevokeLoop(st0.active, [], DeriveAll(h, credIds)) == LoopEnd(st1.active, batch, raised);
      assert inst1 == inst0.(cache := Some(st1)) && st1 == st0.(active := st1.active);
      if raised {
        return Raised;
      }
      out := PublishBatch(state, Events.Revoke, batch, f);
      PublishIgnoresCache(Cfg(), w0, inst0, inst1, st1, Events.Revoke, batch, f);
    }

    /** The loop of `revoke`, deleting each leaf from the state at once. */
    method RevokeEach(state: KanonZkIssuerState, credIds: seq<string>) returns (raised: bool, batch: Leaves)
      modifies state
      ensures state.lastSyncedBlock == old(state.lastSyncedBlock)
      ensures LoopEnd(state.active, batch, raised) == RevokeLoop(old(state.active), [], DeriveAll(h, credIds))
    {
      ghost var ks := DeriveAll(h, credIds);
      raised, batch := false, [];
      var i := 0;
      assert ks[0..] == ks;
      while i < |credIds|
        invariant i <= |credIds| && !raised
        invariant state.lastSyncedBlock == old(state.lastSyncedBlock)
        invariant RevokeLoop(state.active, batch, ks[i..]) == RevokeLoop(old(state.active), [], ks)
      {
        assert ks[i..][0] == DeriveLeaf(h.keccak, Hex(credIds[i])) && ks[i..][1..] == ks[i + 1..];
        var leaf := DeriveLeaf(h.keccak, Hex(credIds[i]));
        if leaf.None? {
          raised := true;
          return;
        }
        var companion := Get(state.active, leaf.value);
        if companion.None? {
          raised := true;
          return;
        }
        batch := batch + [(leaf.value, companion.value)];
        state.active := Pop(state.active, leaf.value);
        i := i + 1;
      }
      assert ks[i..] == [];
    }
  }

  /** Publishing overwrites whatever the instance had cached. */
  lemma PublishIgnoresCache(c: Config, w: World, inst: Instance, inst': Instance, st: IssuerState,
                            kind: Kind, batch: Leaves, f: Faults)
    requires inst' == inst.(cache := Some(st))
    ensures Publish(c, w, inst, st, kind, batch, f) == Publish(c, w, inst', st, kind, batch, f)
    ensures var r := Publish(c, w, inst', st, kind, batch, f); r.2.Raised? ==> r.1 == inst'
  {
  }

  /** A loop that adds nothing leaves the state as it was. */
  lemma {:induction false} AddLoopUnchanged(active: Leaves, batch: Leaves, creds: seq<Cred>)
    requires AddLoop(active, batch, creds).batch == batch && !AddLoop(active, batch, creds).raised
    ensures AddLoop(active, batch, creds).active == active
    decreases |creds|
  {
    if creds != [] {
      var k := creds[0].k.value;
      if Has(active, k) {
        AddLoopUnchanged(active, batch, creds[1..]);
      } else {
        AddLoopGrows(Set(active, k, creds[0].p.value), batch + [(k, creds[0].p.value)], creds[1..]);
        assert false;
      }
    }
  }

  lemma {:induction false} AddLoopGrows(active: Leaves, batch: Leaves, creds: seq<Cred>)
    ensures |AddLoop(active, batch, creds).batch| >= |batch|
    decreases |creds|
  {
    if creds != [] && creds[0].k.Some? {
      var k := creds[0].k.value;
      if Has(active, k) {
        AddLoopGrows(active, batch, creds[1..]);
      } else if creds[0].p.Some? {
        AddLoopGrows(Set(active, k, creds[0].p.value), batch + [(k, creds[0].p.value)], creds[1..]);
      }
    }
  }
}
