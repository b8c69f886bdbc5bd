/** One credDef's issuer as a machine over values: chain log, wallet record and
    issuer instance, with every failure the calls can meet. */
module IssuerSpec {
  import opened Base
  import opened Dict
  import opened Events
  import opened Scan
  import MK = MerkleKeccak
  import MP = MerklePoseidon

  datatype IssuerState = IssuerState(active: Leaves, lastSyncedBlock: nat)

  const FRESH := IssuerState([], 0)

  // ---- The checkpoint record --------------------------------------------------------

  datatype RawCheckpoint = RawCheckpoint(lastSyncedBlock: nat, keccak: seq<Digest>, poseidon: seq<Felt>)

  /** `to_dict`. */
  function ToDict(st: IssuerState): RawCheckpoint {
    RawCheckpoint(st.lastSyncedBlock, Keys(st.active), Values(st.active))
  }

  /** `{k: p for k, p in zip(ks, ps)}`. */
  function Zip(ks: seq<Digest>, ps: seq<Felt>): Leaves
    requires |ks| == |ps|
  {
    if ks == [] then []
    else Set(Zip(ks[..|ks| - 1], ps[..|ps| - 1]), ks[|ks| - 1], ps[|ps| - 1])
  }

  /** `from_dict`: ValueError when the two arrays differ in length. */
  function FromDict(raw: RawCheckpoint): Option<IssuerState> {
    if |raw.keccak| != |raw.poseidon| then None
    else Some(IssuerState(Zip(raw.keccak, raw.poseidon), raw.lastSyncedBlock))
  }

  lemma ZipLast(ks: seq<Digest>, ps: seq<Felt>, k: Digest, p: Felt)
    requires |ks| == |ps|
    ensures Zip(ks + [k], ps + [p]) == Set(Zip(ks, ps), k, p)
  {
    assert (ks + [k])[..|ks|] == ks && (ps + [p])[..|ps|] == ps;
  }

  lemma ColumnsLast(d: Leaves, e: (Digest, Felt))
    ensures Keys(d + [e]) == Keys(d) + [e.0] && Values(d + [e]) == Values(d) + [e.1]
  {
  }

  lemma LastIsNew(d: Leaves)
    requires NoDup(d) && d != []
    ensures NoDup(d[..|d| - 1]) && !Has(d[..|d| - 1], d[|d| - 1].0)
  {
    HasIndex(d[..|d| - 1], d[|d| - 1].0);
  }

  lemma {:induction false} ZipKeysValues(d: Leaves)
    requires NoDup(d)
    ensures Zip(Keys(d), Values(d)) == d
    decreases |d|
  {
    if d != [] {
      var init, e := d[..|d| - 1], d[|d| - 1];
      LastIsNew(d);
      ZipKeysValues(init);
      ColumnsLast(init, e);
      ZipLast(Keys(init), Values(init), e.0, e.1);
      SetNew(init, e.0, e.1);
      assert init + [e] == d;
    }
  }

  /** A saved state is loaded back with its insertion order. */
  lemma CheckpointRoundTrip(st: IssuerState)
    requires NoDup(st.active)
    ensures FromDict(ToDict(st)) == Some(st)
  {
    ZipKeysValues(st.active);
  }

  // ---- World, instance and failures ---------------------------------------------------

  datatype Roots = Roots(keccak: Digest, poseidon: Felt)

  /** A `batchUpdate` transaction. */
  datatype Batch = Batch(kind: Kind, leaves: Leaves, roots: Roots)

  /** The credDef's leaf events, the newest block, the wallet's checkpoint, the
      roots last published, and the sent transactions not mined yet. They have
      consecutive nonces, so they are mined in the order they were sent. */
  datatype World = World(log: seq<Event>, tip: nat, record: Option<RawCheckpoint>, published: Option<Roots>,
                         pending: seq<Batch>)

  /** An issuer object: its cached state and the chain-initialised mark. */
  datatype Instance = Instance(cache: Option<IssuerState>, chainInitialized: bool)

  const NEW_INSTANCE := Instance(None, false)

  /** What becomes of a `batchUpdate`: mined `gap` blocks after the next one, once
      the transactions before it are mined, `earlier` giving their own gaps;
      refused; or left pending when the wait for its receipt raises. */
  datatype Fate = Mined(gap: nat, earlier: seq<nat>) | Refused | LeftPending

  /** The failures of one call. `initGap` is how far the chain moves while the
      credDef is initialised. */
  datatype Faults = Faults(loadFails: bool, scanFails: bool, firstSaveLost: bool,
                           initFails: bool, initGap: nat, fate: Fate, lastSaveLost: bool)

  datatype Outcome = Returned(receipt: Option<nat>) | Raised

  datatype Config = Config(keccak: Keccak, poseidon: PoseidonHash)

  const DEPTH := 26

  function KeccakRoot(c: Config, active: Leaves): Digest {
    MK.Root(c.keccak, if active == [] then [MK.Zero()] else Keys(active))
  }

  function PoseidonRoot(c: Config, active: Leaves): Felt {
    MP.Dense(c.poseidon, Values(active), DEPTH, 0)
  }

  function RootsOf(c: Config, active: Leaves): Roots {
    Roots(KeccakRoot(c, active), PoseidonRoot(c, active))
  }

  // ---- get_or_init ---------------------------------------------------------------------

  /** `_load_checkpoint`: a missing, unreadable or malformed record means a fresh state. */
  function Loaded(w: World, loadFails: bool): IssuerState {
    if loadFails || w.record.None? then FRESH else FromDict(w.record.value).GetOr(FRESH)
  }

  /** `_replay_from_chain`. */
  function Replayed(w: World, st: IssuerState): IssuerState {
    IssuerState(Fold(st.active, Since(w.log, st.lastSyncedBlock)), w.tip)
  }

  function Saved(w: World, st: IssuerState, lost: bool): World {
    if lost then w else w.(record := Some(ToDict(st)))
  }

  /** `get_or_init`; no state when the scan raises. */
  function GetOrInit(w: World, inst: Instance, f: Faults): (World, Instance, Option<IssuerState>) {
    if inst.cache.Some? then (w, inst, inst.cache)
    else if f.scanFails then (w, inst, None)
    else
      var st := Replayed(w, Loaded(w, f.loadFails));
      (Saved(w, st, f.firstSaveLost), inst.(cache := Some(st)), Some(st))
  }

  // ---- Batches ----------------------------------------------------------------------------

  /** The events of a batch, in array order. */
  function BatchEvents(block: nat, kind: Kind, leaves: Leaves): seq<Event> {
    seq(|leaves|, i requires 0 <= i < |leaves| => Event(block, i, kind, leaves[i].0, leaves[i].1))
  }

  /** The map after a batch, whatever block it is in. */
  function Applied(d: Leaves, kind: Kind, leaves: Leaves): Leaves {
    Fold(d, BatchEvents(0, kind, leaves))
  }

  function MineBatch(w: World, b: Batch, gap: nat): World {
    var block := w.tip + 1 + gap;
    w.(log := w.log + BatchEvents(block, b.kind, b.leaves), tip := block, published := Some(b.roots))
  }

  /** The oldest pending transaction is mined. */
  function Land(w: World, gap: nat): World
    requires w.pending != []
  {
    MineBatch(w.(pending := w.pending[1..]), w.pending[0], gap)
  }

  function LandAll(w: World, gaps: seq<nat>): World
    decreases |w.pending|
  {
    if w.pending == [] then w
    else if gaps == [] then LandAll(Land(w, 0), [])
    else LandAll(Land(w, gaps[0]), gaps[1..])
  }

  /** Sending a batch with its roots, then moving the watermark and saving. */
  function Submit(w: World, inst: Instance, st: IssuerState, b: Batch, f: Faults): (World, Instance, Outcome) {
    var tainted := inst.(cache := Some(st));
    match f.fate
    case Refused => (w, tainted, Raised)
    case LeftPending => (w.(pending := w.pending + [b]), tainted, Raised)
    case Mined(gap, earlier) =>
      var w' := MineBatch(LandAll(w, earlier), b, gap);
      var st' := st.(lastSyncedBlock := if w'.tip > st.lastSyncedBlock then w'.tip else st.lastSyncedBlock);
      (Saved(w', st', f.lastSaveLost), inst.(cache := Some(st')), Returned(Some(w'.tip)))
  }

  /** Publishing a batch over the new active set; beyond 2^26 leaves no root is computed. */
  function Publish(c: Config, w: World, inst: Instance, st: IssuerState, kind: Kind, leaves: Leaves, f: Faults)
    : (World, Instance, Outcome)
  {
    if |st.active| > Pow2(DEPTH) then (w, inst.(cache := Some(st)), Raised)
    else Submit(w, inst, st, Batch(kind, leaves, RootsOf(c, st.active)), f)
  }

  /** A credential resolved to its two leaves; None where computing one raises. */
  datatype Cred = Cred(k: Option<Digest>, p: Option<Felt>)

  /** How a loop over credentials ends. */
  datatype LoopEnd = LoopEnd(active: Leaves, batch: Leaves, raised: bool)

  /** The loop of `add_issued`: skip active keys, append the others. */
  function AddLoop(active: Leaves, batch: Leaves, creds: seq<Cred>): LoopEnd
    decreases |creds|
  {
    if creds == [] then LoopEnd(active, batch, false)
    else
      var cr := creds[0];
      if cr.k.None? then LoopEnd(active, batch, true)
      else if Has(active, cr.k.value) then AddLoop(active, batch, creds[1..])
      else if cr.p.None? then LoopEnd(active, batch, true)
      else AddLoop(Set(active, cr.k.value, cr.p.value), batch + [(cr.k.value, cr.p.value)], creds[1..])
  }

  /** `add_issued` from the loop on. */
  function AddBatch(c: Config, w: World, inst: Instance, st: IssuerState, creds: seq<Cred>, f: Faults)
    : (World, Instance, Outcome)
  {
    var end := AddLoop(st.active, [], creds);
    var st' := st.(active := end.active);
    if end.raised then (w, inst.(cache := Some(st')), Raised)
    else if end.batch == [] then (w, inst, Returned(None))
    else Publish(c, w, inst, st', Add, end.batch, f)
  }

  /** Lazy initialisation of the credDef on chain; a failure is only logged. */
  function InitChain(w: World, inst: Instance, f: Faults): (World, Instance) {
    if inst.chainInitialized then (w, inst)
    else (w.(tip := w.tip + f.initGap), if f.initFails then inst else inst.(chainInitialized := true))
  }

  function AddIssued(c: Config, w: World, inst: Instance, creds: seq<Cred>, f: Faults): (World, Instance, Outcome) {
    if creds == [] then (w, inst, Returned(None))
    else
      var (w1, inst1, st) := GetOrInit(w, inst, f);
      if st.None? then (w1, inst1, Raised)
      else
        var (w2, inst2) := InitChain(w1, inst1, f);
        AddBatch(c, w2, inst2, st.value, creds, f)
  }

  /** The loop of `revoke`: every id must still be active. */
  function RevokeLoop(active: Leaves, batch: Leaves, ks: seq<Option<Digest>>): LoopEnd
    decreases |ks|
  {
    if ks == [] then LoopEnd(active, batch, false)
    else if ks[0].None? || !Has(active, ks[0].value) then LoopEnd(active, batch, true)
    else
      var k := ks[0].value;
      RevokeLoop(Pop(active, k), batch + [(k, Get(active, k).value)], ks[1..])
  }

  /** `revoke` from the loop on. */
  function RevokeBatch(c: Config, w: World, inst: Instance, st: IssuerState, ks: seq<Option<Digest>>, f: Faults)
    : (World, Instance, Outcome)
  {
    var end := RevokeLoop(st.active, [], ks);
    var st' := st.(active := end.active);
    if end.raised then (w, inst.(cache := Some(st')), Raised)
    else Publish(c, w, inst, st', Events.Revoke, end.batch, f)
  }

  function Revoke(c: Config, w: World, inst: Instance, ks: seq<Option<Digest>>, f: Faults): (World, Instance, Outcome) {
    if ks == [] then (w, inst, Returned(None))
    else
      var (w1, inst1, st) := GetOrInit(w, inst, f);
      if st.None? then (w1, inst1, Raised)
      else RevokeBatch(c, w1, inst1, st.value, ks, f)
  }
}
