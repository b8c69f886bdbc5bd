/** Every run of the issuer: recovery by a fresh issuer after any failure, and
    the roots it leaves published. */
module IssuerRuns {
  import opened Base
  import opened Dict
  import opened Events
  import opened Scan
  import opened IssuerSpec

  // ---- Invariants -------------------------------------------------------------------

  ghost predicate LogOk(w: World) {
    Ordered(w.log) && NoReAdds(w.log) && AllUpTo(w.log, w.tip)
  }

  /** The active leaves: a cold fold of the whole log. */
  function Current(w: World): Leaves {
    Fold([], w.log)
  }

  /** A readable checkpoint is the fold of the log up to its watermark. */
  ghost predicate RecordOk(w: World) {
    w.record.Some? && FromDict(w.record.value).Some? ==>
      var st := FromDict(w.record.value).value;
      st.lastSyncedBlock <= w.tip && st.active == Fold([], UpTo(w.log, st.lastSyncedBlock))
  }

  /** All that a fresh issuer needs to find the map. */
  ghost predicate MapOk(w: World) {
    LogOk(w) && RecordOk(w)
  }

  /** A live instance's state is the fold of the whole log. */
  ghost predicate CacheOk(w: World, inst: Instance) {
    inst.cache.Some? ==> StateOk(w, inst.cache.value)
  }

  ghost predicate StateOk(w: World, st: IssuerState) {
    st.active == Current(w) && st.lastSyncedBlock <= w.tip && AllUpTo(w.log, st.lastSyncedBlock)
  }

  /** The last published roots are those of the active leaves, which fit the tree. */
  ghost predicate PublishedOk(c: Config, w: World) {
    (w.log != [] ==> w.published == Some(RootsOf(c, Current(w)))) && |Current(w)| <= Pow2(DEPTH)
  }

  /** What the two loops collect over a map: adds of absent keys, revokes of present ones. */
  ghost predicate Fits(d: Leaves, kind: Kind, leaves: Leaves) {
    leaves != [] && NoDup(leaves) && forall e :: e in leaves ==> (Has(d, e.0) <==> kind.Revoke?)
  }

  /** A batch computed over the map d, with the roots of the map it leads to. */
  ghost predicate BatchOk(c: Config, d: Leaves, b: Batch) {
    var next := Applied(d, b.kind, b.leaves);
    Fits(d, b.kind, b.leaves) && |next| <= Pow2(DEPTH) && b.roots == RootsOf(c, next)
  }

  /** At most one batch is pending, computed over the current map. */
  ghost predicate PendingOk(c: Config, w: World) {
    w.pending == [] || (|w.pending| == 1 && BatchOk(c, Current(w), w.pending[0]))
  }

  ghost predicate Inv(c: Config, w: World) {
    MapOk(w) && PublishedOk(c, w) && PendingOk(c, w)
  }

  // ---- Loading and replaying ------------------------------------------------------------

  lemma {:induction false} SinceZero(es: seq<Event>)
    ensures Since(es, 0) == es
  {
    if es != [] {
      SinceZero(es[..|es| - 1]);
      assert es == es[..|es| - 1] + [es[|es| - 1]];
    }
  }

  /** Whatever the load finds, the replay ends at the cold fold. */
  lemma ReplayRecovers(w: World, loadFails: bool)
    requires LogOk(w) && (loadFails || RecordOk(w))
    ensures Replayed(w, Loaded(w, loadFails)) == IssuerState(Current(w), w.tip)
  {
    var st := Loaded(w, loadFails);
    if st == FRESH {
      SinceZero(w.log);
    } else {
      ReplayComposes(w.log, st.lastSyncedBlock);
    }
  }

  /** Writing or losing the checkpoint of a correct state. */
  lemma SaveKeeps(w: World, st: IssuerState, lost: bool)
    requires LogOk(w) && StateOk(w, st) && (lost ==> RecordOk(w))
    ensures MapOk(Saved(w, st, lost))
  {
    FoldKeys([], w.log);
    CheckpointRoundTrip(st);
    NoneAfter(w.log, st.lastSyncedBlock);
  }

  lemma GetOrInitKeeps(w: World, inst: Instance, f: Faults)
    requires MapOk(w) && CacheOk(w, inst)
    ensures var (w', inst', st) := GetOrInit(w, inst, f);
      MapOk(w') && CacheOk(w', inst') && w' == w.(record := w'.record)
      && (st.Some? ==> StateOk(w', st.value) && inst'.cache == st)
  {
    if inst.cache.None? && !f.scanFails {
      ReplayRecovers(w, f.loadFails);
      SaveKeeps(w, Replayed(w, Loaded(w, f.loadFails)), f.firstSaveLost);
    }
  }

  lemma RecordOnly(c: Config, w: World, w': World)
    requires w' == w.(record := w'.record) && MapOk(w')
    ensures Inv(c, w) ==> Inv(c, w')
  {
  }

  // ---- Batches ---------------------------------------------------------------------------

  lemma {:induction false} AppliedAt(d: Leaves, block: nat, kind: Kind, leaves: Leaves)
    ensures Fold(d, BatchEvents(block, kind, leaves)) == Applied(d, kind, leaves)
  {
    if leaves != [] {
      var n := |leaves| - 1;
      AppliedAt(d, block, kind, leaves[..n]);
      assert BatchEvents(block, kind, leaves)[..n] == BatchEvents(block, kind, leaves[..n]);
      assert BatchEvents(0, kind, leaves)[..n] == BatchEvents(0, kind, leaves[..n]);
    }
  }

  lemma AppliedExtends(d: Leaves, kind: Kind, leaves: Leaves, e: (Digest, Felt))
    ensures Applied(d, kind, leaves + [e]) == Step(Applied(d, kind, leaves), Event(0, |leaves|, kind, e.0, e.1))
  {
    var es := BatchEvents(0, kind, leaves + [e]);
    assert es[..|es| - 1] == BatchEvents(0, kind, leaves);
  }

  /** The add loop leaves the map its batch makes of the entry map. */
  lemma {:induction false} AddLoopFolds(d: Leaves, active: Leaves, batch: Leaves, creds: seq<Cred>)
    requires active == Applied(d, Add, batch)
    ensures var end := AddLoop(active, batch, creds); end.active == Applied(d, Add, end.batch)
    decreases |creds|
  {
    if creds != [] && creds[0].k.Some? {
      var k := creds[0].k.value;
      if Has(active, k) {
        AddLoopFolds(d, active, batch, creds[1..]);
      } else if creds[0].p.Some? {
        var e := (k, creds[0].p.value);
        AppliedExtends(d, Add, batch, e);
        AddLoopFolds(d, Set(active, e.0, e.1), batch + [e], creds[1..]);
      }
    }
  }

  lemma {:induction false} RevokeLoopFolds(d: Leaves, active: Leaves, batch: Leaves, ks: seq<Option<Digest>>)
    requires active == Applied(d, Revoke, batch)
    ensures var end := RevokeLoop(active, batch, ks); end.active == Applied(d, Revoke, end.batch)
    decreases |ks|
  {
    if ks != [] && ks[0].Some? && Has(active, ks[0].value) {
      var k := ks[0].value;
      var e := (k, Get(active, k).value);
      AppliedExtends(d, Revoke, batch, e);
      RevokeLoopFolds(d, Pop(active, k), batch + [e], ks[1..]);
    }
  }

  /** A loop that ends at `end` has added to the map what it has added to the batch. */
  ghost predicate Appends(active: Leaves, batch: Leaves, end: LoopEnd) {
    && |end.batch| >= |batch| && end.batch[..|batch|] == batch
    && end.active == active + end.batch[|batch|..]
  }

  lemma AppendsOne(active: Leaves, batch: Leaves, e: (Digest, Felt), end: LoopEnd)
    requires Appends(active + [e], batch + [e], end)
    ensures Appends(active, batch, end)
  {
    var n := |batch|;
    assert end.batch[..n] == end.batch[..n + 1][..n] == batch;
    assert end.batch[n] == end.batch[..n + 1][n] == e;
    assert end.batch[n..] == [e] + end.batch[n + 1..];
    assert (active + [e]) + end.batch[n + 1..] == active + ([e] + end.batch[n + 1..]);
  }

  /** The add loop appends its batch to the map. */
  lemma {:induction false} AddLoopBatch(active: Leaves, batch: Leaves, creds: seq<Cred>)
    ensures Appends(active, batch, AddLoop(active, batch, creds))
    decreases |creds|
  {
    var end := AddLoop(active, batch, creds);
    if creds != [] && creds[0].k.Some? && Has(active, creds[0].k.value) {
      AddLoopBatch(active, batch, creds[1..]);
    } else if creds != [] && creds[0].k.Some? && creds[0].p.Some? {
      var e := (creds[0].k.value, creds[0].p.value);
      SetNew(active, e.0, e.1);
      AddLoopBatch(active + [e], batch + [e], creds[1..]);
      AppendsOne(active, batch, e, end);
    } else {
      assert end.batch[|batch|..] == [] && active + [] == active;
    }
  }

  lemma SuffixFits(d: Leaves, leaves: Leaves)
    requires NoDup(d + leaves)
    ensures NoDup(leaves) && forall e :: e in leaves ==> !Has(d, e.0)
  {
    var all := d + leaves;
    forall i, j | 0 <= i < j < |leaves| ensures leaves[i].0 != leaves[j].0 {
      assert all[|d| + i] == leaves[i] && all[|d| + j] == leaves[j];
    }
    forall e | e in leaves ensures !Has(d, e.0) {
      var j :| 0 <= j < |leaves| && leaves[j] == e;
      HasIndex(d, e.0);
      assert forall i :: 0 <= i < |d| ==> all[i] == d[i] && all[i].0 != all[|d| + j].0;
    }
  }

  lemma AddLoopFits(d: Leaves, creds: seq<Cred>)
    requires NoDup(d)
    ensures var end := AddLoop(d, [], creds); end.batch != [] ==> Fits(d, Add, end.batch)
  {
    var end := AddLoop(d, [], creds);
    AddLoopBatch(d, [], creds);
    AddLoopFolds(d, d, [], creds);
    FoldKeys(d, BatchEvents(0, Add, end.batch));
    SuffixFits(d, end.batch);
  }

  /** The revoke loop collects distinct keys of the entry map, no longer active. */
  lemma {:induction false} RevokeLoopFits(d: Leaves, active: Leaves, batch: Leaves, ks: seq<Option<Digest>>)
    requires NoDup(active) && NoDup(batch) && forall k :: Has(active, k) ==> Has(d, k)
    requires forall e :: e in batch ==> Has(d, e.0) && !Has(active, e.0)
    ensures var end := RevokeLoop(active, batch, ks);
      |end.batch| >= |batch| && NoDup(end.batch) && forall e :: e in end.batch ==> Has(d, e.0)
    decreases |ks|
  {
    if ks != [] && ks[0].Some? && Has(active, ks[0].value) {
      var k := ks[0].value;
      forall j ensures Has(Pop(active, k), j) <==> j != k && Has(active, j) {
        GetPop(active, k, j);
      }
      PopKeys(active, k);
      RevokeLoopFits(d, Pop(active, k), batch + [(k, Get(active, k).value)], ks[1..]);
    }
  }

  lemma {:induction false} UpToAppend(es: seq<Event>, more: seq<Event>, b: nat)
    requires forall e :: e in more ==> e.block > b
    ensures UpTo(es + more, b) == UpTo(es, b)
  {
    if more == [] {
      assert es + more == es;
    } else {
      assert (es + more)[..|es + more| - 1] == es + more[..|more| - 1];
      UpToAppend(es, more[..|more| - 1], b);
      assert more[|more| - 1] in more;
    }
  }

  /** A one-kind block after the tip keeps the log in order. */
  lemma LaterBlockKeepsOrder(log: seq<Event>, tip: nat, block: nat, kind: Kind, leaves: Leaves)
    requires Ordered(log) && NoReAdds(log) && AllUpTo(log, tip) && tip < block
    ensures var log' := log + BatchEvents(block, kind, leaves);
      Ordered(log') && NoReAdds(log') && AllUpTo(log', block)
  {
    var log' := log + BatchEvents(block, kind, leaves);
    forall i, j | 0 <= i < j < |log'| ensures Before(log'[i], log'[j]) {
      if i < |log| {
        assert log[i] in log;
      }
    }
    forall i, j | 0 <= i < j < |log'| && log'[i].block == log'[j].block
                  && log'[i].k == log'[j].k && log'[i].kind.Revoke?
      ensures log'[j].kind.Revoke?
    {
      if i < |log| {
        assert log[i] in log;
      }
    }
  }

  lemma RecordOkAppend(w: World, w': World, more: seq<Event>)
    requires RecordOk(w) && w'.record == w.record && w'.log == w.log + more && w.tip <= w'.tip
    requires forall e :: e in more ==> e.block > w.tip
    ensures RecordOk(w')
  {
    if w.record.Some? && FromDict(w.record.value).Some? {
      UpToAppend(w.log, more, FromDict(w.record.value).value.lastSyncedBlock);
    }
  }

  lemma MinedCurrent(w: World, b: Batch, gap: nat)
    ensures Current(MineBatch(w, b, gap)) == Applied(Current(w), b.kind, b.leaves)
  {
    var block := w.tip + 1 + gap;
    FoldConcat([], w.log, BatchEvents(block, b.kind, b.leaves));
    AppliedAt(Current(w), block, b.kind, b.leaves);
  }

  /** A mined batch extends the log by one block after the tip, and old checkpoints stay valid. */
  lemma MineKeepsMap(w: World, b: Batch, gap: nat)
    requires MapOk(w)
    ensures MapOk(MineBatch(w, b, gap)) && Current(MineBatch(w, b, gap)) == Applied(Current(w), b.kind, b.leaves)
  {
    var block := w.tip + 1 + gap;
    LaterBlockKeepsOrder(w.log, w.tip, block, b.kind, b.leaves);
    RecordOkAppend(w, MineBatch(w, b, gap), BatchEvents(block, b.kind, b.leaves));
    MinedCurrent(w, b, gap);
  }

  /** Mining a batch computed over the current map, with its roots. */
  lemma MineKeeps(c: Config, w: World, b: Batch, gap: nat)
    requires MapOk(w) && w.pending == [] && BatchOk(c, Current(w), b)
    ensures Inv(c, MineBatch(w, b, gap))
  {
    MineKeepsMap(w, b, gap);
  }

  lemma LandKeeps(c: Config, w: World, gap: nat)
    requires MapOk(w) && w.pending != []
    ensures MapOk(Land(w, gap))
    ensures Inv(c, w) ==> Inv(c, Land(w, gap))
  {
    var rest := w.(pending := w.pending[1..]);
    MineKeepsMap(rest, w.pending[0], gap);
    if Inv(c, w) {
      MineKeeps(c, rest, w.pending[0], gap);
    }
  }

  /** A returned submission is mined, then its watermark is saved. */
  lemma MinedKeeps(w: World, st: IssuerState, b: Batch, gap: nat, lost: bool)
    requires MapOk(w) && st.active == Applied(Current(w), b.kind, b.leaves)
    ensures var w1 := MineBatch(w, b, gap);
      var st1 := st.(lastSyncedBlock := w1.tip);
      MapOk(Saved(w1, st1, lost)) && StateOk(Saved(w1, st1, lost), st1)
  {
    MineKeepsMap(w, b, gap);
    var w1 := MineBatch(w, b, gap);
    SaveKeeps(w1, st.(lastSyncedBlock := w1.tip), lost);
  }

  /** Submitting a batch computed over the current map: the map stays recoverable if
      no returning call is sent behind a pending batch, and everything does if none
      is sent behind one. */
  lemma SubmitKeeps(c: Config, w: World, inst: Instance, st: IssuerState, b: Batch, f: Faults)
    requires MapOk(w) && st.lastSyncedBlock <= w.tip && st.active == Applied(Current(w), b.kind, b.leaves)
    requires f.fate.Mined? ==> w.pending == []
    ensures var (w', inst', out) := Submit(w, inst, st, b, f);
      MapOk(w') && (out.Returned? ==> CacheOk(w', inst'))
    ensures Inv(c, w) && BatchOk(c, Current(w), b) && (f.fate.LeftPending? ==> w.pending == []) ==>
      Inv(c, Submit(w, inst, st, b, f).0)
  {
    match f.fate
    case Refused =>
    case LeftPending =>
    case Mined(gap, earlier) =>
      MinedKeeps(w, st, b, gap, f.lastSaveLost);
      if BatchOk(c, Current(w), b) {
        MineKeeps(c, w, b, gap);
      }
  }

  lemma PublishKeeps(c: Config, w: World, inst: Instance, st: IssuerState, kind: Kind, leaves: Leaves, f: Faults)
    requires MapOk(w) && st.lastSyncedBlock <= w.tip && st.active == Applied(Current(w), kind, leaves)
    requires Fits(Current(w), kind, leaves) && (f.fate.Mined? ==> w.pending == [])
    ensures var (w', inst', out) := Publish(c, w, inst, st, kind, leaves, f);
      MapOk(w') && (out.Returned? ==> CacheOk(w', inst'))
    ensures Inv(c, w) && (f.fate.LeftPending? ==> w.pending == []) ==>
      Inv(c, Publish(c, w, inst, st, kind, leaves, f).0)
  {
    if |st.active| <= Pow2(DEPTH) {
      SubmitKeeps(c, w, inst, st, Batch(kind, leaves, RootsOf(c, st.active)), f);
    }
  }

  // ---- Calls --------------------------------------------------------------------------------

  lemma TickKeeps(c: Config, w: World, inst: Instance, n: nat)
    requires MapOk(w) && CacheOk(w, inst)
    ensures MapOk(w.(tip := w.tip + n)) && CacheOk(w.(tip := w.tip + n), inst)
    ensures Inv(c, w) ==> Inv(c, w.(tip := w.tip + n))
  {
  }

  lemma AddBatchKeeps(c: Config, w: World, inst: Instance, st: IssuerState, creds: seq<Cred>, f: Faults)
    requires MapOk(w) && CacheOk(w, inst) && StateOk(w, st) && (f.fate.Mined? ==> w.pending == [])
    ensures var (w', inst', out) := AddBatch(c, w, inst, st, creds, f);
      MapOk(w') && (out.Returned? ==> CacheOk(w', inst'))
    ensures Inv(c, w) && (f.fate.LeftPending? ==> w.pending == []) ==> Inv(c, AddBatch(c, w, inst, st, creds, f).0)
  {
    var end := AddLoop(st.active, [], creds);
    if !end.raised && end.batch != [] {
      FoldKeys([], w.log);
      AddLoopFolds(st.active, st.active, [], creds);
      AddLoopFits(st.active, creds);
      PublishKeeps(c, w, inst, st.(active := end.active), Add, end.batch, f);
    }
  }

  lemma InitChainKeeps(c: Config, w: World, inst: Instance, st: IssuerState, f: Faults)
    requires MapOk(w) && CacheOk(w, inst) && StateOk(w, st)
    ensures var (w', inst') := InitChain(w, inst, f);
      MapOk(w') && CacheOk(w', inst') && StateOk(w', st) && w'.pending == w.pending && (Inv(c, w) ==> Inv(c, w'))
  {
    TickKeeps(c, w, inst, f.initGap);
  }

  lemma AddIssuedKeeps(c: Config, w: World, inst: Instance, creds: seq<Cred>, f: Faults)
    requires MapOk(w) && CacheOk(w, inst) && (f.fate.Mined? ==> w.pending == [])
    ensures var (w', inst', out) := AddIssued(c, w, inst, creds, f);
      MapOk(w') && (out.Returned? ==> CacheOk(w', inst'))
    ensures Inv(c, w) && (f.fate.LeftPending? ==> w.pending == []) ==> Inv(c, AddIssued(c, w, inst, creds, f).0)
  {
    if creds != [] {
      GetOrInitKeeps(w, inst, f);
      var (w1, inst1, st) := GetOrInit(w, inst, f);
      RecordOnly(c, w, w1);
      if st.Some? {
        InitChainKeeps(c, w1, inst1, st.value, f);
        var (w2, inst2) := InitChain(w1, inst1, f);
        AddBatchKeeps(c, w2, inst2, st.value, creds, f);
      }
    }
  }

  lemma RevokeBatchKeeps(c: Config, w: World, inst: Instance, st: IssuerState, ks: seq<Option<Digest>>, f: Faults)
    requires MapOk(w) && CacheOk(w, inst) && StateOk(w, st) && ks != [] && (f.fate.Mined? ==> w.pending == [])
    ensures var (w', inst', out) := RevokeBatch(c, w, inst, st, ks, f);
      MapOk(w') && (out.Returned? ==> CacheOk(w', inst'))
    ensures Inv(c, w) && (f.fate.LeftPending? ==> w.pending == []) ==> Inv(c, RevokeBatch(c, w, inst, st, ks, f).0)
  {
    var end := RevokeLoop(st.active, [], ks);
    if !end.raised {
      FoldKeys([], w.log);
      RevokeLoopFolds(st.active, st.active, [], ks);
      RevokeLoopNonempty(st.active, ks);
      RevokeLoopFits(st.active, st.active, [], ks);
      PublishKeeps(c, w, inst, st.(active := end.active), Revoke, end.batch, f);
    }
  }

  lemma RevokeLoopNonempty(d: Leaves, ks: seq<Option<Digest>>)
    requires NoDup(d) && ks != [] && !RevokeLoop(d, [], ks).raised
    ensures RevokeLoop(d, [], ks).batch != []
  {
    var k := ks[0].value;
    forall j ensures Has(Pop(d, k), j) <==> j != k && Has(d, j) {
      GetPop(d, k, j);
    }
    PopKeys(d, k);
    assert [] + [(k, Get(d, k).value)] == [(k, Get(d, k).value)];
    RevokeLoopFits(d, Pop(d, k), [(k, Get(d, k).value)], ks[1..]);
  }

  lemma RevokeKeeps(c: Config, w: World, inst: Instance, ks: seq<Option<Digest>>, f: Faults)
    requires MapOk(w) && CacheOk(w, inst) && (f.fate.Mined? ==> w.pending == [])
    ensures var (w', inst', out) := IssuerSpec.Revoke(c, w, inst, ks, f);
      MapOk(w') && (out.Returned? ==> CacheOk(w', inst'))
    ensures Inv(c, w) && (f.fate.LeftPending? ==> w.pending == []) ==> Inv(c, IssuerSpec.Revoke(c, w, inst, ks, f).0)
  {
    if ks != [] {
      GetOrInitKeeps(w, inst, f);
      var (w1, inst1, st) := GetOrInit(w, inst, f);
      RecordOnly(c, w, w1);
      if st.Some? {
        RevokeBatchKeeps(c, w1, inst1, st.value, ks, f);
      }
    }
  }

  // ---- Runs ---------------------------------------------------------------------------------

  /** What can happen between two calls or in one: a call with its failures, blocks
      passing, a new issuer object, the oldest pending transaction mined, or all but
      the first `kept` of them never to be mined. */
  datatype Action =
    | DoGet(f: Faults)
    | DoAdd(creds: seq<Cred>, f: Faults)
    | DoRevoke(ks: seq<Option<Digest>>, f: Faults)
    | Tick(blocks: nat)
    | Restart
    | Arrive(gap: nat)
    | Drop(kept: nat)

  datatype System = System(w: World, inst: Instance)

  const INITIAL := System(World([], 0, None, None, []), NEW_INSTANCE)

  /** A raised call is followed by a fresh issuer, as every caller builds one. */
  function Settle(r: (World, Instance, Outcome)): System {
    System(r.0, if r.2.Raised? then NEW_INSTANCE else r.1)
  }

  function SettleGet(r: (World, Instance, Option<IssuerState>)): System {
    System(r.0, if r.2.None? then NEW_INSTANCE else r.1)
  }

  /** No issuer object outlives the arrival of a pending batch: callers build one for each call. */
  function Next(c: Config, s: System, a: Action): System {
    match a
    case DoGet(f) => SettleGet(GetOrInit(s.w, s.inst, f))
    case DoAdd(creds, f) => Settle(AddIssued(c, s.w, s.inst, creds, f))
    case DoRevoke(ks, f) => Settle(IssuerSpec.Revoke(c, s.w, s.inst, ks, f))
    case Tick(n) => System(s.w.(tip := s.w.tip + n), s.inst)
    case Restart => System(s.w, NEW_INSTANCE)
    case Arrive(gap) => if s.w.pending == [] then s else System(Land(s.w, gap), NEW_INSTANCE)
    case Drop(kept) => if kept < |s.w.pending| then System(s.w.(pending := s.w.pending[..kept]), s.inst) else s
  }

  function Run(c: Config, actions: seq<Action>): System {
    if actions == [] then INITIAL else Next(c, Run(c, actions[..|actions| - 1]), actions[|actions| - 1])
  }

  predicate Sends(a: Action) {
    (a.DoAdd? || a.DoRevoke?) && !a.f.fate.Refused?
  }

  /** No call returns having been sent behind a pending batch. */
  ghost predicate Waits(c: Config, actions: seq<Action>) {
    forall i :: 0 <= i < |actions| && Sends(actions[i]) && actions[i].f.fate.Mined? ==>
      Run(c, actions[..i]).w.pending == []
  }

  /** No call is sent behind a pending batch. */
  ghost predicate Spaced(c: Config, actions: seq<Action>) {
    forall i :: 0 <= i < |actions| && Sends(actions[i]) ==> Run(c, actions[..i]).w.pending == []
  }

  lemma Prefix(c: Config, actions: seq<Action>, n: nat)
    requires n <= |actions|
    ensures Waits(c, actions) ==> Waits(c, actions[..n])
    ensures Spaced(c, actions) ==> Spaced(c, actions[..n])
  {
    assert forall i :: 0 <= i < n ==> actions[..n][..i] == actions[..i];
  }

  ghost predicate Good(c: Config, s: System) {
    Inv(c, s.w) && CacheOk(s.w, s.inst)
  }

  lemma DropKeeps(c: Config, w: World, kept: nat)
    requires kept < |w.pending|
    ensures MapOk(w) ==> MapOk(w.(pending := w.pending[..kept]))
    ensures Inv(c, w) ==> Inv(c, w.(pending := w.pending[..kept]))
  {
  }

  lemma NextKeeps(c: Config, s: System, a: Action)
    requires MapOk(s.w) && CacheOk(s.w, s.inst) && (Sends(a) && a.f.fate.Mined? ==> s.w.pending == [])
    ensures MapOk(Next(c, s, a).w) && CacheOk(Next(c, s, a).w, Next(c, s, a).inst)
    ensures Inv(c, s.w) && (Sends(a) ==> s.w.pending == []) ==> Inv(c, Next(c, s, a).w)
  {
    match a
    case DoGet(f) =>
      GetOrInitKeeps(s.w, s.inst, f);
      RecordOnly(c, s.w, GetOrInit(s.w, s.inst, f).0);
    case DoAdd(creds, f) =>
      AddIssuedKeeps(c, s.w, s.inst, creds, f);
    case DoRevoke(ks, f) =>
      RevokeKeeps(c, s.w, s.inst, ks, f);
    case Tick(n) =>
      TickKeeps(c, s.w, s.inst, n);
    case Restart =>
    case Arrive(gap) =>
      if s.w.pending != [] {
        LandKeeps(c, s.w, gap);
      }
    case Drop(kept) =>
      if kept < |s.w.pending| {
        DropKeeps(c, s.w, kept);
      }
  }

  /** The map invariant of every run in which no call returns from behind a pending
      batch, and the whole invariant of every run in which none is sent behind one. */
  lemma {:induction false} RunKeeps(c: Config, actions: seq<Action>)
    requires Waits(c, actions)
    ensures MapOk(Run(c, actions).w) && CacheOk(Run(c, actions).w, Run(c, actions).inst)
    ensures Spaced(c, actions) ==> Good(c, Run(c, actions))
  {
    if actions != [] {
      var n := |actions| - 1;
      Prefix(c, actions, n);
      RunKeeps(c, actions[..n]);
      NextKeeps(c, Run(c, actions[..n]), actions[n]);
    }
  }

  /** Crash refinement: after any run, whatever failed, was lost or arrived late, a
      fresh issuer's state is the cold fold of the whole log, if no call returned from
      behind a pending batch; and the published roots are that map's, if none was
      sent behind one. */
  lemma FreshIssuerRecovers(c: Config, actions: seq<Action>, f: Faults)
    requires Waits(c, actions) && !f.scanFails
    ensures var w := Run(c, actions).w;
      var st := GetOrInit(w, NEW_INSTANCE, f).2;
      st == Some(IssuerState(Fold([], w.log), w.tip))
      && (Spaced(c, actions) && w.log != [] ==> w.published == Some(RootsOf(c, st.value.active)))
  {
    RunKeeps(c, actions);
    ReplayRecovers(Run(c, actions).w, f.loadFails);
  }
}
