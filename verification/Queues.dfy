/** Any number of batches pending and one more sent behind them: what the chain,
    the published roots and a fresh issuer make of it. */
module Queues {
  import opened Base
  import opened Dict
  import opened Events
  import opened Scan
  import opened IssuerSpec
  import opened IssuerRuns
  import opened Overlap

  /** The map after every batch of a queue, in the order they were sent. */
  function AppliedAll(d: Leaves, q: seq<Batch>): Leaves
    decreases |q|
  {
    if q == [] then d else AppliedAll(Applied(d, q[0].kind, q[0].leaves), q[1..])
  }

  // ---- Landing a queue ------------------------------------------------------------------

  lemma LandsFirst(w: World, gap: nat)
    requires MapOk(w) && w.pending != []
    ensures var w1, a := Land(w, gap), w.pending[0];
      MapOk(w1) && w1.pending == w.pending[1..] && w1.tip > w.tip && w1.published == Some(a.roots)
      && Current(w1) == Applied(Current(w), a.kind, a.leaves)
  {
    MineKeepsMap(w.(pending := w.pending[1..]), w.pending[0], gap);
  }

  /** All that was pending in w has been mined. */
  ghost predicate Landed(w: World, w1: World) {
    && MapOk(w1) && w1.pending == [] && w1.tip >= w.tip && Current(w1) == AppliedAll(Current(w), w.pending)
    && (w.pending != [] ==> w1.published == Some(w.pending[|w.pending| - 1].roots))
  }

  lemma LandsRest(w: World, gap: nat, w1: World)
    requires MapOk(w) && w.pending != [] && Landed(Land(w, gap), w1) && (|w.pending| == 1 ==> w1 == Land(w, gap))
    ensures Landed(w, w1)
  {
    LandsFirst(w, gap);
    var q, rest := w.pending, w.pending[1..];
    assert AppliedAll(Current(w), q) == AppliedAll(Applied(Current(w), q[0].kind, q[0].leaves), rest);
    assert rest != [] ==> rest[|rest| - 1] == q[|q| - 1];
  }

  lemma {:induction false} LandsAll(w: World, gaps: seq<nat>)
    requires MapOk(w)
    ensures Landed(w, LandAll(w, gaps))
    decreases |w.pending|
  {
    if w.pending != [] {
      var gap, rest := if gaps == [] then 0 else gaps[0], if gaps == [] then [] else gaps[1..];
      LandsFirst(w, gap);
      LandsAll(Land(w, gap), rest);
      assert LandAll(w, gaps) == LandAll(Land(w, gap), rest);
      LandsRest(w, gap, LandAll(w, gaps));
    }
  }

  /** A batch computed over the current map and mined behind any queue. The published
      roots are those of the map without the queue; a fresh issuer finds the active map
      if and only if that is the same map, or the last checkpoint was lost or cannot be
      read. */
  lemma QueueExact(c: Config, w: World, inst: Instance, st: IssuerState, b: Batch, f: Faults, g: Faults)
    requires MapOk(w) && f.fate.Mined? && !g.scanFails && b.roots == RootsOf(c, st.active)
    requires st.active == Applied(Current(w), b.kind, b.leaves) && st.lastSyncedBlock <= w.tip
    ensures var w' := Submit(w, inst, st, b, f).0;
      w'.published == Some(RootsOf(c, st.active)) && LogOk(w') && w'.pending == []
      && Current(w') == Applied(AppliedAll(Current(w), w.pending), b.kind, b.leaves)
      && (GetOrInit(w', NEW_INSTANCE, g).2.value.active == Current(w')
          <==> f.lastSaveLost || g.loadFails || st.active == Current(w'))
  {
    var w1 := LandAll(w, f.fate.earlier);
    LandsAll(w, f.fate.earlier);
    var w2 := MineBatch(w1, b, f.fate.gap);
    MineKeepsMap(w1, b, f.fate.gap);
    FoldKeys([], w.log);
    var w' := Submit(w, inst, st, b, f).0;
    if f.lastSaveLost || g.loadFails {
      assert w'.log == w2.log && w'.tip == w2.tip;
      ReplayRecovers(w', g.loadFails);
    } else {
      SavedOverlap(w1, b, f.fate.gap, Current(w), st.(lastSyncedBlock := w2.tip), g);
    }
  }

  // ---- When the queue changes nothing -------------------------------------------------------

  /** The leaves of a queue, one batch after another. */
  function Flat(q: seq<Batch>): Leaves {
    if q == [] then [] else q[0].leaves + Flat(q[1..])
  }

  lemma {:induction false} FlatHas(q: seq<Batch>, k: Digest)
    ensures HasKey(Flat(q), k) <==> exists a :: a in q && HasKey(a.leaves, k)
  {
    if q != [] {
      FlatHas(q[1..], k);
      KeysConcat(q[0].leaves, Flat(q[1..]));
      assert q == [q[0]] + q[1..];
      assert forall a :: a in q <==> a == q[0] || a in q[1..];
    }
  }

  lemma KeysConcat(a: Leaves, b: Leaves)
    ensures Keys(a + b) == Keys(a) + Keys(b)
  {
  }

  lemma {:induction false} AppliedConcat(d: Leaves, kind: Kind, a: Leaves, b: Leaves)
    ensures Applied(d, kind, a + b) == Applied(Applied(d, kind, a), kind, b)
    decreases |b|
  {
    if b == [] {
      assert a + b == a;
    } else {
      var init, e := b[..|b| - 1], b[|b| - 1];
      assert b == init + [e] && a + b == (a + init) + [e];
      AppliedConcat(d, kind, a, init);
      AppliedExtends(d, kind, a + init, e);
      AppliedExtends(Applied(d, kind, a), kind, init, e);
    }
  }

  lemma {:induction false} FlatApplied(d: Leaves, q: seq<Batch>, kind: Kind)
    requires forall a :: a in q ==> a.kind == kind
    ensures AppliedAll(d, q) == Applied(d, kind, Flat(q))
    decreases |q|
  {
    if q != [] {
      assert q[0] in q;
      FlatApplied(Applied(d, kind, q[0].leaves), q[1..], kind);
      AppliedConcat(d, kind, q[0].leaves, Flat(q[1..]));
    }
  }

  lemma SetSkips(x: (Digest, Felt), d: Leaves, k: Digest, v: Felt)
    requires x.0 != k
    ensures Set([x] + d, k, v) == [x] + Set(d, k, v)
  {
    assert ([x] + d)[0] == x && ([x] + d)[1..] == d;
  }

  lemma {:induction false} SetAbove(d: Leaves, m: Leaves, k: Digest, v: Felt)
    requires !Has(d, k)
    ensures Set(d + m, k, v) == d + Set(m, k, v)
    decreases |d|
  {
    if d == [] {
      assert d + m == m && d + Set(m, k, v) == Set(m, k, v);
    } else {
      var x, rest := d[0], d[1..];
      SetAbove(rest, m, k, v);
      SetSkips(x, rest + m, k, v);
      assert d + m == [x] + (rest + m) && d + Set(m, k, v) == [x] + (rest + Set(m, k, v));
    }
  }

  /** Adds of keys a map has not land after its entries. */
  lemma {:induction false} AddsAbove(d: Leaves, a: Leaves)
    requires forall k :: HasKey(a, k) ==> !Has(d, k)
    ensures Applied(d, Add, a) == d + Applied([], Add, a)
    decreases |a|
  {
    if a == [] {
      assert d + [] == d;
    } else {
      var init, e := a[..|a| - 1], a[|a| - 1];
      assert a == init + [e];
      KeysConcat(init, [e]);
      assert Keys([e])[0] == e.0 && HasKey(a, e.0);
      AddsAbove(d, init);
      AppliedExtends(d, Add, init, e);
      AppliedExtends([], Add, init, e);
      SetAbove(d, Applied([], Add, init), e.0, e.1);
    }
  }

  /** Every batch of the queue was computed over this map. */
  ghost predicate AllFit(d: Leaves, q: seq<Batch>) {
    forall a :: a in q ==> Fits(d, a.kind, a.leaves)
  }

  /** What the adds of a queue insert, with its keys in the order they first arrive. */
  function Merged(q: seq<Batch>): Leaves {
    Applied([], Add, Flat(q))
  }

  lemma MergedFits(d: Leaves, q: seq<Batch>)
    requires q != [] && AllFit(d, q) && forall a :: a in q ==> a.kind.Add?
    ensures Fits(d, Add, Merged(q)) && Applied(d, Add, Flat(q)) == d + Merged(q)
  {
    forall k | HasKey(Flat(q), k) ensures !Has(d, k) {
      FlatHas(q, k);
      var a :| a in q && HasKey(a.leaves, k);
      FitsHas(d, Add, a.leaves, k);
    }
    AddsAbove(d, Flat(q));
    AppliedNoDup([], Add, Flat(q));
    forall e | e in Merged(q) ensures !Has(d, e.0) {
      var i :| 0 <= i < |Merged(q)| && Merged(q)[i] == e;
      HasAt(Merged(q), i);
      AppliedHas([], Add, Flat(q), e.0);
    }
    MergedNonempty(d, q);
  }

  lemma MergedNonempty(d: Leaves, q: seq<Batch>)
    requires q != [] && AllFit(d, q)
    ensures Merged(q) != []
  {
    assert q[0] in q && q[0].leaves != [];
    var k := q[0].leaves[0].0;
    assert Keys(q[0].leaves)[0] == k && HasKey(q[0].leaves, k);
    FlatHas(q, k);
    AppliedHas([], Add, Flat(q), k);
  }

  lemma AddsBehindAdds(d: Leaves, q: seq<Batch>, b: Leaves)
    requires NoDup(d) && q != [] && AllFit(d, q) && Fits(d, Add, b) && forall a :: a in q ==> a.kind.Add?
    ensures Applied(AppliedAll(d, q), Add, b) == Applied(d, Add, b) <==> Keys(Merged(q)) <= Keys(b)
  {
    MergedFits(d, q);
    FlatApplied(d, q, Add);
    AppliedAdds(d, Merged(q));
    AddsOverAdds(d, Merged(q), b);
  }

  lemma RevokesBehindRevokes(d: Leaves, q: seq<Batch>, b: Leaves)
    requires NoDup(d) && AllFit(d, q) && forall a :: a in q ==> a.kind.Revoke?
    ensures Applied(AppliedAll(d, q), Revoke, b) == Applied(d, Revoke, b)
      <==> forall k :: k in Keys(Flat(q)) ==> k in Keys(b)
  {
    forall k | k in Keys(Flat(q)) ensures Has(d, k) {
      assert HasKey(Flat(q), k);
      FlatHas(q, k);
      var a :| a in q && HasKey(a.leaves, k);
      FitsHas(d, Revoke, a.leaves, k);
    }
    FlatApplied(d, q, Revoke);
    RevokesOver(d, Flat(q), b);
  }

  lemma {:induction false} AllNoDup(d: Leaves, q: seq<Batch>)
    requires NoDup(d)
    ensures NoDup(AppliedAll(d, q))
    decreases |q|
  {
    if q != [] {
      AppliedNoDup(d, q[0].kind, q[0].leaves);
      AllNoDup(Applied(d, q[0].kind, q[0].leaves), q[1..]);
    }
  }

  /** Whether a queue over d leaves key k in a map that has it as x says. */
  lemma {:induction false} KeyStays(d: Leaves, x: Leaves, q: seq<Batch>, k: Digest)
    requires NoDup(x) && AllFit(d, q) && Has(x, k) != Has(d, k)
    ensures Has(AppliedAll(x, q), k) != Has(d, k)
    decreases |q|
  {
    if q != [] {
      var a := q[0];
      assert a in q;
      if HasKey(a.leaves, k) {
        FitsHas(d, a.kind, a.leaves, k);
      }
      AppliedHas(x, a.kind, a.leaves, k);
      AppliedNoDup(x, a.kind, a.leaves);
      KeyStays(d, Applied(x, a.kind, a.leaves), q[1..], k);
    }
  }

  /** A key that one batch of the queue adds or revokes has changed its presence at the end. */
  lemma {:induction false} KeyFlips(d: Leaves, x: Leaves, q: seq<Batch>, a: Batch, k: Digest)
    requires NoDup(x) && AllFit(d, q) && a in q && HasKey(a.leaves, k)
    ensures Has(AppliedAll(x, q), k) != Has(d, k)
    decreases |q|
  {
    var x1 := Applied(x, q[0].kind, q[0].leaves);
    assert q[0] in q;
    AppliedNoDup(x, q[0].kind, q[0].leaves);
    if a == q[0] {
      FitsHas(d, a.kind, a.leaves, k);
      AppliedHas(x, a.kind, a.leaves, k);
      KeyStays(d, x1, q[1..], k);
    } else {
      KeyFlips(d, x1, q[1..], a, k);
    }
  }

  lemma OtherKindChanges(d: Leaves, q: seq<Batch>, a: Batch, b: Batch)
    requires NoDup(d) && AllFit(d, q) && Fits(d, b.kind, b.leaves) && a in q && a.kind != b.kind
    ensures Applied(AppliedAll(d, q), b.kind, b.leaves) != Applied(d, b.kind, b.leaves)
  {
    var k := a.leaves[0].0;
    assert Keys(a.leaves)[0] == k && HasKey(a.leaves, k);
    FitsHas(d, a.kind, a.leaves, k);
    if HasKey(b.leaves, k) {
      FitsHas(d, b.kind, b.leaves, k);
    }
    KeyFlips(d, d, q, a, k);
    AllNoDup(d, q);
    AppliedHas(d, b.kind, b.leaves, k);
    AppliedHas(AppliedAll(d, q), b.kind, b.leaves, k);
  }

  /** A batch repeats a whole queue: the same kind, with the queue's adds first in
      their order of arrival, or all its revokes. */
  predicate CoversAll(q: seq<Batch>, b: Batch) {
    (forall a :: a in q ==> a.kind == b.kind)
    && if b.kind.Add? then Keys(Merged(q)) <= Keys(b.leaves)
       else forall k :: k in Keys(Flat(q)) ==> k in Keys(b.leaves)
  }

  /** Batches computed over one map, however many: mining all but the last before it
      changes nothing if and only if the last repeats them. */
  lemma QueueChanges(d: Leaves, q: seq<Batch>, b: Batch)
    requires NoDup(d) && AllFit(d, q) && Fits(d, b.kind, b.leaves)
    ensures Applied(AppliedAll(d, q), b.kind, b.leaves) == Applied(d, b.kind, b.leaves) <==> CoversAll(q, b)
  {
    if a :| a in q && a.kind != b.kind {
      OtherKindChanges(d, q, a, b);
    } else if b.kind.Revoke? {
      RevokesBehindRevokes(d, q, b.leaves);
    } else if q != [] {
      AddsBehindAdds(d, q, b.leaves);
    } else {
      assert Keys(Merged(q)) == [];
    }
  }

  lemma FlatOne(a: Batch)
    ensures Flat([a]) == a.leaves
  {
    assert [a][1..] == [] && a.leaves + [] == a.leaves;
  }

  lemma MergedOne(d: Leaves, a: Batch)
    requires Fits(d, Add, a.leaves)
    ensures Merged([a]) == a.leaves
  {
    FlatOne(a);
    AppliedAdds([], a.leaves);
    assert [] + a.leaves == a.leaves;
  }

  lemma CoversOne(d: Leaves, a: Batch, b: Batch)
    requires Fits(d, a.kind, a.leaves)
    ensures CoversAll([a], b) <==> Covers(a, b)
  {
    assert a in [a] && forall x :: x in [a] ==> x == a;
    FlatOne(a);
    if a.kind.Add? {
      MergedOne(d, a);
    }
  }

  /** Two batches computed over one map: mining the first before the second changes
      nothing if and only if the second repeats it. */
  lemma OverlapChanges(d: Leaves, a: Batch, b: Batch)
    requires NoDup(d) && Fits(d, a.kind, a.leaves) && Fits(d, b.kind, b.leaves)
    ensures Applied(Applied(d, a.kind, a.leaves), b.kind, b.leaves) == Applied(d, b.kind, b.leaves) <==> Covers(a, b)
  {
    QueueChanges(d, [a], b);
    CoversOne(d, a, b);
    assert AppliedAll(d, [a]) == AppliedAll(Applied(d, a.kind, a.leaves), []);
  }

  // ---- Over runs ----------------------------------------------------------------------------

  /** All that is pending was computed over the current map. */
  ghost predicate QueueOk(w: World) {
    AllFit(Current(w), w.pending)
  }

  /** A pending batch arrives only while no other is pending behind it. */
  ghost predicate Still(c: Config, actions: seq<Action>) {
    forall i :: 0 <= i < |actions| && actions[i].Arrive? ==> |Run(c, actions[..i]).w.pending| <= 1
  }

  lemma BatchNothing(c: Config, w: World, inst: Instance, st: IssuerState, creds: seq<Cred>, f: Faults)
    requires var end := AddLoop(st.active, [], creds); end.raised || end.batch == [] || |end.active| > Pow2(DEPTH)
    ensures AddBatch(c, w, inst, st, creds, f).0 == w
  {
  }

  lemma NothingAdded(c: Config, s: System, creds: seq<Cred>, f: Faults)
    requires SentBatch(c, s, DoAdd(creds, f)).None?
    ensures var w := AddIssued(c, s.w, s.inst, creds, f).0; w.log == s.w.log && w.pending == s.w.pending
  {
    var (w1, inst1, st) := GetOrInit(s.w, s.inst, f);
    if creds != [] && st.Some? {
      var (w2, inst2) := InitChain(w1, inst1, f);
      BatchNothing(c, w2, inst2, st.value, creds, f);
    }
  }

  lemma NothingRevoked(c: Config, s: System, ks: seq<Option<Digest>>, f: Faults)
    requires SentBatch(c, s, DoRevoke(ks, f)).None?
    ensures var w := IssuerSpec.Revoke(c, s.w, s.inst, ks, f).0; w.log == s.w.log && w.pending == s.w.pending
  {
  }

  lemma SubmitFits(w: World, inst: Instance, st: IssuerState, b: Batch, f: Faults)
    requires QueueOk(w) && Fits(Current(w), b.kind, b.leaves) && (f.fate.Mined? ==> w.pending == [])
    ensures QueueOk(Submit(w, inst, st, b, f).0)
  {
  }

  lemma CallFits(c: Config, s: System, a: Action)
    requires MapOk(s.w) && CacheOk(s.w, s.inst) && QueueOk(s.w) && (a.DoAdd? || a.DoRevoke?)
    requires a.f.fate.Mined? ==> s.w.pending == []
    ensures QueueOk(Next(c, s, a).w)
  {
    if SentBatch(c, s, a).Some? {
      var w, inst, st := CallSubmits(c, s, a);
      SubmitFits(w, inst, st, SentBatch(c, s, a).value, a.f);
    } else if a.DoAdd? {
      NothingAdded(c, s, a.creds, a.f);
    } else {
      NothingRevoked(c, s, a.ks, a.f);
    }
  }

  lemma NextFits(c: Config, s: System, a: Action)
    requires MapOk(s.w) && CacheOk(s.w, s.inst) && (Sends(a) && a.f.fate.Mined? ==> s.w.pending == [])
    requires QueueOk(s.w) && (a.Arrive? ==> |s.w.pending| <= 1)
    ensures QueueOk(Next(c, s, a).w)
  {
    if a.DoAdd? || a.DoRevoke? {
      CallFits(c, s, a);
    } else if !a.Arrive? {
      assert Next(c, s, a).w.log == s.w.log;
    }
  }

  lemma RunNext(c: Config, actions: seq<Action>, n: nat)
    requires n < |actions|
    ensures Run(c, actions[..n + 1]) == Next(c, Run(c, actions[..n]), actions[n])
  {
    assert actions[..n + 1] == actions[..n] + [actions[n]];
    RunThen(c, actions[..n], actions[n]);
  }

  lemma RunFits(c: Config, actions: seq<Action>, n: nat)
    requires n < |actions| && Waits(c, actions) && Still(c, actions) && QueueOk(Run(c, actions[..n]).w)
    ensures QueueOk(Run(c, actions[..n + 1]).w)
  {
    Prefix(c, actions, n);
    RunKeeps(c, actions[..n]);
    NextFits(c, Run(c, actions[..n]), actions[n]);
    RunNext(c, actions, n);
  }

  /** In such a run all that is pending was computed over the current map. */
  lemma {:induction false} QueueFits(c: Config, actions: seq<Action>, n: nat)
    requires n <= |actions| && Waits(c, actions) && Still(c, actions)
    ensures QueueOk(Run(c, actions[..n]).w)
    decreases n
  {
    if n == 0 {
      assert Run(c, []) == INITIAL;
    } else {
      QueueFits(c, actions, n - 1);
      RunFits(c, actions, n - 1);
    }
  }

  lemma QueueRepeats(c: Config, actions: seq<Action>, call: Action)
    requires Waits(c, actions) && Still(c, actions) && SentBatch(c, Run(c, actions), call).Some?
    ensures var s := Run(c, actions);
      var d, q, b := Current(s.w), s.w.pending, SentBatch(c, s, call).value;
      Applied(d, b.kind, b.leaves) == Applied(AppliedAll(d, q), b.kind, b.leaves) <==> CoversAll(q, b)
  {
    var s := Run(c, actions);
    RunKeeps(c, actions);
    QueueFits(c, actions, |actions|);
    assert actions[..|actions|] == actions;
    FoldKeys([], s.w.log);
    var w, inst, st := CallSubmits(c, s, call);
    QueueChanges(Current(s.w), s.w.pending, SentBatch(c, s, call).value);
  }

  /** The first call of a run to return from behind pending batches, whatever the
      queue: the published roots are those of the map without the queue, and a fresh
      issuer finds the active map exactly when that is the same map (or the checkpoint
      did not survive); where the queue was computed over one map, exactly when the
      call's batch repeats it. */
  lemma QueueRun(c: Config, actions: seq<Action>, call: Action, g: Faults)
    requires Waits(c, actions) && !g.scanFails
    requires SentBatch(c, Run(c, actions), call).Some? && call.f.fate.Mined?
    ensures var s, w' := Run(c, actions), Run(c, actions + [call]).w;
      var d, q, b := Current(s.w), s.w.pending, SentBatch(c, s, call).value;
      var intended := Applied(d, b.kind, b.leaves);
      && w'.published == Some(RootsOf(c, intended))
      && Current(w') == Applied(AppliedAll(d, q), b.kind, b.leaves)
      && (GetOrInit(w', NEW_INSTANCE, g).2.value.active == Current(w')
          <==> call.f.lastSaveLost || g.loadFails || intended == Current(w'))
      && (Still(c, actions) ==> (intended == Current(w') <==> CoversAll(q, b)))
  {
    var s := Run(c, actions);
    RunKeeps(c, actions);
    RunThen(c, actions, call);
    var w, inst, st := CallSubmits(c, s, call);
    var b := SentBatch(c, s, call).value;
    QueueExact(c, w, inst, st, b, call.f, g);
    if Still(c, actions) {
      QueueRepeats(c, actions, call);
    }
  }

  // ---- Everything left pending and arriving later ---------------------------------------------

  function Arrivals(gaps: seq<nat>): seq<Action> {
    seq(|gaps|, i requires 0 <= i < |gaps| => Arrive(gaps[i]))
  }

  lemma {:induction false} ArriveAll(c: Config, actions: seq<Action>, gaps: seq<nat>)
    requires |gaps| == |Run(c, actions).w.pending|
    ensures Run(c, actions + Arrivals(gaps)).w == LandAll(Run(c, actions).w, gaps)
    decreases |gaps|
  {
    var w := Run(c, actions).w;
    if gaps == [] {
      assert actions + Arrivals(gaps) == actions;
    } else {
      var a := Arrive(gaps[0]);
      RunThen(c, actions, a);
      assert Land(w, gaps[0]).pending == w.pending[1..];
      ArriveAll(c, actions + [a], gaps[1..]);
      assert actions + Arrivals(gaps) == (actions + [a]) + Arrivals(gaps[1..]);
    }
  }

  lemma LeftCallLands(c: Config, s: System, call: Action, gaps: seq<nat>, g: Faults)
    requires MapOk(s.w) && CacheOk(s.w, s.inst) && !g.scanFails
    requires SentBatch(c, s, call).Some? && call.f.fate.LeftPending?
    ensures |Next(c, s, call).w.pending| == |s.w.pending| + 1
    ensures var w', b := LandAll(Next(c, s, call).w, gaps), SentBatch(c, s, call).value;
      && w'.published == Some(RootsOf(c, Applied(Current(s.w), b.kind, b.leaves)))
      && Current(w') == Applied(AppliedAll(Current(s.w), s.w.pending), b.kind, b.leaves)
      && GetOrInit(w', NEW_INSTANCE, g).2.value.active == Current(w')
  {
    var w, inst, st := CallSubmits(c, s, call);
    var b := SentBatch(c, s, call).value;
    var w0 := w.(pending := w.pending + [b]);
    LandsAll(w0, gaps);
    AppliedAllLast(Current(w), w.pending, b);
    ReplayRecovers(LandAll(w0, gaps), g.loadFails);
  }

  /** The same when the last call raises too and the whole queue arrives: a fresh issuer
      always finds the map, and the published roots are its own exactly when the last
      batch repeats the queue before it. */
  lemma QueueLeftRun(c: Config, actions: seq<Action>, call: Action, gaps: seq<nat>, g: Faults)
    requires Waits(c, actions) && !g.scanFails
    requires SentBatch(c, Run(c, actions), call).Some? && call.f.fate.LeftPending?
    requires |gaps| == |Run(c, actions).w.pending| + 1
    ensures var s, w' := Run(c, actions), Run(c, actions + [call] + Arrivals(gaps)).w;
      var d, q, b := Current(s.w), s.w.pending, SentBatch(c, s, call).value;
      var intended := Applied(d, b.kind, b.leaves);
      && w'.published == Some(RootsOf(c, intended))
      && Current(w') == Applied(AppliedAll(d, q), b.kind, b.leaves)
      && GetOrInit(w', NEW_INSTANCE, g).2.value.active == Current(w')
      && (Still(c, actions) ==> (intended == Current(w') <==> CoversAll(q, b)))
  {
    var s := Run(c, actions);
    RunKeeps(c, actions);
    RunThen(c, actions, call);
    LeftCallLands(c, s, call, gaps, g);
    ArriveAll(c, actions + [call], gaps);
    if Still(c, actions) {
      QueueRepeats(c, actions, call);
    }
  }

  lemma {:induction false} AppliedAllLast(d: Leaves, q: seq<Batch>, b: Batch)
    ensures AppliedAll(d, q + [b]) == Applied(AppliedAll(d, q), b.kind, b.leaves)
    decreases |q|
  {
    if q == [] {
      assert q + [b] == [b];
    } else {
      assert (q + [b])[0] == q[0] && (q + [b])[1..] == q[1..] + [b];
      AppliedAllLast(Applied(d, q[0].kind, q[0].leaves), q[1..], b);
    }
  }

  // ---- One batch pending ------------------------------------------------------------------------

  lemma SpacedWaits(c: Config, actions: seq<Action>)
    requires Spaced(c, actions)
    ensures Waits(c, actions)
  {
  }

  /** If no call was sent behind a pending batch there is never more than one. */
  lemma SpacedStill(c: Config, actions: seq<Action>)
    requires Spaced(c, actions)
    ensures Still(c, actions)
  {
    forall i | 0 <= i < |actions| && actions[i].Arrive? ensures |Run(c, actions[..i]).w.pending| <= 1 {
      Prefix(c, actions, i);
      SpacedWaits(c, actions);
      RunKeeps(c, actions[..i]);
    }
  }

  /** The first call of a run to be sent behind a pending batch, if it returns: the
      published roots are the active map's own, and a fresh issuer finds that map,
      exactly when the batch repeats the pending one (or, for the map, when the
      checkpoint did not survive). */
  lemma OverlapRun(c: Config, actions: seq<Action>, call: Action, g: Faults)
    requires Spaced(c, actions) && !g.scanFails
    requires var s := Run(c, actions);
      s.w.pending != [] && SentBatch(c, s, call).Some? && call.f.fate.Mined?
    ensures var s, w' := Run(c, actions), Run(c, actions + [call]).w;
      var a, b := s.w.pending[0], SentBatch(c, s, call).value;
      var intended := Applied(Current(s.w), b.kind, b.leaves);
      w'.published == Some(RootsOf(c, intended))
      && (intended == Current(w') <==> Covers(a, b))
      && (GetOrInit(w', NEW_INSTANCE, g).2.value.active == Current(w')
          <==> call.f.lastSaveLost || g.loadFails || Covers(a, b))
  {
    var s := Run(c, actions);
    SpacedWaits(c, actions);
    SpacedStill(c, actions);
    RunKeeps(c, actions);
    assert s.w.pending == [s.w.pending[0]];
    CoversOne(Current(s.w), s.w.pending[0], SentBatch(c, s, call).value);
    QueueRun(c, actions, call, g);
  }

  /** A call whose batch is left pending changes the queue, and at most the checkpoint. */
  lemma SentPends(c: Config, s: System, call: Action) returns (w: World)
    requires Good(c, s) && SentBatch(c, s, call).Some? && call.f.fate.LeftPending?
    ensures var b := SentBatch(c, s, call).value;
      Inv(c, w) && w.log == s.w.log && w.pending == s.w.pending && BatchOk(c, Current(w), b)
      && Next(c, s, call) == System(w.(pending := w.pending + [b]), NEW_INSTANCE)
  {
    var w', inst, st := CallSubmits(c, s, call);
    w := w';
  }

  /** No failure but the fate of the batch. */
  function Only(fate: Fate): Faults {
    Faults(false, false, false, false, 0, fate, false)
  }

  function AddOne(k: Digest, p: Felt, fate: Fate): Action {
    DoAdd([Cred(Some(k), Some(p))], Only(fate))
  }

  lemma SentAdd(c: Config, s: System, creds: seq<Cred>, f: Faults, st: IssuerState, end: LoopEnd)
    requires creds != [] && GetOrInit(s.w, s.inst, f).2 == Some(st) && AddLoop(st.active, [], creds) == end
    requires !end.raised && end.batch != [] && |end.active| <= Pow2(DEPTH)
    ensures SentBatch(c, s, DoAdd(creds, f)) == Some(Batch(Add, end.batch, RootsOf(c, end.active)))
  {
  }

  /** A new key is sent as a batch of its own. */
  lemma SendsOne(c: Config, s: System, k: Digest, p: Felt, fate: Fate)
    requires Good(c, s) && !Has(Current(s.w), k) && |Current(s.w)| < Pow2(DEPTH)
    ensures SentBatch(c, s, AddOne(k, p, fate)) == Some(Batch(Add, [(k, p)], RootsOf(c, Current(s.w) + [(k, p)])))
  {
    var f, creds := Only(fate), [Cred(Some(k), Some(p))];
    GetOrInitKeeps(s.w, s.inst, f);
    OneAdd(Current(s.w), k, p);
    SentAdd(c, s, creds, f, GetOrInit(s.w, s.inst, f).2.value, LoopEnd(Current(s.w) + [(k, p)], [(k, p)], false));
  }

  lemma OneAdd(d: Leaves, k: Digest, p: Felt)
    requires !Has(d, k)
    ensures AddLoop(d, [], [Cred(Some(k), Some(p))]) == LoopEnd(d + [(k, p)], [(k, p)], false)
  {
    var creds := [Cred(Some(k), Some(p))];
    SetNew(d, k, p);
    assert creds[1..] == [] && [] + [(k, p)] == [(k, p)];
    assert AddLoop(d, [], creds) == AddLoop(d + [(k, p)], [(k, p)], []);
  }

  lemma InitialGood(c: Config)
    ensures Good(c, INITIAL) && Current(INITIAL.w) == []
  {
    RunKeeps(c, []);
  }

  lemma FirstAddSent(c: Config, k: Digest, p: Felt)
    ensures SentBatch(c, INITIAL, AddOne(k, p, LeftPending)) == Some(Batch(Add, [(k, p)], RootsOf(c, [(k, p)])))
  {
    InitialGood(c);
    SendsOne(c, INITIAL, k, p, LeftPending);
    assert [] + [(k, p)] == [(k, p)];
  }

  lemma FirstAddPends(c: Config, k: Digest, p: Felt)
    ensures var s := Run(c, [AddOne(k, p, LeftPending)]);
      Good(c, s) && s.w.log == [] && s.w.pending == [Batch(Add, [(k, p)], RootsOf(c, [(k, p)]))]
      && Spaced(c, [AddOne(k, p, LeftPending)])
  {
    var a := AddOne(k, p, LeftPending);
    InitialGood(c);
    FirstAddSent(c, k, p);
    var w := SentPends(c, INITIAL, a);
    RunThen(c, [], a);
    assert [] + [a] == [a];
    OneSpaced(c, a);
    RunKeeps(c, [a]);
  }

  lemma OneSpaced(c: Config, a: Action)
    ensures Spaced(c, [a]) && Waits(c, [a])
  {
    assert [a][..0] == [];
  }

  /** A run in which both halves fail: one leaf's batch is left pending, another
      leaf's call returns from behind it. The published roots, and every later issuer
      that can read the checkpoint, know only the second leaf; the chain holds both. */
  lemma OverlapLoses(c: Config, k: Digest, p: Felt, k': Digest, p': Felt, g: Faults)
    requires k != k' && !g.scanFails && !g.loadFails
    ensures var w := Run(c, [AddOne(k, p, LeftPending)] + [AddOne(k', p', Mined(0, []))]).w;
      w.published == Some(RootsOf(c, [(k', p')])) && Current(w) != [(k', p')]
      && GetOrInit(w, NEW_INSTANCE, g).2.value.active != Current(w)
  {
    var first := [AddOne(k, p, LeftPending)];
    var call := AddOne(k', p', Mined(0, []));
    var s := Run(c, first);
    FirstAddPends(c, k, p);
    SendsOne(c, s, k', p', Mined(0, []));
    var b := SentBatch(c, s, call).value;
    OverlapRun(c, first, call, g);
    assert [] + [(k', p')] == [(k', p')];
    AppliedAdds([], b.leaves);
    assert Keys(s.w.pending[0].leaves)[0] == k && Keys(b.leaves)[0] == k';
  }
}
