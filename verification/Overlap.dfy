/** Two batches computed over one map, one mined before the other: exactly when the
    first changes what the second leads to, and what a saved checkpoint then recovers. */
module Overlap {
  import opened Base
  import opened Dict
  import opened Events
  import opened Scan
  import opened IssuerSpec
  import opened IssuerRuns

  // ---- Two batches computed over one map -------------------------------------------------

  lemma AppliedNoDup(d: Leaves, kind: Kind, leaves: Leaves)
    requires NoDup(d)
    ensures NoDup(Applied(d, kind, leaves))
  {
    FoldKeys(d, BatchEvents(0, kind, leaves));
  }

  predicate HasKey(leaves: Leaves, k: Digest) {
    k in Keys(leaves)
  }

  lemma {:induction false} AppliedHas(d: Leaves, kind: Kind, leaves: Leaves, k: Digest)
    requires NoDup(d)
    ensures Has(Applied(d, kind, leaves), k) <==>
      if kind.Add? then Has(d, k) || HasKey(leaves, k) else Has(d, k) && !HasKey(leaves, k)
    decreases |leaves|
  {
    if leaves != [] {
      var init, e := leaves[..|leaves| - 1], leaves[|leaves| - 1];
      assert leaves == init + [e];
      assert Keys(leaves) == Keys(init) + [e.0];
      AppliedHas(d, kind, init, k);
      AppliedExtends(d, kind, init, e);
      AppliedNoDup(d, kind, init);
      if kind.Add? {
        GetSet(Applied(d, kind, init), e.0, e.1, k);
      } else {
        GetPop(Applied(d, kind, init), e.0, k);
      }
    }
  }

  lemma FitsHas(d: Leaves, kind: Kind, leaves: Leaves, k: Digest)
    requires Fits(d, kind, leaves) && HasKey(leaves, k)
    ensures Has(d, k) <==> kind.Revoke?
  {
    var i :| 0 <= i < |leaves| && leaves[i].0 == k;
    assert leaves[i] in leaves;
  }

  // ---- Adds over adds ------------------------------------------------------------------------

  lemma {:induction false} SetAt(d: Leaves, i: nat, v: Felt)
    requires NoDup(d) && i < |d|
    ensures Set(d, d[i].0, v) == d[i := (d[i].0, v)]
  {
    if i > 0 {
      SetAt(d[1..], i - 1, v);
      assert d[i := (d[i].0, v)] == [d[0]] + d[1..][i - 1 := (d[i].0, v)];
    }
  }

  /** The map after a, then the first j adds of b: b's entries so far, what a had
      beyond them. */
  function Overlaid(d: Leaves, a: Leaves, b: Leaves, j: nat): Leaves
    requires j <= |b|
  {
    d + b[..j] + if j < |a| then a[j..] else []
  }

  lemma OverlaidStep(d: Leaves, a: Leaves, b: Leaves, j: nat)
    requires j < |b| && NoDup(Overlaid(d, a, b, j)) && NoDup(b) && Fits(d, Add, b)
    requires j < |a| ==> a[j].0 == b[j].0
    ensures Set(Overlaid(d, a, b, j), b[j].0, b[j].1) == Overlaid(d, a, b, j + 1)
  {
    var x, i := Overlaid(d, a, b, j), |d| + j;
    if j < |a| {
      assert x[i] == a[j];
      SetAt(x, i, b[j].1);
      assert x[i := b[j]] == Overlaid(d, a, b, j + 1);
    } else {
      assert x == d + b[..j] && b[j] in b;
      HasIndex(x, b[j].0);
      HasIndex(d, b[j].0);
      SetNew(x, b[j].0, b[j].1);
    }
  }

  lemma {:induction false} OverlaidFold(d: Leaves, a: Leaves, b: Leaves, j: nat)
    requires j <= |b| && NoDup(d + a) && Fits(d, Add, b)
    requires |a| <= |b| && forall i :: 0 <= i < |a| ==> a[i].0 == b[i].0
    ensures Applied(d + a, Add, b[..j]) == Overlaid(d, a, b, j)
  {
    if j == 0 {
      assert Overlaid(d, a, b, 0) == d + a;
    } else {
      OverlaidFold(d, a, b, j - 1);
      assert b[..j] == b[..j - 1] + [b[j - 1]];
      AppliedExtends(d + a, Add, b[..j - 1], b[j - 1]);
      AppliedNoDup(d + a, Add, b[..j - 1]);
      OverlaidStep(d, a, b, j - 1);
    }
  }

  lemma {:induction false} AppliedAdds(d: Leaves, b: Leaves)
    requires NoDup(d) && Fits(d, Add, b)
    ensures Applied(d, Add, b) == d + b
  {
    assert d + [] == d && b[..|b|] == b;
    OverlaidFold(d, [], b, |b|);
  }

  lemma AddsOverAdds(d: Leaves, a: Leaves, b: Leaves)
    requires NoDup(d) && Fits(d, Add, a) && Fits(d, Add, b)
    ensures Applied(Applied(d, Add, a), Add, b) == Applied(d, Add, b) <==> Keys(a) <= Keys(b)
  {
    AppliedAdds(d, a);
    AppliedAdds(d, b);
    AppliedNoDup(d, Add, a);
    if Keys(a) <= Keys(b) {
      assert b[..|b|] == b;
      assert forall i :: 0 <= i < |a| ==> a[i].0 == Keys(a)[i] == Keys(b)[i] == b[i].0;
      OverlaidFold(d, a, b, |b|);
    } else if Applied(d + a, Add, b) == d + b {
      KeysStay(d + a, BatchEvents(0, Add, b));
      forall i | 0 <= i < |a| ensures |a| <= |b| && Keys(a)[i] == Keys(b)[i] {
        assert (d + a)[|d| + i].0 == (d + b)[|d| + i].0;
      }
      assert false;
    }
  }

  // ---- Revokes over revokes ----------------------------------------------------------------

  /** A map without some keys. */
  function Without(d: Leaves, ks: seq<Digest>): Leaves {
    if d == [] then []
    else if d[0].0 in ks then Without(d[1..], ks)
    else [d[0]] + Without(d[1..], ks)
  }

  lemma {:induction false} WithoutHas(d: Leaves, ks: seq<Digest>, k: Digest)
    ensures Has(Without(d, ks), k) <==> Has(d, k) && k !in ks
  {
    if d != [] {
      WithoutHas(d[1..], ks, k);
      assert d[0].0 !in ks ==> Without(d, ks)[1..] == Without(d[1..], ks);
    }
  }

  lemma {:induction false} PopWithout(d: Leaves, ks: seq<Digest>, k: Digest)
    requires NoDup(d)
    ensures Pop(Without(d, ks), k) == Without(d, ks + [k])
  {
    if d != [] {
      PopWithout(d[1..], ks, k);
      if d[0].0 == k {
        HasIndex(d[1..], k);
        WithoutHas(d[1..], ks, k);
        PopAbsent(Without(d[1..], ks), k);
      } else if d[0].0 !in ks {
        assert Without(d, ks)[1..] == Without(d[1..], ks);
      }
    }
  }

  lemma {:induction false} WithoutNone(d: Leaves)
    ensures Without(d, []) == d
  {
    if d != [] {
      WithoutNone(d[1..]);
    }
  }

  lemma {:induction false} AppliedRevokes(d: Leaves, b: Leaves)
    requires NoDup(d)
    ensures Applied(d, Revoke, b) == Without(d, Keys(b))
    decreases |b|
  {
    if b == [] {
      assert Keys(b) == [];
      WithoutNone(d);
    } else {
      var init, e := b[..|b| - 1], b[|b| - 1];
      assert b == init + [e] && Keys(b) == Keys(init) + [e.0];
      AppliedRevokes(d, init);
      AppliedExtends(d, Revoke, init, e);
      PopWithout(d, Keys(init), e.0);
    }
  }

  lemma {:induction false} WithoutTwice(d: Leaves, ks: seq<Digest>, js: seq<Digest>)
    requires forall k :: k in ks ==> k in js
    ensures Without(Without(d, ks), js) == Without(d, js)
  {
    if d != [] {
      WithoutTwice(d[1..], ks, js);
      if d[0].0 !in ks {
        assert Without(d, ks)[1..] == Without(d[1..], ks);
      }
    }
  }

  /** What b takes from a map is all that two revokes take, exactly when a's keys are among b's. */
  lemma RevokesOver(d: Leaves, a: Leaves, b: Leaves)
    requires NoDup(d) && forall k :: k in Keys(a) ==> Has(d, k)
    ensures Applied(Applied(d, Revoke, a), Revoke, b) == Applied(d, Revoke, b)
      <==> forall k :: k in Keys(a) ==> k in Keys(b)
  {
    AppliedNoDup(d, Revoke, a);
    AppliedRevokes(d, a);
    AppliedRevokes(d, b);
    AppliedRevokes(Applied(d, Revoke, a), b);
    if forall k :: k in Keys(a) ==> k in Keys(b) {
      WithoutTwice(d, Keys(a), Keys(b));
    } else {
      var k :| k in Keys(a) && k !in Keys(b);
      AppliedHas(d, Revoke, a, k);
      AppliedHas(d, Revoke, b, k);
      AppliedHas(Applied(d, Revoke, a), Revoke, b, k);
    }
  }

  lemma RevokesOverRevokes(d: Leaves, a: Leaves, b: Leaves)
    requires NoDup(d) && Fits(d, Revoke, a) && Fits(d, Revoke, b)
    ensures Applied(Applied(d, Revoke, a), Revoke, b) == Applied(d, Revoke, b)
      <==> forall k :: k in Keys(a) ==> k in Keys(b)
  {
    forall k | k in Keys(a) ensures Has(d, k) {
      FitsHas(d, Revoke, a, k);
    }
    RevokesOver(d, a, b);
  }

  // ---- The exact condition -------------------------------------------------------------------

  /** A later batch repeats an earlier one: the same adds first, or all its revokes. */
  predicate Covers(a: Batch, b: Batch) {
    a.kind == b.kind
    && if a.kind.Add? then Keys(a.leaves) <= Keys(b.leaves)
       else forall k :: k in Keys(a.leaves) ==> k in Keys(b.leaves)
  }

  // ---- Recovery after an overlap ----------------------------------------------------------

  lemma {:induction false} SinceConcat(es: seq<Event>, more: seq<Event>, b: nat)
    requires AllUpTo(es, b - 1) && forall e :: e in more ==> e.block >= b
    ensures Since(es + more, b) == more
    decreases |more|
  {
    if more == [] {
      assert es + more == es;
      NoneAt(es, b);
    } else {
      var init, e := more[..|more| - 1], more[|more| - 1];
      assert e in more && more == init + [e];
      SinceConcat(es, init, b);
      SinceAppend(es + init, e, b);
      assert es + more == (es + init) + [e];
    }
  }

  lemma BatchNeverReAdds(block: nat, kind: Kind, leaves: Leaves)
    ensures NeverReAdded(BatchEvents(block, kind, leaves))
  {
  }

  /** Events from the watermark's own block, replayed over a state that has them. */
  lemma BatchTwice(active: Leaves, log: seq<Event>, block: nat, kind: Kind, leaves: Leaves)
    requires NoDup(active) && AllUpTo(log, block - 1)
    ensures var done := Applied(active, kind, leaves);
      Fold(done, Since(log + BatchEvents(block, kind, leaves), block)) == done
  {
    var more := BatchEvents(block, kind, leaves);
    SinceConcat(log, more, block);
    AppliedAt(active, block, kind, leaves);
    BatchNeverReAdds(block, kind, leaves);
    FoldTwiceSameOrder(active, more);
  }

  /** A fresh issuer replays the saved state from its watermark. */
  lemma LoadsSaved(w: World, st: IssuerState, g: Faults)
    requires NoDup(st.active) && !g.loadFails && !g.scanFails
    ensures var found := GetOrInit(Saved(w, st, false), NEW_INSTANCE, g).2;
      found.Some? && found.value.active == Fold(st.active, Since(w.log, st.lastSyncedBlock))
  {
    CheckpointRoundTrip(st);
  }

  lemma ReplayKeeps(w: World, b: Batch, gap: nat, active: Leaves, st: IssuerState)
    requires AllUpTo(w.log, w.tip) && NoDup(active)
    requires st.active == Applied(active, b.kind, b.leaves) && st.lastSyncedBlock == w.tip + 1 + gap
    ensures Fold(st.active, Since(MineBatch(w, b, gap).log, st.lastSyncedBlock)) == st.active
  {
    BatchTwice(active, w.log, st.lastSyncedBlock, b.kind, b.leaves);
  }

  /** The map a fresh issuer reads back when the last batch's checkpoint was saved:
      the one that batch was computed to lead to. */
  lemma SavedOverlap(w: World, b: Batch, gap: nat, active: Leaves, st: IssuerState, g: Faults)
    requires AllUpTo(w.log, w.tip) && NoDup(active) && !g.loadFails && !g.scanFails
    requires st.active == Applied(active, b.kind, b.leaves) && st.lastSyncedBlock == w.tip + 1 + gap
    ensures GetOrInit(Saved(MineBatch(w, b, gap), st, false), NEW_INSTANCE, g).2.value.active == st.active
  {
    AppliedNoDup(active, b.kind, b.leaves);
    ReplayKeeps(w, b, gap, active, st);
    LoadsSaved(MineBatch(w, b, gap), st, g);
  }

  // ---- Calls that send a batch ---------------------------------------------------------------------

  /** The batch a call computes and sends, if it gets that far. */
  function SentBatch(c: Config, s: System, a: Action): Option<Batch> {
    match a
    case DoAdd(creds, f) =>
      var st := GetOrInit(s.w, s.inst, f).2;
      if creds == [] || st.None? then None
      else
        var end := AddLoop(st.value.active, [], creds);
        if end.raised || end.batch == [] || |end.active| > Pow2(DEPTH) then None
        else Some(Batch(Add, end.batch, RootsOf(c, end.active)))
    case DoRevoke(ks, f) =>
      var st := GetOrInit(s.w, s.inst, f).2;
      if ks == [] || st.None? then None
      else
        var end := RevokeLoop(st.value.active, [], ks);
        if end.raised || |end.active| > Pow2(DEPTH) then None
        else Some(Batch(Revoke, end.batch, RootsOf(c, end.active)))
    case _ => None
  }

  lemma AddSubmits(c: Config, w: World, inst: Instance, st: IssuerState, creds: seq<Cred>, f: Faults)
    requires MapOk(w) && StateOk(w, st)
    requires var end := AddLoop(st.active, [], creds);
      !end.raised && end.batch != [] && |end.active| <= Pow2(DEPTH)
    ensures var end := AddLoop(st.active, [], creds);
      var b := Batch(Add, end.batch, RootsOf(c, end.active));
      end.active == Applied(Current(w), Add, end.batch) && BatchOk(c, Current(w), b)
      && AddBatch(c, w, inst, st, creds, f) == Submit(w, inst, st.(active := end.active), b, f)
  {
    FoldKeys([], w.log);
    AddLoopFolds(st.active, st.active, [], creds);
    AddLoopFits(st.active, creds);
  }

  lemma RevokeSubmits(c: Config, w: World, inst: Instance, st: IssuerState, ks: seq<Option<Digest>>, f: Faults)
    requires MapOk(w) && StateOk(w, st) && ks != []
    requires var end := RevokeLoop(st.active, [], ks); !end.raised && |end.active| <= Pow2(DEPTH)
    ensures var end := RevokeLoop(st.active, [], ks);
      var b := Batch(Revoke, end.batch, RootsOf(c, end.active));
      end.active == Applied(Current(w), Revoke, end.batch) && BatchOk(c, Current(w), b)
      && RevokeBatch(c, w, inst, st, ks, f) == Submit(w, inst, st.(active := end.active), b, f)
  {
    FoldKeys([], w.log);
    RevokeLoopFolds(st.active, st.active, [], ks);
    RevokeLoopNonempty(st.active, ks);
    RevokeLoopFits(st.active, st.active, [], ks);
  }

  lemma AddCallSubmits(c: Config, s: System, a: Action) returns (w: World, inst: Instance, st: IssuerState)
    requires MapOk(s.w) && CacheOk(s.w, s.inst) && a.DoAdd? && SentBatch(c, s, a).Some?
    ensures var b := SentBatch(c, s, a).value;
      MapOk(w) && (Inv(c, s.w) ==> Inv(c, w)) && w.log == s.w.log && w.pending == s.w.pending
      && BatchOk(c, Current(w), b)
      && st.active == Applied(Current(w), b.kind, b.leaves) && st.lastSyncedBlock <= w.tip
      && Next(c, s, a) == Settle(Submit(w, inst, st, b, a.f))
  {
    GetOrInitKeeps(s.w, s.inst, a.f);
    var (w1, inst1, st1) := GetOrInit(s.w, s.inst, a.f);
    RecordOnly(c, s.w, w1);
    InitChainKeeps(c, w1, inst1, st1.value, a.f);
    var (w2, inst2) := InitChain(w1, inst1, a.f);
    w, inst := w2, inst2;
    st := st1.value.(active := AddLoop(st1.value.active, [], a.creds).active);
    AddSubmits(c, w, inst, st1.value, a.creds, a.f);
  }

  /** A call that sends a batch is a submission over the current map. */
  lemma CallSubmits(c: Config, s: System, a: Action) returns (w: World, inst: Instance, st: IssuerState)
    requires MapOk(s.w) && CacheOk(s.w, s.inst) && SentBatch(c, s, a).Some?
    ensures var b := SentBatch(c, s, a).value;
      MapOk(w) && (Inv(c, s.w) ==> Inv(c, w)) && w.log == s.w.log && w.pending == s.w.pending
      && BatchOk(c, Current(w), b)
      && st.active == Applied(Current(w), b.kind, b.leaves) && st.lastSyncedBlock <= w.tip
      && Next(c, s, a) == Settle(Submit(w, inst, st, b, a.f))
  {
    if a.DoAdd? {
      w, inst, st := AddCallSubmits(c, s, a);
    } else {
      GetOrInitKeeps(s.w, s.inst, a.f);
      var (w1, inst1, st1) := GetOrInit(s.w, s.inst, a.f);
      RecordOnly(c, s.w, w1);
      w, inst := w1, inst1;
      st := st1.value.(active := RevokeLoop(st1.value.active, [], a.ks).active);
      RevokeSubmits(c, w, inst, st1.value, a.ks, a.f);
    }
  }

  lemma RunThen(c: Config, actions: seq<Action>, a: Action)
    ensures Run(c, actions + [a]) == Next(c, Run(c, actions), a)
  {
    assert (actions + [a])[..|actions|] == actions;
  }
}
