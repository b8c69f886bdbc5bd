/** What one call to `add_issued` or `revoke` does with each listed credential:
    exactly when it goes through, and what every key maps to afterwards. */
module Calls {
  import opened Base
  import opened Dict
  import opened Events
  import opened Scan
  import opened IssuerSpec
  import opened IssuerRuns

  // ---- The revoke loop --------------------------------------------------------------------

  /** Every listed id resolves, is active, and is listed once. */
  ghost predicate Revocable(d: Leaves, ks: seq<Option<Digest>>) {
    && (forall i :: 0 <= i < |ks| ==> ks[i].Some? && Has(d, ks[i].value))
    && (forall i, j :: 0 <= i < j < |ks| ==> ks[i] != ks[j])
  }

  lemma {:induction false} RevokeLoopFrom(d: Leaves, batch: Leaves, ks: seq<Option<Digest>>)
    ensures var end := RevokeLoop(d, [], ks);
      RevokeLoop(d, batch, ks) == LoopEnd(end.active, batch + end.batch, end.raised)
    decreases |ks|
  {
    if ks != [] && ks[0].Some? && Has(d, ks[0].value) {
      var k := ks[0].value;
      var e := (k, Get(d, k).value);
      RevokeLoopFrom(Pop(d, k), batch + [e], ks[1..]);
      RevokeLoopFrom(Pop(d, k), [e], ks[1..]);
      var rest := RevokeLoop(Pop(d, k), [], ks[1..]).batch;
      assert (batch + [e]) + rest == batch + ([e] + rest);
      assert [] + [e] == [e];
    } else {
      assert batch + [] == batch;
    }
  }

  /** One id through the loop. */
  lemma RevokeLoopNext(d: Leaves, ks: seq<Option<Digest>>)
    requires ks != [] && ks[0].Some? && Has(d, ks[0].value)
    ensures var k := ks[0].value;
      var end, rest := RevokeLoop(d, [], ks), RevokeLoop(Pop(d, k), [], ks[1..]);
      end == LoopEnd(rest.active, [(k, Get(d, k).value)] + rest.batch, rest.raised)
  {
    var k := ks[0].value;
    var e := (k, Get(d, k).value);
    assert [] + [e] == [e];
    RevokeLoopFrom(Pop(d, k), [e], ks[1..]);
  }

  lemma PopHas(d: Leaves, k: Digest)
    requires NoDup(d)
    ensures NoDup(Pop(d, k)) && forall j :: Get(Pop(d, k), j) == if j == k then None else Get(d, j)
  {
    PopKeys(d, k);
    forall j ensures Get(Pop(d, k), j) == if j == k then None else Get(d, j) {
      GetPop(d, k, j);
    }
  }

  lemma RevocableNext(d: Leaves, ks: seq<Option<Digest>>)
    requires NoDup(d) && ks != [] && ks[0].Some? && Has(d, ks[0].value)
    ensures Revocable(d, ks) <==> Revocable(Pop(d, ks[0].value), ks[1..])
  {
    var d', rest := Pop(d, ks[0].value), ks[1..];
    PopHas(d, ks[0].value);
    if Revocable(d, ks) {
      forall i | 0 <= i < |rest| ensures rest[i].Some? && Has(d', rest[i].value) {
        assert rest[i] == ks[i + 1] && Get(d', rest[i].value) == Get(d, rest[i].value);
      }
      forall i, j | 0 <= i < j < |rest| ensures rest[i] != rest[j] {
        assert rest[i] == ks[i + 1] && rest[j] == ks[j + 1];
      }
    }
    if Revocable(d', rest) {
      forall i | 0 <= i < |ks| ensures ks[i].Some? && Has(d, ks[i].value) && (i > 0 ==> ks[i] != ks[0]) {
        if i > 0 {
          assert ks[i] == rest[i - 1];
          assert Get(d', ks[i].value).Some?;
        }
      }
      forall i, j | 0 <= i < j < |ks| ensures ks[i] != ks[j] {
        if i > 0 {
          assert ks[i] == rest[i - 1] && ks[j] == rest[j - 1];
        }
      }
    }
  }

  /** The loop raises unless every id resolves, is active and is listed once. */
  lemma {:induction false} RevokeLoopRaises(d: Leaves, ks: seq<Option<Digest>>)
    requires NoDup(d)
    ensures !RevokeLoop(d, [], ks).raised <==> Revocable(d, ks)
    decreases |ks|
  {
    if ks != [] {
      if ks[0].Some? && Has(d, ks[0].value) {
        RevokeLoopNext(d, ks);
        RevocableNext(d, ks);
        PopHas(d, ks[0].value);
        RevokeLoopRaises(Pop(d, ks[0].value), ks[1..]);
      } else {
        assert RevokeLoop(d, [], ks).raised;
      }
    }
  }

  /** The batch lists every id in order, with the value its key had. */
  lemma {:induction false} RevokeLoopBatch(d: Leaves, ks: seq<Option<Digest>>, i: nat)
    requires NoDup(d) && Revocable(d, ks) && i < |ks|
    ensures var batch := RevokeLoop(d, [], ks).batch;
      |batch| == |ks| && batch[i] == (ks[i].value, Get(d, ks[i].value).value)
    decreases |ks|
  {
    RevokeLoopNext(d, ks);
    RevocableNext(d, ks);
    PopHas(d, ks[0].value);
    if i > 0 {
      RevokeLoopBatch(Pop(d, ks[0].value), ks[1..], i - 1);
      assert ks[1..][i - 1] == ks[i] && ks[0] != ks[i];
    } else if |ks| > 1 {
      RevokeLoopBatch(Pop(d, ks[0].value), ks[1..], 0);
    }
  }

  /** At the end no listed key is active, and every other key keeps its value. */
  lemma {:induction false} RevokeLoopGet(d: Leaves, ks: seq<Option<Digest>>, k: Digest)
    requires NoDup(d) && Revocable(d, ks)
    ensures Get(RevokeLoop(d, [], ks).active, k) == if Some(k) in ks then None else Get(d, k)
    decreases |ks|
  {
    if ks != [] {
      RevokeLoopNext(d, ks);
      RevocableNext(d, ks);
      PopHas(d, ks[0].value);
      RevokeLoopGet(Pop(d, ks[0].value), ks[1..], k);
      assert ks == [ks[0]] + ks[1..];
    }
  }

  /** Both together: what the loop does, for every duplicate-free map and list of ids. */
  lemma RevokeLoopExact(d: Leaves, ks: seq<Option<Digest>>)
    requires NoDup(d)
    ensures var end := RevokeLoop(d, [], ks);
      && (!end.raised <==> Revocable(d, ks))
      && (!end.raised ==>
            && |end.batch| == |ks| && |end.active| == |d| - |ks|
            && (forall i :: 0 <= i < |ks| ==> end.batch[i] == (ks[i].value, Get(d, ks[i].value).value))
            && (forall k :: Get(end.active, k) == if Some(k) in ks then None else Get(d, k)))
  {
    var end := RevokeLoop(d, [], ks);
    RevokeLoopRaises(d, ks);
    if !end.raised {
      forall i | 0 <= i < |ks|
        ensures |end.batch| == |ks| && end.batch[i] == (ks[i].value, Get(d, ks[i].value).value)
      {
        RevokeLoopBatch(d, ks, i);
      }
      forall k ensures Get(end.active, k) == if Some(k) in ks then None else Get(d, k) {
        RevokeLoopGet(d, ks, k);
      }
      RevokeLoopSizes(d, ks);
    }
  }

  lemma {:induction false} RevokeLoopSizes(d: Leaves, ks: seq<Option<Digest>>)
    requires NoDup(d) && Revocable(d, ks)
    ensures var end := RevokeLoop(d, [], ks); |end.batch| == |ks| && |end.active| == |d| - |ks|
    decreases |ks|
  {
    if ks != [] {
      RevokeLoopNext(d, ks);
      RevocableNext(d, ks);
      PopHas(d, ks[0].value);
      PopShorter(d, ks[0].value);
      RevokeLoopSizes(Pop(d, ks[0].value), ks[1..]);
    }
  }

  lemma {:induction false} PopShorter(d: Leaves, k: Digest)
    requires Has(d, k)
    ensures |Pop(d, k)| == |d| - 1
  {
    if d[0].0 != k {
      PopShorter(d[1..], k);
    }
  }

  // ---- The add loop -------------------------------------------------------------------------

  /** The value of the first credential with this key. */
  function FirstValue(creds: seq<Cred>, k: Digest): Option<Felt> {
    if creds == [] then None
    else if creds[0].k == Some(k) then creds[0].p
    else FirstValue(creds[1..], k)
  }

  /** Where a key first occurs; the length where it does not. */
  function FirstIndex(creds: seq<Cred>, k: Digest): nat {
    if creds == [] || creds[0].k == Some(k) then 0 else 1 + FirstIndex(creds[1..], k)
  }

  /** Every key can be computed, and the other leaf of each new key at its first occurrence. */
  ghost predicate Addable(d: Leaves, creds: seq<Cred>) {
    forall i :: 0 <= i < |creds| ==>
      creds[i].k.Some? && (Has(d, creds[i].k.value) || FirstValue(creds, creds[i].k.value).Some?)
  }

  lemma {:induction false} AddLoopFrom(d: Leaves, batch: Leaves, creds: seq<Cred>)
    ensures var end := AddLoop(d, [], creds);
      AddLoop(d, batch, creds) == LoopEnd(end.active, batch + end.batch, end.raised)
    decreases |creds|
  {
    if creds != [] && creds[0].k.Some? && Has(d, creds[0].k.value) {
      AddLoopFrom(d, batch, creds[1..]);
    } else if creds != [] && creds[0].k.Some? && creds[0].p.Some? {
      var e := (creds[0].k.value, creds[0].p.value);
      var d' := Set(d, e.0, e.1);
      AddLoopFrom(d', batch + [e], creds[1..]);
      AddLoopFrom(d', [e], creds[1..]);
      var rest := AddLoop(d', [], creds[1..]).batch;
      assert (batch + [e]) + rest == batch + ([e] + rest);
      assert [] + [e] == [e];
    } else {
      assert batch + [] == batch;
    }
  }

  lemma AddLoopSkips(d: Leaves, creds: seq<Cred>)
    requires creds != [] && creds[0].k.Some? && Has(d, creds[0].k.value)
    ensures AddLoop(d, [], creds) == AddLoop(d, [], creds[1..])
  {
  }

  lemma AddLoopAppends(d: Leaves, creds: seq<Cred>)
    requires creds != [] && creds[0].k.Some? && !Has(d, creds[0].k.value) && creds[0].p.Some?
    ensures var e := (creds[0].k.value, creds[0].p.value);
      var end, rest := AddLoop(d, [], creds), AddLoop(Set(d, e.0, e.1), [], creds[1..]);
      end == LoopEnd(rest.active, [e] + rest.batch, rest.raised)
  {
    var e := (creds[0].k.value, creds[0].p.value);
    assert [] + [e] == [e];
    AddLoopFrom(Set(d, e.0, e.1), [e], creds[1..]);
  }

  lemma SetGets(d: Leaves, k: Digest, p: Felt)
    ensures forall j :: Get(Set(d, k, p), j) == if j == k then Some(p) else Get(d, j)
  {
    forall j ensures Get(Set(d, k, p), j) == if j == k then Some(p) else Get(d, j) {
      GetSet(d, k, p, j);
    }
  }

  /** The first credential's key is already there: what the rest needs is what all need. */
  lemma AddableSkips(d: Leaves, creds: seq<Cred>)
    requires creds != [] && creds[0].k.Some? && Has(d, creds[0].k.value)
    ensures Addable(d, creds) <==> Addable(d, creds[1..])
  {
    var rest := creds[1..];
    if Addable(d, creds) {
      forall i | 0 <= i < |rest|
        ensures rest[i].k.Some? && (Has(d, rest[i].k.value) || FirstValue(rest, rest[i].k.value).Some?)
      {
        assert rest[i] == creds[i + 1];
      }
    }
    if Addable(d, rest) {
      forall i | 0 <= i < |creds|
        ensures creds[i].k.Some? && (Has(d, creds[i].k.value) || FirstValue(creds, creds[i].k.value).Some?)
      {
        if i > 0 {
          assert creds[i] == rest[i - 1];
        }
      }
    }
  }

  lemma AddableAppends(d: Leaves, creds: seq<Cred>)
    requires creds != [] && creds[0].k.Some? && !Has(d, creds[0].k.value) && creds[0].p.Some?
    ensures Addable(d, creds) <==> Addable(Set(d, creds[0].k.value, creds[0].p.value), creds[1..])
  {
    var k, rest := creds[0].k.value, creds[1..];
    var d' := Set(d, k, creds[0].p.value);
    SetGets(d, k, creds[0].p.value);
    if Addable(d, creds) {
      forall i | 0 <= i < |rest|
        ensures rest[i].k.Some? && (Has(d', rest[i].k.value) || FirstValue(rest, rest[i].k.value).Some?)
      {
        assert rest[i] == creds[i + 1] && Get(d', rest[i].k.value) == Get(d', creds[i + 1].k.value);
      }
    }
    if Addable(d', rest) {
      forall i | 0 <= i < |creds|
        ensures creds[i].k.Some? && (Has(d, creds[i].k.value) || FirstValue(creds, creds[i].k.value).Some?)
      {
        if i > 0 {
          assert creds[i] == rest[i - 1] && Get(d', creds[i].k.value) == Get(d', rest[i - 1].k.value);
        }
      }
    }
  }

  /** The loop raises unless every key can be computed and every new one has its other leaf. */
  lemma {:induction false} AddLoopRaises(d: Leaves, creds: seq<Cred>)
    ensures !AddLoop(d, [], creds).raised <==> Addable(d, creds)
    decreases |creds|
  {
    if creds != [] {
      var cr := creds[0];
      if cr.k.None? {
        assert AddLoop(d, [], creds).raised && creds[0].k.None?;
      } else if Has(d, cr.k.value) {
        AddLoopSkips(d, creds);
        AddableSkips(d, creds);
        AddLoopRaises(d, creds[1..]);
      } else if cr.p.Some? {
        AddLoopAppends(d, creds);
        AddableAppends(d, creds);
        AddLoopRaises(Set(d, cr.k.value, cr.p.value), creds[1..]);
      } else {
        assert AddLoop(d, [], creds).raised && FirstValue(creds, creds[0].k.value).None?;
      }
    }
  }

  /** An active key keeps its value, a listed new one has that of its first credential. */
  lemma {:induction false} AddLoopGet(d: Leaves, creds: seq<Cred>, k: Digest)
    requires Addable(d, creds)
    ensures Get(AddLoop(d, [], creds).active, k) == if Has(d, k) then Get(d, k) else FirstValue(creds, k)
    decreases |creds|
  {
    if creds != [] {
      var cr := creds[0];
      assert cr.k.Some?;
      if Has(d, cr.k.value) {
        AddLoopSkips(d, creds);
        AddableSkips(d, creds);
        AddLoopGet(d, creds[1..], k);
      } else {
        var d' := Set(d, cr.k.value, cr.p.value);
        AddLoopAppends(d, creds);
        AddableAppends(d, creds);
        SetGets(d, cr.k.value, cr.p.value);
        AddLoopGet(d', creds[1..], k);
        assert Get(d', k) == if k == cr.k.value then cr.p else Get(d, k);
      }
    }
  }

  /** What the loop appends are keys the map does not have, in the order they are first listed. */
  ghost predicate InListedOrder(d: Leaves, batch: Leaves, creds: seq<Cred>) {
    && (forall i :: 0 <= i < |batch| ==> !Has(d, batch[i].0))
    && (forall i, j :: 0 <= i < j < |batch| ==> FirstIndex(creds, batch[i].0) < FirstIndex(creds, batch[j].0))
  }

  lemma OrderSkips(d: Leaves, batch: Leaves, creds: seq<Cred>)
    requires creds != [] && creds[0].k.Some? && Has(d, creds[0].k.value) && InListedOrder(d, batch, creds[1..])
    ensures InListedOrder(d, batch, creds)
  {
    forall i | 0 <= i < |batch| ensures FirstIndex(creds, batch[i].0) == 1 + FirstIndex(creds[1..], batch[i].0) {
      assert !Has(d, batch[i].0);
    }
  }

  lemma OrderAppends(d: Leaves, k: Digest, p: Felt, batch: Leaves, creds: seq<Cred>)
    requires creds != [] && creds[0].k == Some(k) && !Has(d, k) && InListedOrder(Set(d, k, p), batch, creds[1..])
    ensures InListedOrder(d, [(k, p)] + batch, creds)
  {
    var all := [(k, p)] + batch;
    SetGets(d, k, p);
    forall i | 0 <= i < |batch|
      ensures batch[i].0 != k && !Has(d, batch[i].0)
      ensures FirstIndex(creds, batch[i].0) == 1 + FirstIndex(creds[1..], batch[i].0)
    {
      assert !Has(Set(d, k, p), batch[i].0) && Get(Set(d, k, p), batch[i].0).None?;
    }
    forall i | 0 <= i < |all| ensures !Has(d, all[i].0) {
      assert i > 0 ==> all[i] == batch[i - 1];
    }
    forall i, j | 0 <= i < j < |all| ensures FirstIndex(creds, all[i].0) < FirstIndex(creds, all[j].0) {
      assert all[j] == batch[j - 1] && (i > 0 ==> all[i] == batch[i - 1]);
    }
  }

  lemma {:induction false} AddLoopOrder(d: Leaves, creds: seq<Cred>)
    ensures InListedOrder(d, AddLoop(d, [], creds).batch, creds)
    decreases |creds|
  {
    if creds != [] && creds[0].k.Some? {
      var k := creds[0].k.value;
      if Has(d, k) {
        AddLoopSkips(d, creds);
        AddLoopOrder(d, creds[1..]);
        OrderSkips(d, AddLoop(d, [], creds[1..]).batch, creds);
      } else if creds[0].p.Some? {
        var p := creds[0].p.value;
        AddLoopAppends(d, creds);
        AddLoopOrder(Set(d, k, p), creds[1..]);
        OrderAppends(d, k, p, AddLoop(Set(d, k, p), [], creds[1..]).batch, creds);
      }
    }
  }

  /** What the loop does, for every map and list of credentials: when it raises, what
      every key maps to, and that the new keys are appended in the order listed. */
  lemma AddLoopExact(d: Leaves, creds: seq<Cred>)
    ensures var end := AddLoop(d, [], creds);
      && (!end.raised <==> Addable(d, creds))
      && (!end.raised ==> forall k :: Get(end.active, k) == if Has(d, k) then Get(d, k) else FirstValue(creds, k))
      && end.active == d + end.batch && InListedOrder(d, end.batch, creds)
  {
    var end := AddLoop(d, [], creds);
    AddLoopRaises(d, creds);
    if !end.raised {
      forall k ensures Get(end.active, k) == if Has(d, k) then Get(d, k) else FirstValue(creds, k) {
        AddLoopGet(d, creds, k);
      }
    }
    var none: Leaves := [];
    AddLoopBatch(d, none, creds);
    assert end.batch[|none|..] == end.batch;
    AddLoopOrder(d, creds);
  }

  // ---- Whole calls ----------------------------------------------------------------------------

  /** The state is at hand, or the scan gives it. */
  predicate Loads(inst: Instance, f: Faults) {
    inst.cache.Some? || !f.scanFails
  }

  lemma SubmitMines(w: World, inst: Instance, st: IssuerState, b: Batch, f: Faults)
    requires MapOk(w) && w.pending == []
    ensures var (w', inst', out) := Submit(w, inst, st, b, f);
      && (out.Returned? <==> f.fate.Mined?)
      && Current(w') == if out.Returned? then Applied(Current(w), b.kind, b.leaves) else Current(w)
  {
    if f.fate.Mined? {
      MineKeepsMap(w, b, f.fate.gap);
    }
  }

  lemma RevokeBatchExact(c: Config, w: World, inst: Instance, st: IssuerState, ks: seq<Option<Digest>>, f: Faults)
    requires MapOk(w) && w.pending == [] && StateOk(w, st)
    ensures var (w', inst', out) := RevokeBatch(c, w, inst, st, ks, f);
      && (out.Returned? <==> Revocable(Current(w), ks) && |Current(w)| - |ks| <= Pow2(DEPTH) && f.fate.Mined?)
      && (out.Returned? ==>
            forall k :: Get(Current(w'), k) == if Some(k) in ks then None else Get(Current(w), k))
      && (out.Raised? ==> Current(w') == Current(w))
  {
    var end := RevokeLoop(st.active, [], ks);
    FoldKeys([], w.log);
    RevokeLoopExact(st.active, ks);
    RevokeLoopFolds(st.active, st.active, [], ks);
    SubmitMines(w, inst, st.(active := end.active), Batch(Events.Revoke, end.batch, RootsOf(c, end.active)), f);
  }

  /** `revoke` with nothing pending: it returns exactly when the state loads and every
      listed id resolves, is active and is listed once, at most 2^26 leaves stay, and
      the batch is mined. Then no listed key is active and every other key keeps its
      value; a call that raises changes nothing on chain. */
  lemma RevokeExact(c: Config, w: World, inst: Instance, ks: seq<Option<Digest>>, f: Faults)
    requires MapOk(w) && CacheOk(w, inst) && w.pending == []
    ensures var (w', inst', out) := IssuerSpec.Revoke(c, w, inst, ks, f);
      && (out.Returned? <==>
            ks == [] || (Loads(inst, f) && Revocable(Current(w), ks)
                         && |Current(w)| - |ks| <= Pow2(DEPTH) && f.fate.Mined?))
      && (out.Returned? ==>
            forall k :: Get(Current(w'), k) == if Some(k) in ks then None else Get(Current(w), k))
      && (out.Raised? ==> Current(w') == Current(w))
  {
    if ks != [] {
      GetOrInitKeeps(w, inst, f);
      var (w1, inst1, st) := GetOrInit(w, inst, f);
      assert Current(w1) == Current(w);
      if st.Some? {
        RevokeBatchExact(c, w1, inst1, st.value, ks, f);
      }
    }
  }

  /** The leaves a list of credentials adds to a map. */
  function NewLeaves(d: Leaves, creds: seq<Cred>): Leaves {
    AddLoop(d, [], creds).batch
  }

  lemma AddBatchExact(c: Config, w: World, inst: Instance, st: IssuerState, creds: seq<Cred>, f: Faults)
    requires MapOk(w) && w.pending == [] && StateOk(w, st)
    ensures var (w', inst', out) := AddBatch(c, w, inst, st, creds, f);
      var d := Current(w);
      && (out.Returned? <==>
            Addable(d, creds) && (NewLeaves(d, creds) == []
                                  || (|d| + |NewLeaves(d, creds)| <= Pow2(DEPTH) && f.fate.Mined?)))
      && (out.Returned? ==> forall k :: Get(Current(w'), k) == if Has(d, k) then Get(d, k) else FirstValue(creds, k))
      && (out.Raised? ==> Current(w') == d)
  {
    var end := AddLoop(st.active, [], creds);
    AddLoopExact(st.active, creds);
    AddLoopFolds(st.active, st.active, [], creds);
    if end.batch == [] {
      assert st.active + [] == st.active;
    }
    SubmitMines(w, inst, st.(active := end.active), Batch(Add, end.batch, RootsOf(c, end.active)), f);
  }

  lemma AddLoadedExact(c: Config, w: World, inst: Instance, st: IssuerState, creds: seq<Cred>, f: Faults)
    requires MapOk(w) && CacheOk(w, inst) && w.pending == [] && StateOk(w, st)
    ensures var (w2, inst2) := InitChain(w, inst, f);
      var (w', inst', out) := AddBatch(c, w2, inst2, st, creds, f);
      var d := Current(w);
      && (out.Returned? <==>
            Addable(d, creds) && (NewLeaves(d, creds) == []
                                  || (|d| + |NewLeaves(d, creds)| <= Pow2(DEPTH) && f.fate.Mined?)))
      && (out.Returned? ==> forall k :: Get(Current(w'), k) == if Has(d, k) then Get(d, k) else FirstValue(creds, k))
      && (out.Raised? ==> Current(w') == d)
  {
    InitChainKeeps(c, w, inst, st, f);
    var (w2, inst2) := InitChain(w, inst, f);
    assert Current(w2) == Current(w);
    AddBatchExact(c, w2, inst2, st, creds, f);
  }

  /** `add_issued` with nothing pending: it returns exactly when the state loads, every
      listed leaf it needs can be computed, and either nothing listed is new or the new
      leaves fit the tree and the batch is mined. Then every listed key is active, with
      the value it had or that of its first credential, and every other key keeps its
      value. A call that raises changes nothing on chain. */
  lemma AddExact(c: Config, w: World, inst: Instance, creds: seq<Cred>, f: Faults)
    requires MapOk(w) && CacheOk(w, inst) && w.pending == []
    ensures var (w', inst', out) := AddIssued(c, w, inst, creds, f);
      var d := Current(w);
      && (out.Returned? <==>
            creds == [] || (Loads(inst, f) && Addable(d, creds)
                            && (NewLeaves(d, creds) == []
                                || (|d| + |NewLeaves(d, creds)| <= Pow2(DEPTH) && f.fate.Mined?))))
      && (out.Returned? ==> forall k :: Get(Current(w'), k) == if Has(d, k) then Get(d, k) else FirstValue(creds, k))
      && (out.Raised? ==> Current(w') == d)
  {
    if creds != [] {
      GetOrInitKeeps(w, inst, f);
      var (w1, inst1, st) := GetOrInit(w, inst, f);
      assert Current(w1) == Current(w);
      if st.Some? {
        AddLoadedExact(c, w1, inst1, st.value, creds, f);
      }
    }
  }

  // ---- What a returned call leaves behind -------------------------------------------------------

  /** One later block with the leaves' events in array order, a receipt naming it and,
      unless the save was lost, a checkpoint with that block as its watermark. */
  predicate MinedAs(w: World, w': World, out: Outcome, kind: Kind, leaves: Leaves, lost: bool) {
    && out == Returned(Some(w'.tip)) && w'.tip > w.tip
    && |w'.log| == |w.log| + |leaves| && w'.log[..|w.log|] == w.log
    && (forall i :: 0 <= i < |leaves| ==>
          w'.log[|w.log| + i] == Event(w'.tip, i, kind, leaves[i].0, leaves[i].1))
    && (!lost ==> w'.record.Some? && w'.record.value.lastSyncedBlock == w'.tip)
  }

  lemma SubmitLeaves(w: World, inst: Instance, st: IssuerState, b: Batch, f: Faults)
    requires w.pending == [] && st.lastSyncedBlock <= w.tip && f.fate.Mined?
    ensures var (w', inst', out) := Submit(w, inst, st, b, f); MinedAs(w, w', out, b.kind, b.leaves, f.lastSaveLost)
  {
    var (w', inst', out) := Submit(w, inst, st, b, f);
    assert w'.log == w.log + BatchEvents(w'.tip, b.kind, b.leaves);
  }

  /** The listed keys with the values they have. */
  function Listed(d: Leaves, ks: seq<Option<Digest>>): (r: Leaves)
    requires Revocable(d, ks)
    ensures |r| == |ks|
  {
    seq(|ks|, i requires 0 <= i < |ks| => (ks[i].value, Get(d, ks[i].value).value))
  }

  lemma RevokeBatchLeaves(c: Config, w: World, inst: Instance, st: IssuerState, ks: seq<Option<Digest>>, f: Faults)
    requires MapOk(w) && w.pending == [] && StateOk(w, st)
    ensures var (w', inst', out) := RevokeBatch(c, w, inst, st, ks, f);
      out.Returned? ==>
        Revocable(Current(w), ks) && MinedAs(w, w', out, Events.Revoke, Listed(Current(w), ks), f.lastSaveLost)
  {
    var end := RevokeLoop(st.active, [], ks);
    FoldKeys([], w.log);
    RevokeLoopExact(st.active, ks);
    if !end.raised {
      assert end.batch == Listed(st.active, ks);
      if f.fate.Mined? {
        SubmitLeaves(w, inst, st.(active := end.active), Batch(Events.Revoke, end.batch, RootsOf(c, end.active)), f);
      }
    }
  }

  /** A `revoke` that returns has mined one revocation per listed id, in the order
      listed, each with the value its key had. */
  lemma RevokeMines(c: Config, w: World, inst: Instance, ks: seq<Option<Digest>>, f: Faults)
    requires MapOk(w) && CacheOk(w, inst) && w.pending == [] && ks != []
    ensures var (w', inst', out) := IssuerSpec.Revoke(c, w, inst, ks, f);
      && inst'.chainInitialized == inst.chainInitialized
      && (out.Returned? ==>
            Revocable(Current(w), ks) && MinedAs(w, w', out, Events.Revoke, Listed(Current(w), ks), f.lastSaveLost))
  {
    GetOrInitKeeps(w, inst, f);
    var (w1, inst1, st) := GetOrInit(w, inst, f);
    assert Current(w1) == Current(w);
    if st.Some? {
      RevokeBatchLeaves(c, w1, inst1, st.value, ks, f);
    }
  }

  /** What a returned `add_issued` has done: nothing new, or its new leaves mined. */
  predicate AddedAs(w: World, w': World, out: Outcome, leaves: Leaves, lost: bool) {
    if leaves == [] then out == Returned(None) && w'.log == w.log else MinedAs(w, w', out, Add, leaves, lost)
  }

  lemma LaterTip(w: World, gap: nat, w': World, out: Outcome, leaves: Leaves, lost: bool)
    requires AddedAs(w.(tip := w.tip + gap), w', out, leaves, lost)
    ensures AddedAs(w, w', out, leaves, lost)
  {
  }

  /** The result r of an `add_issued` entered in w with `inst`, which reached the
      initialisation of the credDef or not. */
  ghost predicate AddLeft(w: World, inst: Instance, leaves: Leaves, reached: bool, f: Faults,
                          r: (World, Instance, Outcome))
  {
    && (r.1.chainInitialized <==> inst.chainInitialized || (reached && !f.initFails))
    && (r.2.Returned? ==> AddedAs(w, r.0, r.2, leaves, f.lastSaveLost))
  }

  lemma AddBatchLeaves(c: Config, w: World, inst: Instance, st: IssuerState, creds: seq<Cred>, f: Faults)
    requires MapOk(w) && w.pending == [] && StateOk(w, st)
    ensures AddLeft(w, inst, NewLeaves(Current(w), creds), false, f, AddBatch(c, w, inst, st, creds, f))
  {
    var end := AddLoop(st.active, [], creds);
    if f.fate.Mined? {
      SubmitLeaves(w, inst, st.(active := end.active), Batch(Add, end.batch, RootsOf(c, end.active)), f);
    }
  }

  /** The result after the chain was initialised, from the result of the rest. */
  lemma InitLeft(w: World, inst: Instance, leaves: Leaves, f: Faults, r: (World, Instance, Outcome))
    requires AddLeft(InitChain(w, inst, f).0, InitChain(w, inst, f).1, leaves, false, f, r)
    ensures AddLeft(w, inst, leaves, true, f, r)
  {
    if r.2.Returned? && !inst.chainInitialized {
      LaterTip(w, f.initGap, r.0, r.2, leaves, f.lastSaveLost);
    }
  }

  lemma AddLoadedLeaves(c: Config, w: World, inst: Instance, st: IssuerState, creds: seq<Cred>, f: Faults)
    requires MapOk(w) && CacheOk(w, inst) && w.pending == [] && StateOk(w, st)
    ensures var (w2, inst2) := InitChain(w, inst, f);
      AddLeft(w, inst, NewLeaves(Current(w), creds), true, f, AddBatch(c, w2, inst2, st, creds, f))
  {
    InitChainKeeps(c, w, inst, st, f);
    var (w2, inst2) := InitChain(w, inst, f);
    assert Current(w2) == Current(w);
    AddBatchLeaves(c, w2, inst2, st, creds, f);
    InitLeft(w, inst, NewLeaves(Current(w), creds), f, AddBatch(c, w2, inst2, st, creds, f));
  }

  /** Loading the state changes neither the log nor the mark. */
  lemma LoadLeft(w: World, inst: Instance, w1: World, inst1: Instance, leaves: Leaves, f: Faults,
                 r: (World, Instance, Outcome))
    requires w1 == w.(record := w1.record) && inst1.chainInitialized == inst.chainInitialized
    requires AddLeft(w1, inst1, leaves, true, f, r)
    ensures AddLeft(w, inst, leaves, true, f, r)
  {
  }

  /** An `add_issued` that returns has mined one addition per new leaf, in the order
      listed, or had nothing new and says so with None. The credDef is marked as
      initialised after the call exactly when it was or the call got as far as
      initialising it without failing. */
  lemma AddMines(c: Config, w: World, inst: Instance, creds: seq<Cred>, f: Faults)
    requires MapOk(w) && CacheOk(w, inst) && w.pending == [] && creds != []
    ensures AddLeft(w, inst, NewLeaves(Current(w), creds), Loads(inst, f), f, AddIssued(c, w, inst, creds, f))
  {
    GetOrInitKeeps(w, inst, f);
    var (w1, inst1, st) := GetOrInit(w, inst, f);
    assert Current(w1) == Current(w);
    if st.Some? {
      var (w2, inst2) := InitChain(w1, inst1, f);
      AddLoadedLeaves(c, w1, inst1, st.value, creds, f);
      LoadLeft(w, inst, w1, inst1, NewLeaves(Current(w), creds), f, AddBatch(c, w2, inst2, st.value, creds, f));
    }
  }
}
