/** Exactly which blocks keep the insertion order when they are replayed twice. */
module Reorder {
  import opened Base
  import opened Dict
  import opened Events

  /** The keys some event revokes. */
  function Revoked(es: seq<Event>): set<Digest> {
    set e | e in es && e.kind.Revoke? :: e.k
  }

  /** The entries whose keys are in ks, or those whose keys are not. */
  function Part(d: Leaves, ks: set<Digest>, inside: bool): Leaves {
    if d == [] then []
    else if (d[0].0 in ks) == inside then [d[0]] + Part(d[1..], ks, inside)
    else Part(d[1..], ks, inside)
  }

  function PartOf(es: seq<Event>, ks: set<Digest>, inside: bool): seq<Event> {
    if es == [] then []
    else
      var n := |es| - 1;
      PartOf(es[..n], ks, inside) + if (es[n].k in ks) == inside then [es[n]] else []
  }

  // ---- Parts of a replay -------------------------------------------------------------------

  lemma {:induction false} PartHas(d: Leaves, ks: set<Digest>, inside: bool, k: Digest)
    ensures Has(Part(d, ks, inside), k) <==> Has(d, k) && (k in ks) == inside
  {
    if d != [] {
      PartHas(d[1..], ks, inside, k);
      if (d[0].0 in ks) == inside {
        assert Part(d, ks, inside)[1..] == Part(d[1..], ks, inside);
      }
    }
  }

  lemma {:induction false} PartNoDup(d: Leaves, ks: set<Digest>, inside: bool)
    requires NoDup(d)
    ensures NoDup(Part(d, ks, inside))
  {
    if d != [] {
      var rest := Part(d[1..], ks, inside);
      PartNoDup(d[1..], ks, inside);
      PartHas(d[1..], ks, inside, d[0].0);
      HasIndex(d[1..], d[0].0);
      HasIndex(rest, d[0].0);
    }
  }

  lemma {:induction false} PartSet(d: Leaves, k: Digest, p: Felt, ks: set<Digest>, inside: bool)
    ensures Part(Set(d, k, p), ks, inside)
      == if (k in ks) == inside then Set(Part(d, ks, inside), k, p) else Part(d, ks, inside)
  {
    if d == [] {
      assert Set(d, k, p) == [(k, p)] && [(k, p)][1..] == [];
    } else if d[0].0 == k {
      assert Set(d, k, p)[1..] == d[1..];
      if (k in ks) == inside {
        assert Part(d, ks, inside)[1..] == Part(d[1..], ks, inside);
      }
    } else {
      PartSet(d[1..], k, p, ks, inside);
      assert Set(d, k, p)[1..] == Set(d[1..], k, p);
      if (d[0].0 in ks) == inside {
        assert Part(d, ks, inside)[1..] == Part(d[1..], ks, inside);
      }
    }
  }

  lemma {:induction false} PartPop(d: Leaves, k: Digest, ks: set<Digest>, inside: bool)
    requires NoDup(d)
    ensures Part(Pop(d, k), ks, inside)
      == if (k in ks) == inside then Pop(Part(d, ks, inside), k) else Part(d, ks, inside)
  {
    if d != [] {
      if d[0].0 == k {
        if (k in ks) == inside {
          assert Part(d, ks, inside)[1..] == Part(d[1..], ks, inside);
        }
      } else {
        PartPop(d[1..], k, ks, inside);
        assert Pop(d, k)[1..] == Pop(d[1..], k);
        if (d[0].0 in ks) == inside {
          assert Part(d, ks, inside)[1..] == Part(d[1..], ks, inside);
        }
      }
    }
  }

  lemma PartStep(d: Leaves, e: Event, ks: set<Digest>, inside: bool)
    requires NoDup(d)
    ensures Part(Step(d, e), ks, inside)
      == if (e.k in ks) == inside then Step(Part(d, ks, inside), e) else Part(d, ks, inside)
  {
    PartSet(d, e.k, e.p, ks, inside);
    PartPop(d, e.k, ks, inside);
  }

  lemma FoldThen(d: Leaves, es: seq<Event>, e: Event)
    ensures Fold(d, es + [e]) == Step(Fold(d, es), e)
  {
    assert (es + [e])[..|es|] == es;
  }

  /** A part of a replay is the replay of that part. */
  lemma {:induction false} PartFold(d: Leaves, es: seq<Event>, ks: set<Digest>, inside: bool)
    requires NoDup(d)
    ensures Part(Fold(d, es), ks, inside) == Fold(Part(d, ks, inside), PartOf(es, ks, inside))
  {
    if es != [] {
      var init, e := es[..|es| - 1], es[|es| - 1];
      PartFold(d, init, ks, inside);
      FoldKeys(d, init);
      PartStep(Fold(d, init), e, ks, inside);
      if (e.k in ks) == inside {
        FoldThen(Part(d, ks, inside), PartOf(init, ks, inside), e);
      } else {
        assert PartOf(es, ks, inside) == PartOf(init, ks, inside);
      }
    }
  }

  lemma {:induction false} PartOfMembers(es: seq<Event>, ks: set<Digest>, inside: bool, e: Event)
    ensures e in PartOf(es, ks, inside) <==> e in es && (e.k in ks) == inside
  {
    if es != [] {
      PartOfMembers(es[..|es| - 1], ks, inside, e);
      assert es == es[..|es| - 1] + [es[|es| - 1]];
    }
  }

  // ---- What a revoked key was before does not matter ----------------------------------------

  lemma {:induction false} PopIsPart(d: Leaves, k: Digest)
    requires NoDup(d)
    ensures Pop(d, k) == Part(d, {k}, false)
  {
    if d != [] {
      PopIsPart(d[1..], k);
      if d[0].0 == k {
        HasIndex(d[1..], k);
        PopAbsent(d[1..], k);
      }
    }
  }

  lemma {:induction false} PartTwice(d: Leaves, ks: set<Digest>, inside: bool)
    ensures Part(Part(d, ks, inside), ks, inside) == Part(d, ks, inside)
  {
    if d != [] {
      PartTwice(d[1..], ks, inside);
      if (d[0].0 in ks) == inside {
        assert Part(d, ks, inside)[1..] == Part(d[1..], ks, inside);
      }
    }
  }

  /** A replay that revokes k ends the same with k or without it at the start. */
  lemma {:induction false} DropRevoked(d: Leaves, k: Digest, es: seq<Event>)
    requires NoDup(d) && k in Revoked(es)
    ensures Fold(Pop(d, k), es) == Fold(d, es)
  {
    var init, e := es[..|es| - 1], es[|es| - 1];
    PopKeys(d, k);
    if k in Revoked(init) {
      DropRevoked(d, k, init);
    } else {
      assert e.kind.Revoke? && e.k == k by {
        var x :| x in es && x.kind.Revoke? && x.k == k;
        assert x in init ==> x.k in Revoked(init);
        assert es == init + [e];
      }
      FoldKeys(d, init);
      FoldKeys(Pop(d, k), init);
      PopIsPart(Fold(d, init), k);
      PopIsPart(Fold(Pop(d, k), init), k);
      PartFold(d, init, {k}, false);
      PartFold(Pop(d, k), init, {k}, false);
      PopIsPart(d, k);
      PartTwice(d, {k}, false);
    }
  }

  /** The same for all revoked keys at once. */
  lemma {:induction false} DropAllRevoked(pre: Leaves, d: Leaves, es: seq<Event>)
    requires NoDup(pre + d)
    ensures Fold(pre + Part(d, Revoked(es), false), es) == Fold(pre + d, es)
    decreases |d|
  {
    if d != [] {
      var e, rest := d[0], d[1..];
      assert pre + d == (pre + [e]) + rest;
      if e.0 in Revoked(es) {
        PopMiddle(pre, e, rest);
        PopKeys(pre + d, e.0);
        DropRevoked(pre + d, e.0, es);
        DropAllRevoked(pre, rest, es);
      } else {
        DropAllRevoked(pre + [e], rest, es);
        assert pre + ([e] + Part(rest, Revoked(es), false)) == (pre + [e]) + Part(rest, Revoked(es), false);
      }
    }
  }

  lemma PopSkips(x: (Digest, Felt), d: Leaves, k: Digest)
    requires x.0 != k
    ensures Pop([x] + d, k) == [x] + Pop(d, k)
  {
    assert ([x] + d)[0] == x && ([x] + d)[1..] == d;
  }

  lemma {:induction false} PopBehind(pre: Leaves, d: Leaves, k: Digest)
    requires !Has(pre, k)
    ensures Pop(pre + d, k) == pre + Pop(d, k)
    decreases |pre|
  {
    if pre == [] {
      assert pre + d == d && pre + Pop(d, k) == Pop(d, k);
    } else {
      var x, tail := pre[0], pre[1..];
      PopBehind(tail, d, k);
      PopSkips(x, tail + d, k);
      assert pre + d == [x] + (tail + d) && pre + Pop(d, k) == [x] + (tail + Pop(d, k));
    }
  }

  lemma PopMiddle(pre: Leaves, e: (Digest, Felt), rest: Leaves)
    requires NoDup(pre + [e] + rest)
    ensures Pop(pre + [e] + rest, e.0) == pre + rest
  {
    var all := pre + [e] + rest;
    HasIndex(pre, e.0);
    forall i | 0 <= i < |pre| ensures pre[i].0 != e.0 {
      assert all[i] == pre[i] && all[|pre|] == e;
    }
    PopBehind(pre, [e] + rest, e.0);
    assert all == pre + ([e] + rest) && ([e] + rest)[1..] == rest;
  }

  // ---- The exact condition ----------------------------------------------------------------

  /** No key the block revokes (and adds again) precedes one it never revokes. */
  predicate KeptFirst(d: Leaves, ks: set<Digest>) {
    forall i, j :: 0 <= i < j < |d| && d[i].0 in ks ==> d[j].0 in ks
  }

  lemma {:induction false} KeptFirstParts(d: Leaves, ks: set<Digest>)
    requires KeptFirst(d, ks)
    ensures d == Part(d, ks, false) + Part(d, ks, true)
  {
    if d != [] {
      KeptFirstParts(d[1..], ks);
      var no, yes := Part(d[1..], ks, false), Part(d[1..], ks, true);
      assert d == [d[0]] + d[1..];
      if d[0].0 in ks {
        NothingKept(d[1..], ks);
        assert no == [] && [d[0]] + ([] + yes) == [] + ([d[0]] + yes);
      } else {
        assert [d[0]] + (no + yes) == ([d[0]] + no) + yes;
      }
    }
  }

  lemma {:induction false} NothingKept(d: Leaves, ks: set<Digest>)
    requires forall i :: 0 <= i < |d| ==> d[i].0 in ks
    ensures Part(d, ks, false) == []
  {
    if d != [] {
      NothingKept(d[1..], ks);
    }
  }

  /** Both parts of the map are the same after the second replay. */
  lemma PartsStay(d: Leaves, es: seq<Event>)
    requires NoDup(d)
    ensures var once, ks := Fold(d, es), Revoked(es);
      Part(Fold(once, es), ks, false) == Part(once, ks, false) && Part(Fold(once, es), ks, true) == Part(once, ks, true)
  {
    var once, ks := Fold(d, es), Revoked(es);
    FoldKeys(d, es);
    KeptPartStays(d, es);
    RevokedPartStays(d, es);
  }

  lemma KeptPartStays(d: Leaves, es: seq<Event>)
    requires NoDup(d)
    ensures var once, ks := Fold(d, es), Revoked(es); Part(Fold(once, es), ks, false) == Part(once, ks, false)
  {
    var once, ks := Fold(d, es), Revoked(es);
    var kept := PartOf(es, ks, false);
    FoldKeys(d, es);
    PartFold(d, es, ks, false);
    PartFold(once, es, ks, false);
    PartNoDup(d, ks, false);
    forall e | e in kept ensures e.kind.Add? {
      PartOfMembers(es, ks, false, e);
    }
    assert NeverReAdded(kept) by {
      assert forall i :: 0 <= i < |kept| ==> kept[i] in kept;
    }
    FoldTwiceSameOrder(Part(d, ks, false), kept);
  }

  lemma RevokedPartStays(d: Leaves, es: seq<Event>)
    requires NoDup(d)
    ensures var once, ks := Fold(d, es), Revoked(es); Part(Fold(once, es), ks, true) == Part(once, ks, true)
  {
    var once, ks := Fold(d, es), Revoked(es);
    var part := PartOf(es, ks, true);
    FoldKeys(d, es);
    PartFold(d, es, ks, true);
    PartFold(once, es, ks, true);
    assert Revoked(part) == ks by {
      forall k | k in ks ensures k in Revoked(part) {
        var e :| e in es && e.kind.Revoke? && e.k == k;
        PartOfMembers(es, ks, true, e);
      }
      forall k | k in Revoked(part) ensures k in ks {
        var e :| e in part && e.kind.Revoke? && e.k == k;
        PartOfMembers(es, ks, true, e);
      }
    }
    ForgetAll(Part(d, ks, true), part);
    ForgetAll(Part(once, ks, true), part);
  }

  /** A replay that revokes every key of the map it starts from ends as from nothing. */
  lemma ForgetAll(d: Leaves, es: seq<Event>)
    requires exists x: Leaves :: NoDup(x) && d == Part(x, Revoked(es), true)
    ensures Fold(d, es) == Fold([], es)
  {
    var x: Leaves :| NoDup(x) && d == Part(x, Revoked(es), true);
    PartNoDup(x, Revoked(es), true);
    forall i | 0 <= i < |d| ensures d[i].0 in Revoked(es) {
      HasIndex(d, d[i].0);
      PartHas(x, Revoked(es), true, d[i].0);
    }
    NothingKept(d, Revoked(es));
    var none: Leaves := [];
    assert none + d == d && none + none == none;
    DropAllRevoked(none, d, es);
  }

  /** The kept entries of the first replay lead the second. */
  ghost predicate KeptLead(twice: Leaves, kept: Leaves) {
    |kept| <= |twice| && forall i :: 0 <= i < |kept| ==> twice[i].0 == kept[i].0
  }

  lemma KeptStay(d: Leaves, es: seq<Event>)
    requires NoDup(d)
    ensures KeptLead(Fold(d, es), Part(d, Revoked(es), false))
  {
    var ks := Revoked(es);
    var kept := Part(d, ks, false);
    assert [] + d == d && [] + kept == kept;
    DropAllRevoked([], d, es);
    forall e | e in es && e.kind.Revoke? ensures !Has(kept, e.k) {
      PartHas(d, ks, false, e.k);
    }
    KeysStay(kept, es);
  }

  /** After the second replay the revoked keys come last. */
  lemma TwiceKeptFirst(d: Leaves, es: seq<Event>)
    requires NoDup(d)
    ensures KeptFirst(Fold(Fold(d, es), es), Revoked(es))
  {
    var twice, ks := Fold(Fold(d, es), es), Revoked(es);
    FoldKeys(d, es);
    KeptStay(Fold(d, es), es);
    forall i, j | 0 <= i < j < |twice| && twice[i].0 in ks ensures twice[j].0 in ks {
      KeptLeads(d, es, i);
      KeptLeads(d, es, j);
    }
  }

  /** An entry of the second replay is among the leading kept ones exactly if its key is kept. */
  lemma KeptLeads(d: Leaves, es: seq<Event>, j: nat)
    requires NoDup(d) && j < |Fold(Fold(d, es), es)|
    requires KeptLead(Fold(Fold(d, es), es), Part(Fold(d, es), Revoked(es), false))
    ensures var once, ks := Fold(d, es), Revoked(es);
      j < |Part(once, ks, false)| <==> Fold(once, es)[j].0 !in ks
  {
    var once, ks := Fold(d, es), Revoked(es);
    var twice, kept := Fold(once, es), Part(once, ks, false);
    var k := twice[j].0;
    FoldKeys(d, es);
    FoldKeys(once, es);
    HasIndex(twice, k);
    HasIndex(kept, k);
    PartHas(once, ks, false, k);
    FoldTwiceSameMap(d, es, k);
    if k !in ks {
      var i :| 0 <= i < |kept| && kept[i].0 == k;
      assert twice[i].0 == twice[j].0;
    }
  }

  /** Replaying a block twice gives the ordered map of replaying it once if and only
      if, in that map, no key the block revokes precedes one it never revokes. */
  lemma ReorderExact(d: Leaves, es: seq<Event>)
    requires NoDup(d)
    ensures Fold(Fold(d, es), es) == Fold(d, es) <==> KeptFirst(Fold(d, es), Revoked(es))
  {
    var once, ks := Fold(d, es), Revoked(es);
    TwiceKeptFirst(d, es);
    PartsStay(d, es);
    KeptFirstParts(Fold(once, es), ks);
    if KeptFirst(once, ks) {
      KeptFirstParts(once, ks);
    }
  }
}
