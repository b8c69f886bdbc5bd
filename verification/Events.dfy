/** The chain's leaf events, their replay, and the scan of merkle_state.py. */
module Events {
  import opened Base
  import opened Dict

  datatype Kind = Add | Revoke
  datatype Event = Event(block: nat, index: nat, kind: Kind, k: Digest, p: Felt)

  type Leaves = Dict<Digest, Felt>

  /** One iteration of the replay loop. */
  function Step(d: Leaves, e: Event): Leaves {
    if e.kind.Add? then Set(d, e.k, e.p) else Pop(d, e.k)
  }

  function Fold(d: Leaves, es: seq<Event>): Leaves {
    if es == [] then d else Step(Fold(d, es[..|es| - 1]), es[|es| - 1])
  }

  lemma {:induction false} FoldConcat(d: Leaves, a: seq<Event>, b: seq<Event>)
    ensures Fold(d, a + b) == Fold(Fold(d, a), b)
  {
    if b == [] {
      assert a + b == a;
    } else {
      FoldConcat(d, a, b[..|b| - 1]);
      assert (a + b)[..|a + b| - 1] == a + b[..|b| - 1];
    }
  }

  // ---- Replaying a block twice ---------------------------------------------------------

  /** What the last event on k says: nothing, a value, or absence. */
  function LastWord(es: seq<Event>, k: Digest): Option<Option<Felt>> {
    if es == [] then None
    else
      var e := es[|es| - 1];
      if e.k == k then Some(if e.kind.Add? then Some(e.p) else None) else LastWord(es[..|es| - 1], k)
  }

  lemma {:induction false} FoldKeys(d: Leaves, es: seq<Event>)
    requires NoDup(d)
    ensures NoDup(Fold(d, es))
  {
    if es != [] {
      var init, e := es[..|es| - 1], es[|es| - 1];
      FoldKeys(d, init);
      SetKeys(Fold(d, init), e.k, e.p);
      PopKeys(Fold(d, init), e.k);
    }
  }

  lemma {:induction false} FoldGet(d: Leaves, es: seq<Event>, k: Digest)
    requires NoDup(d)
    ensures Get(Fold(d, es), k) == LastWord(es, k).GetOr(Get(d, k))
  {
    if es != [] {
      var init, e := es[..|es| - 1], es[|es| - 1];
      FoldGet(d, init, k);
      FoldKeys(d, init);
      if e.kind.Add? {
        GetSet(Fold(d, init), e.k, e.p, k);
      } else {
        GetPop(Fold(d, init), e.k, k);
      }
    }
  }

  /** Replaying any events a second time leaves every key's value as it was. */
  lemma FoldTwiceSameMap(d: Leaves, es: seq<Event>, k: Digest)
    requires NoDup(d)
    ensures Get(Fold(Fold(d, es), es), k) == Get(Fold(d, es), k)
  {
    FoldKeys(d, es);
    FoldGet(d, es, k);
    FoldGet(Fold(d, es), es, k);
  }

  /** No key is added again after it was revoked. */
  ghost predicate NeverReAdded(es: seq<Event>) {
    forall i, j :: 0 <= i < j < |es| && es[i].k == es[j].k && es[i].kind.Revoke? ==> es[j].kind.Revoke?
  }

  lemma {:induction false} RevokedLast(es: seq<Event>, e: Event)
    requires NeverReAdded(es) && e in es && e.kind.Revoke?
    ensures LastWord(es, e.k) == Some(None)
  {
    var n := |es| - 1;
    var i :| 0 <= i <= n && es[i] == e;
    if es[n].k != e.k {
      assert es[..n][i] == e;
      RevokedLast(es[..n], e);
    }
  }

  lemma {:induction false} PopAfter(d: Leaves, k: Digest, n: nat)
    requires n <= |d| && forall i :: 0 <= i < n ==> d[i].0 != k
    ensures n <= |Pop(d, k)| && forall i :: 0 <= i < n ==> Pop(d, k)[i] == d[i]
  {
    if d != [] && d[0].0 != k && n > 0 {
      PopAfter(d[1..], k, n - 1);
    }
  }

  /** Revoking only absent keys, a replay leaves the key order it starts from. */
  lemma {:induction false} KeysStay(d: Leaves, es: seq<Event>)
    requires forall e :: e in es && e.kind.Revoke? ==> !Has(d, e.k)
    ensures |d| <= |Fold(d, es)| && forall i :: 0 <= i < |d| ==> Fold(d, es)[i].0 == d[i].0
  {
    if es != [] {
      var init, e := es[..|es| - 1], es[|es| - 1];
      KeysStay(d, init);
      assert e in es;
      HasIndex(d, e.k);
      if e.kind.Revoke? {
        PopAfter(Fold(d, init), e.k, |d|);
      } else if Has(Fold(d, init), e.k) {
        SetKeepsKeys(Fold(d, init), e.k, e.p);
      } else {
        SetNew(Fold(d, init), e.k, e.p);
      }
    }
  }

  /** Dicts with the same keys in the same order and the same values are equal. */
  lemma {:induction false} SameDict(a: Leaves, b: Leaves)
    requires NoDup(a) && |a| == |b| && forall i :: 0 <= i < |a| ==> a[i].0 == b[i].0
    requires forall k :: Get(a, k) == Get(b, k)
    ensures a == b
  {
    if a != [] {
      assert Get(a, a[0].0) == Get(b, a[0].0);
      forall k ensures Get(a[1..], k) == Get(b[1..], k) {
        HasIndex(a[1..], k);
        HasIndex(b[1..], k);
        assert Get(a, k) == Get(b, k);
        if k == a[0].0 {
          assert !Has(a[1..], k) && !Has(b[1..], k);
        }
      }
      SameDict(a[1..], b[1..]);
    }
  }

  /** A longer dict with the same leading keys has a key the shorter one lacks. */
  lemma SameLength(a: Leaves, b: Leaves)
    requires NoDup(b) && |a| <= |b| && forall i :: 0 <= i < |a| ==> b[i].0 == a[i].0
    requires forall k :: Has(b, k) ==> Has(a, k)
    ensures |a| == |b|
  {
    if |a| < |b| {
      var k := b[|a|].0;
      HasIndex(b, k);
      HasIndex(a, k);
      assert false;
    }
  }

  /** A block in which no key is added again after its revocation, replayed twice,
      is the same ordered map as once. */
  lemma FoldTwiceSameOrder(d: Leaves, es: seq<Event>)
    requires NoDup(d) && NeverReAdded(es)
    ensures Fold(Fold(d, es), es) == Fold(d, es)
  {
    var once := Fold(d, es);
    FoldKeys(d, es);
    FoldKeys(once, es);
    forall e | e in es && e.kind.Revoke? ensures !Has(once, e.k) {
      FoldGet(d, es, e.k);
      RevokedLast(es, e);
    }
    KeysStay(once, es);
    forall k ensures Get(Fold(once, es), k) == Get(once, k) && (Has(Fold(once, es), k) ==> Has(once, k)) {
      FoldTwiceSameMap(d, es, k);
    }
    SameLength(once, Fold(once, es));
    SameDict(Fold(once, es), once);
  }

  /** The insertion order, however, can change when a block mixes both kinds. */
  lemma MixedBlockReorders(x: Digest, y: Digest, p: Felt)
    requires x != y
    ensures var es := [Event(1, 0, Add, x, p), Event(1, 1, Revoke, x, p),
                       Event(1, 2, Add, x, p), Event(1, 3, Add, y, p)];
      Fold([], es) == [(x, p), (y, p)] && Fold(Fold([], es), es) == [(y, p), (x, p)]
  {
    var es := [Event(1, 0, Add, x, p), Event(1, 1, Revoke, x, p), Event(1, 2, Add, x, p), Event(1, 3, Add, y, p)];
    forall d: Leaves ensures Fold(d, es) == Set(Set(Pop(Set(d, x, p), x), x, p), y, p) {
      assert es[..3][..2] == es[..2] && es[..2][..1] == es[..1] && es[..1][..0] == [];
      assert Fold(d, es[..1]) == Set(d, x, p);
      assert Fold(d, es[..2]) == Pop(Set(d, x, p), x);
      assert Fold(d, es[..3]) == Set(Pop(Set(d, x, p), x), x, p);
      assert es[..4] == es && es[..|es| - 1] == es[..3];
    }
    assert Set([], x, p) == [(x, p)] && Pop([(x, p)], x) == [];
    assert Set([(x, p)], y, p) == [(x, p), (y, p)];
    var d := [(x, p), (y, p)];
    assert Set(d, x, p) == d && d[1..] == [(y, p)] && Pop(d, x) == [(y, p)];
    assert Set([(y, p)], x, p) == [(y, p), (x, p)];
    var u := [(y, p), (x, p)];
    assert Set(u, y, p) == u by { assert u[1..] == [(x, p)]; }
  }
}
