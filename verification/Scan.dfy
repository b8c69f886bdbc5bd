/** The append-only log of leaf events, and `get_leaf_events`. */
module Scan {
  import opened Base
  import opened Dict
  import opened Events

  predicate Before(a: Event, b: Event) {
    a.block < b.block || (a.block == b.block && a.index < b.index)
  }

  /** Chain order: strictly increasing (block, log index). */
  ghost predicate Ordered(es: seq<Event>) {
    forall i, j :: 0 <= i < j < |es| ==> Before(es[i], es[j])
  }

  /** In no block is a key added again after it was revoked, as when each block
      holds one batch, all adds or all revokes. */
  ghost predicate NoReAdds(es: seq<Event>) {
    forall i, j :: 0 <= i < j < |es| && es[i].block == es[j].block && es[i].k == es[j].k && es[i].kind.Revoke? ==>
      es[j].kind.Revoke?
  }

  /** The events of blocks from `lo` on. */
  function Since(es: seq<Event>, lo: nat): seq<Event> {
    if es == [] then []
    else Since(es[..|es| - 1], lo) + if es[|es| - 1].block >= lo then [es[|es| - 1]] else []
  }

  /** The events of blocks up to `hi`. */
  function UpTo(es: seq<Event>, hi: int): seq<Event> {
    if es == [] then []
    else UpTo(es[..|es| - 1], hi) + if es[|es| - 1].block <= hi then [es[|es| - 1]] else []
  }

  // ---- Replay composes --------------------------------------------------------------------

  function At(es: seq<Event>, b: nat): seq<Event> {
    if es == [] then []
    else At(es[..|es| - 1], b) + if es[|es| - 1].block == b then [es[|es| - 1]] else []
  }

  ghost predicate AllUpTo(es: seq<Event>, b: int) {
    forall e :: e in es ==> e.block <= b
  }

  lemma {:induction false} NoneAfter(es: seq<Event>, b: nat)
    requires AllUpTo(es, b)
    ensures UpTo(es, b) == es && Since(es, b + 1) == []
  {
    if es != [] {
      assert es[|es| - 1] in es;
      NoneAfter(es[..|es| - 1], b);
    }
  }

  lemma {:induction false} NoneAt(es: seq<Event>, b: nat)
    requires AllUpTo(es, b - 1)
    ensures At(es, b) == [] && Since(es, b) == []
  {
    if es != [] {
      assert es[|es| - 1] in es;
      NoneAt(es[..|es| - 1], b);
    }
  }

  lemma LastIsLatest(es: seq<Event>)
    requires Ordered(es) && es != []
    ensures Ordered(es[..|es| - 1]) && AllUpTo(es[..|es| - 1], es[|es| - 1].block)
  {
    var init, e := es[..|es| - 1], es[|es| - 1];
    forall x | x in init ensures x.block <= e.block {
      var i :| 0 <= i < |init| && init[i] == x;
      assert Before(es[i], es[|es| - 1]);
    }
  }

  lemma Rejoin(es: seq<Event>, a: seq<Event>, b: seq<Event>)
    requires es != [] && es[..|es| - 1] == a + b
    ensures es == a + (b + [es[|es| - 1]])
  {
  }

  /** An ordered log is the events up to a block and those after it. */
  lemma {:induction false} SplitAfter(es: seq<Event>, b: nat)
    requires Ordered(es)
    ensures es == UpTo(es, b) + Since(es, b + 1)
  {
    if es != [] {
      var init, e := es[..|es| - 1], es[|es| - 1];
      LastIsLatest(es);
      if e.block <= b {
        NoneAfter(es, b);
        assert es + [] == es;
      } else {
        SplitAfter(init, b);
        assert UpTo(init, b) + [] == UpTo(init, b);
        Rejoin(es, UpTo(init, b), Since(init, b + 1));
      }
    }
  }

  /** The events from a block on are those in it and those after it. */
  lemma {:induction false} SplitSince(es: seq<Event>, b: nat)
    requires Ordered(es)
    ensures Since(es, b) == At(es, b) + Since(es, b + 1)
  {
    if es != [] {
      var init, e := es[..|es| - 1], es[|es| - 1];
      LastIsLatest(es);
      SplitSince(init, b);
      if e.block == b {
        NoneAfter(init, b);
        assert At(init, b) + [] == At(init, b) && At(es, b) + [] == At(es, b);
      } else if e.block > b {
        assert At(es, b) == At(init, b) + [] == At(init, b);
        assert (At(init, b) + Since(init, b + 1)) + [e] == At(init, b) + (Since(init, b + 1) + [e]);
      }
    }
  }

  /** The events up to a block are those before it and those in it. */
  lemma {:induction false} SplitUpTo(es: seq<Event>, b: nat)
    requires Ordered(es)
    ensures UpTo(es, b) == UpTo(es, b - 1) + At(es, b)
    ensures forall e :: e in At(es, b) ==> e.block == b
  {
    if es != [] {
      var init, e := es[..|es| - 1], es[|es| - 1];
      LastIsLatest(es);
      SplitUpTo(init, b);
      if e.block == b {
        assert UpTo(es, b) == (UpTo(init, b - 1) + At(init, b)) + [e];
      } else if e.block < b {
        NoneAt(init, b);
        assert UpTo(es, b) == UpTo(init, b - 1) + [e];
      }
    }
  }

  lemma SegmentNeverReAdded(es: seq<Event>, pre: seq<Event>, at: seq<Event>, after: seq<Event>, b: nat)
    requires es == pre + at + after && NoReAdds(es) && forall e :: e in at ==> e.block == b
    ensures NeverReAdded(at)
  {
    forall i, j | 0 <= i < j < |at| && at[i].k == at[j].k && at[i].kind.Revoke? ensures at[j].kind.Revoke? {
      assert at[i] in at && at[j] in at;
      assert es[|pre| + i] == at[i] && es[|pre| + j] == at[j];
    }
  }

  /** Folding to block b and then from b inclusive is one fold: the same ordered
      map when no block re-adds a key it revoked. */
  lemma ReplayComposes(es: seq<Event>, b: nat)
    requires Ordered(es) && NoReAdds(es)
    ensures Fold(Fold([], UpTo(es, b)), Since(es, b)) == Fold([], es)
  {
    SplitUpTo(es, b);
    SplitSince(es, b);
    SplitAfter(es, b);
    var pre, at, after := UpTo(es, b - 1), At(es, b), Since(es, b + 1);
    SegmentNeverReAdded(es, pre, at, after, b);
    FoldConcat([], pre, at);
    FoldConcat([], UpTo(es, b), after);
    FoldConcat(Fold([], UpTo(es, b)), at, after);
    FoldKeys([], pre);
    FoldTwiceSameOrder(Fold([], pre), at);
  }

  /** Whatever the blocks hold, every key keeps its value. */
  lemma ReplayComposesAsMap(es: seq<Event>, b: nat, k: Digest)
    requires Ordered(es)
    ensures Get(Fold(Fold([], UpTo(es, b)), Since(es, b)), k) == Get(Fold([], es), k)
  {
    SplitUpTo(es, b);
    SplitSince(es, b);
    SplitAfter(es, b);
    var pre, at, after := UpTo(es, b - 1), At(es, b), Since(es, b + 1);
    var d := Fold([], pre);
    FoldConcat([], pre, at);
    FoldConcat([], UpTo(es, b), after);
    FoldConcat(Fold(d, at), at, after);
    FoldKeys([], pre);
    FoldKeys(d, at);
    FoldKeys(Fold(d, at), at);
    FoldTwiceSameMap(d, at, k);
    FoldGet(Fold(d, at), after, k);
    FoldGet(Fold(Fold(d, at), at), after, k);
  }

  // ---- A watermark read after the scan ----------------------------------------------------

  /** The events strictly between two blocks. */
  function Gap(es: seq<Event>, t1: nat, t2: nat): seq<Event> {
    Since(UpTo(es, t2 - 1), t1 + 1)
  }

  lemma {:induction false} UpToTwice(es: seq<Event>, a: int, b: int)
    requires a <= b
    ensures UpTo(UpTo(es, b), a) == UpTo(es, a)
  {
    if es != [] {
      var init, e := es[..|es| - 1], es[|es| - 1];
      UpToTwice(init, a, b);
      if e.block <= b {
        assert UpTo(es, b)[..|UpTo(es, b)| - 1] == UpTo(init, b);
      } else {
        assert UpTo(es, b) == UpTo(init, b);
      }
    }
  }

  /** An ordered log is the events up to t1, those strictly between, and those from t2. */
  lemma SplitAround(es: seq<Event>, t1: nat, t2: nat)
    requires Ordered(es) && t1 < t2
    ensures es == UpTo(es, t1) + Gap(es, t1, t2) + Since(es, t2)
  {
    SplitAfter(es, t2 - 1);
    UpToOrdered(es, t2 - 1);
    SplitAfter(UpTo(es, t2 - 1), t1);
    UpToTwice(es, t1, t2 - 1);
  }

  lemma {:induction false} UpToBound(es: seq<Event>, hi: int)
    ensures AllUpTo(UpTo(es, hi), hi)
  {
    if es != [] {
      UpToBound(es[..|es| - 1], hi);
    }
  }

  lemma NoGap(es: seq<Event>, t: nat)
    ensures Gap(es, t, t) == []
  {
    UpToBound(es, t - 1);
    NoneAfter(UpTo(es, t - 1), t);
  }

  /** The map a replay from t2 makes of a state scanned up to t1. */
  function LateReplay(es: seq<Event>, t1: nat, t2: nat): Leaves {
    Fold(Fold([], UpTo(es, t1)), Since(es, t2))
  }

  /** A scan up to t1 saved with the later watermark t2: after the next replay a key
      has its true value if and only if an event from t2 on settles it, or the last
      event strictly between, if any, says what the scan had found. */
  lemma LateWatermarkExact(es: seq<Event>, t1: nat, t2: nat, k: Digest)
    requires Ordered(es) && t1 <= t2
    ensures var v := Get(Fold([], UpTo(es, t1)), k);
      Get(LateReplay(es, t1, t2), k) == Get(Fold([], es), k)
      <==> LastWord(Since(es, t2), k).Some? || LastWord(Gap(es, t1, t2), k).GetOr(v) == v
  {
    var scanned := Fold([], UpTo(es, t1));
    if t1 == t2 {
      ReplayComposesAsMap(es, t1, k);
      NoGap(es, t1);
    } else {
      SplitAround(es, t1, t2);
      var gap, later := Gap(es, t1, t2), Since(es, t2);
      FoldConcat([], UpTo(es, t1), gap);
      FoldConcat([], UpTo(es, t1) + gap, later);
      FoldKeys([], UpTo(es, t1));
      FoldKeys(scanned, gap);
      FoldGet(scanned, gap, k);
      FoldGet(scanned, later, k);
      FoldGet(Fold(scanned, gap), later, k);
    }
  }

  /** With nothing strictly between, the insertion order is right as well. */
  lemma LateWatermarkRecovers(es: seq<Event>, t1: nat, t2: nat)
    requires Ordered(es) && NoReAdds(es) && t1 <= t2 && Gap(es, t1, t2) == []
    ensures LateReplay(es, t1, t2) == Fold([], es)
  {
    if t1 == t2 {
      ReplayComposes(es, t1);
    } else {
      SplitAround(es, t1, t2);
      assert UpTo(es, t1) + [] == UpTo(es, t1);
      FoldConcat([], UpTo(es, t1), Since(es, t2));
    }
  }

  /** What an event strictly between changed, and none after settles, is lost. */
  lemma LateWatermarkLoses(es: seq<Event>, t1: nat, t2: nat, k: Digest)
    requires Ordered(es) && t1 <= t2 && LastWord(Since(es, t2), k).None?
    requires LastWord(Gap(es, t1, t2), k).Some?
    requires LastWord(Gap(es, t1, t2), k).value != Get(Fold([], UpTo(es, t1)), k)
    ensures Get(LateReplay(es, t1, t2), k) == Get(Fold([], UpTo(es, t1)), k) != Get(Fold([], es), k)
  {
    LateWatermarkExact(es, t1, t2, k);
    FoldKeys([], UpTo(es, t1));
    FoldGet(Fold([], UpTo(es, t1)), Since(es, t2), k);
  }

  // ---- The scan ------------------------------------------------------------------------------

  function Insert(e: Event, es: seq<Event>): seq<Event> {
    if es == [] || Before(e, es[0]) then [e] + es else [es[0]] + Insert(e, es[1..])
  }

  /** `events.sort(key=(block, log_index))`, which is stable. */
  function Sort(es: seq<Event>): seq<Event> {
    if es == [] then [] else Insert(es[|es| - 1], Sort(es[..|es| - 1]))
  }

  ghost predicate Sorted(es: seq<Event>) {
    forall i, j :: 0 <= i < j < |es| ==> !Before(es[j], es[i])
  }

  lemma {:induction false} InsertMembers(e: Event, es: seq<Event>)
    ensures multiset(Insert(e, es)) == multiset{e} + multiset(es)
  {
    if es != [] && !Before(e, es[0]) {
      InsertMembers(e, es[1..]);
      assert es == [es[0]] + es[1..];
    }
  }

  /** No member of a sorted list comes before its first. */
  lemma FirstIsLeast(es: seq<Event>, x: Event)
    requires Sorted(es) && x in es
    ensures !Before(x, es[0])
  {
    var i :| 0 <= i < |es| && es[i] == x;
    if i > 0 {
      assert !Before(es[i], es[0]);
    }
  }

  lemma SortedTail(es: seq<Event>)
    requires Sorted(es) && es != []
    ensures Sorted(es[1..])
  {
    var rest := es[1..];
    forall i, j | 0 <= i < j < |rest| ensures !Before(rest[j], rest[i]) {
      assert rest[i] == es[i + 1] && rest[j] == es[j + 1];
    }
  }

  lemma SortedCons(x: Event, es: seq<Event>)
    requires Sorted(es) && forall y :: y in es ==> !Before(y, x)
    ensures Sorted([x] + es)
  {
    var s := [x] + es;
    forall i, j | 0 <= i < j < |s| ensures !Before(s[j], s[i]) {
      assert s[j] == es[j - 1];
      if i > 0 {
        assert s[i] == es[i - 1];
      }
    }
  }

  lemma {:induction false} InsertSorted(e: Event, es: seq<Event>)
    requires Sorted(es)
    ensures Sorted(Insert(e, es))
  {
    if es == [] || Before(e, es[0]) {
      forall y | y in es ensures !Before(y, e) {
        FirstIsLeast(es, y);
      }
      SortedCons(e, es);
    } else {
      var r := Insert(e, es[1..]);
      SortedTail(es);
      InsertSorted(e, es[1..]);
      InsertMembers(e, es[1..]);
      forall y | y in r ensures !Before(y, es[0]) {
        assert y in multiset(r);
        if y != e {
          assert y in es[1..];
          FirstIsLeast(es, y);
        }
      }
      SortedCons(es[0], r);
    }
  }

  lemma LastMember(es: seq<Event>)
    requires es != []
    ensures multiset(es) == multiset{es[|es| - 1]} + multiset(es[..|es| - 1])
  {
    assert es == es[..|es| - 1] + [es[|es| - 1]];
  }

  lemma {:induction false} SortCorrect(es: seq<Event>)
    ensures Sorted(Sort(es)) && multiset(Sort(es)) == multiset(es)
  {
    if es != [] {
      var init, e := es[..|es| - 1], es[|es| - 1];
      SortCorrect(init);
      InsertSorted(e, Sort(init));
      InsertMembers(e, Sort(init));
      LastMember(es);
      assert Sort(es) == Insert(e, Sort(init));
    }
  }

  lemma SameHead(s: seq<Event>, t: seq<Event>)
    requires Sorted(s) && Ordered(t) && multiset(s) == multiset(t) && s != [] && t != []
    ensures s[0] == t[0]
  {
    assert s[0] in multiset(t) && t[0] in multiset(s);
    var i :| 0 <= i < |t| && t[i] == s[0];
    var j :| 0 <= j < |s| && s[j] == t[0];
    if i > 0 && j > 0 {
      assert false;
    }
  }

  lemma OrderedTail(es: seq<Event>)
    requires Ordered(es) && es != []
    ensures Ordered(es[1..])
  {
    var rest := es[1..];
    forall i, j | 0 <= i < j < |rest| ensures Before(rest[i], rest[j]) {
      assert rest[i] == es[i + 1] && rest[j] == es[j + 1];
    }
  }

  lemma SameTails(s: seq<Event>, t: seq<Event>)
    requires s != [] && t != [] && s[0] == t[0] && multiset(s) == multiset(t)
    ensures multiset(s[1..]) == multiset(t[1..])
  {
    assert s == [s[0]] + s[1..] && t == [t[0]] + t[1..];
    assert multiset(s[1..]) == multiset(s) - multiset{s[0]};
    assert multiset(t[1..]) == multiset(t) - multiset{t[0]};
  }

  /** A sorted arrangement of a strictly ordered log is that log. */
  lemma {:induction false} SortedUnique(s: seq<Event>, t: seq<Event>)
    requires Sorted(s) && Ordered(t) && multiset(s) == multiset(t)
    ensures s == t
  {
    assert |multiset(s)| == |s| && |multiset(t)| == |t|;
    if t != [] {
      SameHead(s, t);
      SortedTail(s);
      OrderedTail(t);
      SameTails(s, t);
      SortedUnique(s[1..], t[1..]);
      assert s == [s[0]] + s[1..] && t == [t[0]] + t[1..];
    }
  }

  /** The entries of one event type within a block range, as the filter returns them. */
  function Entries(log: seq<Event>, kind: Kind, lo: nat, tip: nat): seq<Event> {
    if log == [] then []
    else
      var e := log[|log| - 1];
      Entries(log[..|log| - 1], kind, lo, tip) + if e.kind == kind && lo <= e.block <= tip then [e] else []
  }

  /** The events of blocks `lo` to `hi`, in log order. */
  function Between(es: seq<Event>, lo: nat, hi: nat): seq<Event> {
    Since(UpTo(es, hi), lo)
  }

  lemma SinceAppend(es: seq<Event>, e: Event, lo: nat)
    ensures Since(es + [e], lo) == Since(es, lo) + if e.block >= lo then [e] else []
  {
    assert (es + [e])[..|es|] == es;
  }

  /** The last event of a log joins the range, and its own kind's entries, when its block is in range. */
  lemma LastEntry(log: seq<Event>, lo: nat, tip: nat)
    requires log != []
    ensures var init, e := log[..|log| - 1], log[|log| - 1];
      var more := if lo <= e.block <= tip then [e] else [];
      && Between(log, lo, tip) == Between(init, lo, tip) + more
      && Entries(log, e.kind, lo, tip) == Entries(init, e.kind, lo, tip) + more
  {
    var init, e := log[..|log| - 1], log[|log| - 1];
    if e.block <= tip {
      SinceAppend(UpTo(init, tip), e, lo);
    } else {
      assert UpTo(log, tip) == UpTo(init, tip);
    }
  }

  lemma OtherEntries(log: seq<Event>, kind: Kind, lo: nat, tip: nat)
    requires log != [] && log[|log| - 1].kind != kind
    ensures Entries(log, kind, lo, tip) == Entries(log[..|log| - 1], kind, lo, tip)
  {
  }

  lemma JoinsOne(a: seq<Event>, b: seq<Event>, whole: seq<Event>, more: seq<Event>)
    requires multiset(a) + multiset(b) == multiset(whole)
    ensures multiset(a + more) + multiset(b) == multiset(whole + more)
    ensures multiset(a) + multiset(b + more) == multiset(whole + more)
  {
    assert multiset(a + more) == multiset(a) + multiset(more) && multiset(b + more) == multiset(b) + multiset(more);
  }

  lemma {:induction false} EntriesPartition(log: seq<Event>, lo: nat, tip: nat)
    ensures multiset(Entries(log, Add, lo, tip)) + multiset(Entries(log, Revoke, lo, tip))
         == multiset(Between(log, lo, tip))
  {
    if log != [] {
      var init, e := log[..|log| - 1], log[|log| - 1];
      EntriesPartition(init, lo, tip);
      LastEntry(log, lo, tip);
      OtherEntries(log, if e.kind.Add? then Revoke else Add, lo, tip);
      JoinsOne(Entries(init, Add, lo, tip), Entries(init, Revoke, lo, tip), Between(init, lo, tip),
               if lo <= e.block <= tip then [e] else []);
    }
  }

  lemma {:induction false} SinceOrdered(es: seq<Event>, lo: nat)
    requires Ordered(es)
    ensures Ordered(Since(es, lo)) && forall e :: e in Since(es, lo) ==> e in es
  {
    if es != [] {
      var init, e := es[..|es| - 1], es[|es| - 1];
      SinceOrdered(init, lo);
      OrderedAppend(es, Since(init, lo));
    }
  }

  lemma {:induction false} UpToOrdered(es: seq<Event>, hi: nat)
    requires Ordered(es)
    ensures Ordered(UpTo(es, hi)) && forall e :: e in UpTo(es, hi) ==> e in es
  {
    if es != [] {
      UpToOrdered(es[..|es| - 1], hi);
      OrderedAppend(es, UpTo(es[..|es| - 1], hi));
    }
  }

  /** Events chosen from before the last event of an ordered log can be followed by it. */
  lemma OrderedAppend(es: seq<Event>, s: seq<Event>)
    requires es != [] && Ordered(es) && Ordered(s) && forall e :: e in s ==> e in es[..|es| - 1]
    ensures Ordered(s + [es[|es| - 1]])
  {
    var init, e := es[..|es| - 1], es[|es| - 1];
    forall x | x in s ensures Before(x, e) {
      var j :| 0 <= j < |init| && init[j] == x;
      assert es[j] == x;
    }
  }

  /** `get_leaf_events`: adds, then revokes, then the sort. The result is exactly
      the log between the two blocks, in chain order. */
  method GetLeafEvents(log: seq<Event>, lo: nat, tip: nat) returns (events: seq<Event>)
    requires Ordered(log)
    ensures events == Between(log, lo, tip)
  {
    var added, revoked := Entries(log, Add, lo, tip), Entries(log, Revoke, lo, tip);
    events := [];
    var i := 0;
    while i < |added|
      invariant i <= |added| && events == added[..i]
    {
      events := events + [added[i]];
      i := i + 1;
    }
    var j := 0;
    while j < |revoked|
      invariant j <= |revoked| && events == added + revoked[..j]
    {
      events := events + [revoked[j]];
      j := j + 1;
    }
    assert events == added + revoked;
    SortCorrect(events);
    EntriesPartition(log, lo, tip);
    UpToOrdered(log, tip);
    SinceOrdered(UpTo(log, tip), lo);
    events := Sort(events);
    SortedUnique(events, Between(log, lo, tip));
  }
}
