/** What callers are told once a record is stored, and that every call can end. */
module KeyAnswers {
  import opened Base
  import opened KeyService

  // ---- After a record is stored --------------------------------------------------------------

  /** What a task has read or answered is record r; any task that has read nothing yet. */
  predicate Sees(pc: Pc, r: Record) {
    match pc
    case Found(_, found) => found == Some(r)
    case Saving(_, _) => false
    case Writing(_, _) => false
    case Written(_, key) => key == r
    case Provided(pub) => pub == r.pub
    case LoadFound(found) => found == Some(r)
    case LoadedPublic(answer) => answer == Some(r.pub)
    case SignFound(found) => found == Some(r)
    case Signing(pub) => pub == r.pub
    case _ => true
  }

  /** Record r is stored, and task t, if it is there, has read nothing else. */
  ghost predicate Settled(s: State, t: TaskId, r: Record) {
    s.store == Some(r) && (t in s.tasks ==> Sees(s.tasks[t].pc, r))
  }

  lemma StepSees(restore: Restore, s: State, t: TaskId, drawn: string, r: Record)
    requires Inv(restore, s) && t in s.tasks && Settled(s, t, r)
    ensures var s' := StepTask(restore, s, t, drawn); t in s'.tasks && Sees(s'.tasks[t].pc, r)
  {
    var s', svc, pc := StepTask(restore, s, t, drawn), s.tasks[t].service, s.tasks[t].pc;
    assert svc in s.caches ==> Stored(s, s.caches[svc]);
    match pc
    case Found(l, found) => assert s'.tasks[t].pc == Provided(found.value.pub);
    case Written(l, key) => assert s'.tasks[t].pc == Provided(key.pub);
    case LoadFound(found) => assert s'.tasks[t].pc == LoadedPublic(Some(found.value.pub));
    case SignFound(found) => assert s'.tasks[t].pc == Signing(restore(found.value.priv));
    case _ =>
  }

  lemma NextSettled(restore: Restore, s: State, a: Action, t: TaskId, r: Record)
    requires Inv(restore, s) && Settled(s, t, r)
    ensures Settled(Next(restore, s, a), t, r)
  {
    NextKeeps(restore, s, a);
    if a.Advance? {
      if a.t in s.tasks {
        StepFrame(restore, s, a.t, a.drawn);
        if a.t == t {
          StepSees(restore, s, t, a.drawn, r);
        }
      }
    } else {
      OtherEffect(restore, s, a);
    }
  }

  /** In a calm run, from the moment a record is stored, a task that has then read
      nothing else never holds or answers anything else: a load never denies the
      record, a signing uses its key, a provision returns it. */
  lemma {:induction false} AnswersAreStored(restore: Restore, actions: seq<Action>, n: nat, t: TaskId)
    requires Calm(restore, actions) && n <= |actions| && Run(restore, actions[..n]).store.Some?
    requires var s := Run(restore, actions[..n]); Settled(s, t, s.store.value)
    ensures var s := Run(restore, actions[..n]); Settled(Run(restore, actions), t, s.store.value)
    decreases |actions|
  {
    if n == |actions| {
      assert actions[..n] == actions;
    } else {
      var m := |actions| - 1;
      CalmPrefix(restore, actions, m);
      assert actions[..m][..n] == actions[..n];
      AnswersAreStored(restore, actions[..m], n, t);
      RunKeeps(restore, actions[..m]);
      NextSettled(restore, Run(restore, actions[..m]), actions[m], t, Run(restore, actions[..n]).store.value);
    }
  }

  /** A load that starts or has yet to read when a record is stored answers, if it
      answers, with that record's key. */
  lemma LoadAnswersStored(restore: Restore, actions: seq<Action>, n: nat, t: TaskId)
    requires Calm(restore, actions) && n <= |actions| && Run(restore, actions[..n]).store.Some?
    requires var s := Run(restore, actions[..n]);
      t !in s.tasks || s.tasks[t].pc.LoadStart? || s.tasks[t].pc.LoadReading?
    requires t in Run(restore, actions).tasks && Run(restore, actions).tasks[t].pc.LoadedPublic?
    ensures Run(restore, actions).tasks[t].pc.answer == Some(Run(restore, actions[..n]).store.value.pub)
  {
    AnswersAreStored(restore, actions, n, t);
  }

  ghost predicate Unfailed(s: State, t: TaskId) {
    t in s.tasks ==> !s.tasks[t].pc.Failed?
  }

  lemma StepUnfailed(restore: Restore, s: State, t: TaskId, drawn: string, r: Record)
    requires t in s.tasks && Settled(s, t, r) && Unfailed(s, t)
    ensures Unfailed(StepTask(restore, s, t, drawn), t)
  {
  }

  lemma NextUnfailed(restore: Restore, s: State, a: Action, t: TaskId, r: Record)
    requires Settled(s, t, r) && Unfailed(s, t) && a != Fail(t)
    ensures Unfailed(Next(restore, s, a), t)
  {
    if a.Advance? && a.t in s.tasks {
      StepFrame(restore, s, a.t, a.drawn);
      if a.t == t {
        StepUnfailed(restore, s, t, a.drawn, r);
      }
    }
  }

  /** From then on such a task is never found failed but by a failure of its own: a
      signing finds its key. */
  lemma {:induction false} FailsOnlyByFail(restore: Restore, actions: seq<Action>, n: nat, t: TaskId)
    requires Calm(restore, actions) && n <= |actions| && Run(restore, actions[..n]).store.Some?
    requires var s := Run(restore, actions[..n]); Settled(s, t, s.store.value) && Unfailed(s, t)
    requires forall i :: n <= i < |actions| ==> actions[i] != Fail(t)
    ensures Unfailed(Run(restore, actions), t)
    decreases |actions|
  {
    if n == |actions| {
      assert actions[..n] == actions;
    } else {
      var m := |actions| - 1;
      CalmPrefix(restore, actions, m);
      assert actions[..m][..n] == actions[..n];
      FailsOnlyByFail(restore, actions[..m], n, t);
      AnswersAreStored(restore, actions[..m], n, t);
      NextUnfailed(restore, Run(restore, actions[..m]), actions[m], t, Run(restore, actions[..n]).store.value);
    }
  }

  lemma NextGenerates(restore: Restore, s: State, a: Action)
    requires Inv(restore, s) && s.store.Some?
    ensures Next(restore, s, a).generated == s.generated
  {
    if a.Advance? && a.t in s.tasks {
      assert KnowsStore(restore, s, s.tasks[a.t].pc);
    }
  }

  /** Once a record is stored no further key is generated. */
  lemma {:induction false} NoKeyAfterStore(restore: Restore, actions: seq<Action>, n: nat)
    requires Calm(restore, actions) && n <= |actions| && Run(restore, actions[..n]).store.Some?
    ensures Run(restore, actions).generated == Run(restore, actions[..n]).generated
    decreases |actions|
  {
    if n == |actions| {
      assert actions[..n] == actions;
    } else {
      var m := |actions| - 1;
      CalmPrefix(restore, actions, m);
      assert actions[..m][..n] == actions[..n];
      NoKeyAfterStore(restore, actions[..m], n);
      StoredForGood(restore, actions[..m], n);
      RunKeeps(restore, actions[..m]);
      NextGenerates(restore, Run(restore, actions[..m]), actions[m]);
    }
  }

  // ---- The cache --------------------------------------------------------------------------------

  /** Waiting for a lock that some task holds. */
  predicate Blocked(s: State, t: TaskId)
    requires t in s.tasks
  {
    s.tasks[t].pc.Waiting? && s.tasks[t].pc.lock in s.owner
  }

  /** The key a provision or a load returned to its caller. */
  predicate Returned(pc: Pc) {
    pc.Provided? || (pc.LoadedPublic? && pc.answer.Some?)
  }

  /** A service that has returned a key holds it in its cache. */
  ghost predicate Kept(s: State, svc: ServiceId) {
    forall t :: t in s.tasks && s.tasks[t].service == svc && Returned(s.tasks[t].pc) ==> svc in s.caches
  }

  /** A step of task t drops nothing from the caches, and a key it returns is there. */
  predicate Caches(s: State, s': State, t: TaskId)
    requires t in s.tasks
  {
    && (forall x :: x in s.caches ==> x in s'.caches)
    && t in s'.tasks && s'.tasks[t].service == s.tasks[t].service
    && (Returned(s'.tasks[t].pc) && !Returned(s.tasks[t].pc) ==> s.tasks[t].service in s'.caches)
  }

  lemma HolderCaches(restore: Restore, s: State, t: TaskId, drawn: string)
    requires t in s.tasks && Holds(s.tasks[t].pc)
    ensures Caches(s, StepTask(restore, s, t, drawn), t)
  {
  }

  lemma EntryCaches(restore: Restore, s: State, t: TaskId, drawn: string)
    requires t in s.tasks && (s.tasks[t].pc.Waiting? || s.tasks[t].pc.ProvideStart?)
    ensures Caches(s, StepTask(restore, s, t, drawn), t)
  {
  }

  lemma ReaderCaches(restore: Restore, s: State, t: TaskId, drawn: string)
    requires t in s.tasks && !InFlight(s.tasks[t].pc) && !s.tasks[t].pc.ProvideStart?
    ensures Caches(s, StepTask(restore, s, t, drawn), t)
  {
  }

  lemma StepCaches(restore: Restore, s: State, t: TaskId, drawn: string)
    requires t in s.tasks
    ensures Caches(s, StepTask(restore, s, t, drawn), t)
  {
    if Holds(s.tasks[t].pc) {
      HolderCaches(restore, s, t, drawn);
    } else if InFlight(s.tasks[t].pc) || s.tasks[t].pc.ProvideStart? {
      EntryCaches(restore, s, t, drawn);
    } else {
      ReaderCaches(restore, s, t, drawn);
    }
  }

  lemma NextKept(restore: Restore, s: State, a: Action, svc: ServiceId)
    requires Kept(s, svc) && a != Invalidate(svc) && a != Crash
    ensures Kept(Next(restore, s, a), svc)
  {
    if a.Advance? && a.t in s.tasks {
      StepFrame(restore, s, a.t, a.drawn);
      StepCaches(restore, s, a.t, a.drawn);
    }
  }

  lemma {:induction false} KeptThrough(restore: Restore, actions: seq<Action>, svc: ServiceId)
    requires forall i :: 0 <= i < |actions| ==> actions[i] != Invalidate(svc) && actions[i] != Crash
    ensures Kept(Run(restore, actions), svc)
  {
    if actions != [] {
      var m := |actions| - 1;
      KeptThrough(restore, actions[..m], svc);
      NextKept(restore, Run(restore, actions[..m]), actions[m], svc);
    }
  }

  /** In a calm run that neither crashes nor invalidates a service, once the service
      has returned a key its further calls return the same key in their first step,
      with no read, and those that waited for the lock do so once it is free. */
  lemma ReturnsFromCache(restore: Restore, actions: seq<Action>, t: TaskId, u: TaskId, drawn: string)
    requires Calm(restore, actions)
    requires var s := Run(restore, actions);
      && t in s.tasks && Returned(s.tasks[t].pc) && u in s.tasks && s.tasks[u].service == s.tasks[t].service
      && (s.tasks[u].pc.ProvideStart? || s.tasks[u].pc.LoadStart? || (s.tasks[u].pc.Waiting? && !Blocked(s, u)))
    requires forall i :: 0 <= i < |actions| ==>
      actions[i] != Invalidate(Run(restore, actions).tasks[t].service) && actions[i] != Crash
    ensures var s := Run(restore, actions);
      var s' := Next(restore, s, Advance(u, drawn));
      && u in s'.tasks && PublicOf(s'.tasks[u].pc) == PublicOf(s.tasks[t].pc) && s' == s.(tasks := s'.tasks)
  {
    var s := Run(restore, actions);
    var svc := s.tasks[t].service;
    KeptThrough(restore, actions, svc);
    RunKeeps(restore, actions);
    assert svc in s.caches && Stored(s, s.caches[svc]);
    assert KnowsStore(restore, s, s.tasks[t].pc);
  }

  /** After an `invalidate` the service's next calls do not answer from its cache: a
      load reads the store, and a provision takes a lock object of its own. */
  lemma ReadsAfterInvalidate(restore: Restore, s: State, u: TaskId, drawn: string)
    requires Locks(s) && u in s.tasks && (s.tasks[u].pc.ProvideStart? || s.tasks[u].pc.LoadStart?)
    ensures var s' := Next(restore, Next(restore, s, Invalidate(s.tasks[u].service)), Advance(u, drawn));
      && u in s'.tasks
      && if s.tasks[u].pc.LoadStart? then s'.tasks[u].pc == LoadReading
         else s'.tasks[u].pc.Waiting? && s'.tasks[u].pc.lock !in s.owner
              && forall v :: v in s.tasks && InFlight(s.tasks[v].pc) ==> s'.tasks[u].pc.lock != s.tasks[v].pc.lock
  {
    FreshLock(s);
    forall v | v in s.tasks && InFlight(s.tasks[v].pc) ensures s.tasks[v].pc.lock < s.locksMade {
      assert OwnsLock(s, v);
    }
  }

  // ---- Loads and signings end, with the right answer ----------------------------------------------

  /** A load or a signing that has read nothing but record r. */
  predicate Reader(pc: Pc, r: Record) {
    (pc.LoadStart? || pc.LoadReading? || pc.LoadFound? || pc.LoadedPublic? || pc.SignReading? || pc.SignFound?
     || pc.Signing?) && Sees(pc, r)
  }

  /** The steps a load or a signing has left. */
  function ReaderLeft(pc: Pc): nat {
    match pc
    case LoadStart => 3
    case LoadReading => 2
    case LoadFound(_) => 1
    case SignReading => 2
    case SignFound(_) => 1
    case _ => 0
  }

  predicate Loads(pc: Pc) {
    pc.LoadStart? || pc.LoadReading? || pc.LoadFound? || pc.LoadedPublic?
  }

  /** The own steps of task t among the actions. */
  function OwnSteps(actions: seq<Action>, t: TaskId): nat {
    if actions == [] then 0
    else OwnSteps(actions[..|actions| - 1], t)
         + if actions[|actions| - 1].Advance? && actions[|actions| - 1].t == t then 1 else 0
  }

  /** Neither task t nor its process fails. */
  ghost predicate Unharmed(actions: seq<Action>, t: TaskId) {
    forall i :: 0 <= i < |actions| ==> actions[i] != Crash && actions[i] != Fail(t)
  }

  /** Reader t, of the kind `loads`, has at most `left` steps to go. */
  ghost predicate ReaderAt(s: State, t: TaskId, r: Record, loads: bool, left: int) {
    && s.store == Some(r) && t in s.tasks && Reader(s.tasks[t].pc, r)
    && Loads(s.tasks[t].pc) == loads && ReaderLeft(s.tasks[t].pc) <= if left < 0 then 0 else left
  }

  lemma ReaderStep(restore: Restore, s: State, t: TaskId, drawn: string, r: Record, loads: bool, left: int)
    requires Inv(restore, s) && ReaderAt(s, t, r, loads, left)
    ensures ReaderAt(StepTask(restore, s, t, drawn), t, r, loads, left - 1)
  {
    StepSees(restore, s, t, drawn, r);
  }

  lemma NextReader(restore: Restore, s: State, a: Action, t: TaskId, r: Record, loads: bool, left: int)
    requires Inv(restore, s) && ReaderAt(s, t, r, loads, left) && a != Crash && a != Fail(t)
    ensures ReaderAt(Next(restore, s, a), t, r, loads, left - if a.Advance? && a.t == t then 1 else 0)
  {
    if a.Advance? && a.t == t {
      ReaderStep(restore, s, t, a.drawn, r, loads, left);
    } else {
      NextKeeps(restore, s, a);
      OthersKeepTask(restore, s, a, t);
    }
  }

  lemma OthersKeepTask(restore: Restore, s: State, a: Action, t: TaskId)
    requires t in s.tasks && a != Crash && a != Fail(t) && !(a.Advance? && a.t == t)
    ensures t in Next(restore, s, a).tasks && Next(restore, s, a).tasks[t] == s.tasks[t]
  {
    if a.Advance? && a.t in s.tasks {
      StepFrame(restore, s, a.t, a.drawn);
    }
  }

  lemma {:induction false} ReaderProgress(restore: Restore, s: State, more: seq<Action>, t: TaskId, r: Record,
                                          loads: bool, left: nat)
    requires Inv(restore, s) && ReaderAt(s, t, r, loads, left) && Unharmed(more, t)
    ensures Inv(restore, Follow(restore, s, more))
    ensures ReaderAt(Follow(restore, s, more), t, r, loads, left - OwnSteps(more, t))
    decreases |more|
  {
    if more != [] {
      var m := |more| - 1;
      ReaderProgress(restore, s, more[..m], t, r, loads, left);
      var s1 := Follow(restore, s, more[..m]);
      NextReader(restore, s1, more[m], t, r, loads, left - OwnSteps(more[..m], t));
      NextKeeps(restore, s1, more[m]);
    }
  }

  /** Progress: after a calm run that stored a record, a load or signing that has read
      nothing else and takes three steps of its own without failing ends with that
      record's key, whatever every other task does, fails or invalidates meanwhile. */
  lemma ReadersEnd(restore: Restore, actions: seq<Action>, more: seq<Action>, t: TaskId)
    requires Calm(restore, actions) && Unharmed(more, t)
    requires var s := Run(restore, actions); s.store.Some? && t in s.tasks && Reader(s.tasks[t].pc, s.store.value)
    requires OwnSteps(more, t) >= ReaderLeft(Run(restore, actions).tasks[t].pc)
    ensures var s, s' := Run(restore, actions), Run(restore, actions + more);
      && s'.store == s.store && t in s'.tasks
      && s'.tasks[t].pc == (if Loads(s.tasks[t].pc) then LoadedPublic(Some(s.store.value.pub))
                            else Signing(s.store.value.pub))
  {
    var s := Run(restore, actions);
    RunKeeps(restore, actions);
    var pc := s.tasks[t].pc;
    ReaderProgress(restore, s, more, t, s.store.value, Loads(pc), ReaderLeft(pc));
    FollowConcat(restore, INITIAL, actions, more);
  }

  // ---- No deadlock --------------------------------------------------------------------------------

  /** The steps a task has left, not counting waits. */
  function Left(pc: Pc): nat {
    match pc
    case ProvideStart => 7
    case Waiting(_) => 6
    case Reading(_) => 5
    case Found(_, _) => 4
    case Saving(_, _) => 3
    case Writing(_, _) => 2
    case Written(_, _) => 1
    case _ => ReaderLeft(pc)
  }

  lemma HolderStep(restore: Restore, s: State, u: TaskId)
    requires u in s.tasks && Holds(s.tasks[u].pc)
    ensures var s', pc := Next(restore, s, Advance(u, "")), s.tasks[u].pc;
      && OthersSame(s, s', u)
      && if Holds(s'.tasks[u].pc)
         then s'.owner == s.owner && s'.tasks[u].pc.lock == pc.lock && Left(s'.tasks[u].pc) < Left(pc)
         else s'.owner == s.owner - {pc.lock}
  {
    HoldFrame(restore, s, u, "");
  }

  /** A task inside the block leaves it by its own steps, and its lock is free. */
  lemma {:induction false} Leave(restore: Restore, s: State, u: TaskId) returns (more: seq<Action>)
    requires Locks(s) && u in s.tasks && Holds(s.tasks[u].pc)
    ensures Quiet(more)
    ensures var s' := Follow(restore, s, more);
      Locks(s') && OthersSame(s, s', u) && s'.owner == s.owner - {s.tasks[u].pc.lock}
    decreases Left(s.tasks[u].pc)
  {
    var a := Advance(u, "");
    var s1 := Next(restore, s, a);
    HolderStep(restore, s, u);
    NextKeepsLocks(restore, s, a);
    var rest := [];
    if Holds(s1.tasks[u].pc) {
      rest := Leave(restore, s1, u);
    }
    more := [a] + rest;
    FollowFirst(restore, s, a, rest);
  }

  /** A signing that found nothing, or will. */
  predicate Keyless(s: State, pc: Pc) {
    pc == SignFound(None) || (pc == SignReading && s.store.None?)
  }

  /** What a step of an unblocked task t does: it gets nearer its end, and fails or
      finds nothing only as a signing without a key. */
  predicate Nearer(s: State, s': State, t: TaskId)
    requires t in s.tasks
  {
    && t in s'.tasks && Left(s'.tasks[t].pc) < Left(s.tasks[t].pc)
    && (s'.tasks[t].pc.Failed? || Keyless(s', s'.tasks[t].pc) ==> Keyless(s, s.tasks[t].pc))
  }

  lemma FreeStep(restore: Restore, s: State, t: TaskId)
    requires t in s.tasks && !Finished(s.tasks[t].pc) && !Blocked(s, t)
    ensures Nearer(s, Next(restore, s, Advance(t, "")), t)
  {
    if Holds(s.tasks[t].pc) {
      HolderNearer(restore, s, t);
    } else if InFlight(s.tasks[t].pc) || s.tasks[t].pc.ProvideStart? {
      EntryNearer(restore, s, t);
    } else {
      ReaderNearer(restore, s, t);
    }
  }

  lemma HolderNearer(restore: Restore, s: State, t: TaskId)
    requires t in s.tasks && Holds(s.tasks[t].pc)
    ensures Nearer(s, Next(restore, s, Advance(t, "")), t)
  {
  }

  lemma EntryNearer(restore: Restore, s: State, t: TaskId)
    requires t in s.tasks && (s.tasks[t].pc.Waiting? || s.tasks[t].pc.ProvideStart?) && !Blocked(s, t)
    ensures Nearer(s, Next(restore, s, Advance(t, "")), t)
  {
  }

  lemma ReaderNearer(restore: Restore, s: State, t: TaskId)
    requires t in s.tasks && ReaderLeft(s.tasks[t].pc) > 0
    ensures Nearer(s, Next(restore, s, Advance(t, "")), t)
  {
  }

  lemma Unblock(restore: Restore, s: State, t: TaskId) returns (more: seq<Action>)
    requires Locks(s) && t in s.tasks && Blocked(s, t)
    ensures Quiet(more)
    ensures var s' := Follow(restore, s, more);
      Locks(s') && t in s'.tasks && s'.tasks[t] == s.tasks[t] && !Blocked(s', t)
  {
    var l := s.tasks[t].pc.lock;
    assert HeldBy(s, l);
    more := Leave(restore, s, s.owner[l]);
  }

  /** From any state with consistent locks every unfinished task can be brought to
      its end by steps alone; it fails only as a signing with no key to find. */
  lemma {:induction false} CanFinish(restore: Restore, s: State, t: TaskId) returns (more: seq<Action>)
    requires Locks(s) && t in s.tasks
    ensures Quiet(more)
    ensures var s' := Follow(restore, s, more);
      && t in s'.tasks && Finished(s'.tasks[t].pc)
      && (s'.tasks[t].pc.Failed? ==> s.tasks[t].pc.Failed? || Keyless(s, s.tasks[t].pc))
    decreases Left(s.tasks[t].pc), Blocked(s, t)
  {
    if Finished(s.tasks[t].pc) {
      more := [];
    } else if Blocked(s, t) {
      var first := Unblock(restore, s, t);
      var rest := CanFinish(restore, Follow(restore, s, first), t);
      more := first + rest;
      FollowConcat(restore, s, first, rest);
      QuietConcat(first, rest);
    } else {
      var a := Advance(t, "");
      FreeStep(restore, s, t);
      NextKeepsLocks(restore, s, a);
      var rest := CanFinish(restore, Next(restore, s, a), t);
      more := [a] + rest;
      FollowFirst(restore, s, a, rest);
    }
  }

  /** No deadlock: in every run, whatever was invalidated when, each unfinished call
      can still be answered without failures. */
  lemma NoDeadlock(restore: Restore, actions: seq<Action>, t: TaskId) returns (more: seq<Action>)
    requires t in Run(restore, actions).tasks
    ensures Quiet(more)
    ensures var s, s' := Run(restore, actions), Run(restore, actions + more);
      && t in s'.tasks && Finished(s'.tasks[t].pc)
      && (s'.tasks[t].pc.Failed? ==> s.tasks[t].pc.Failed? || Keyless(s, s.tasks[t].pc))
  {
    LocksAlways(restore, actions);
    more := CanFinish(restore, Run(restore, actions), t);
    FollowConcat(restore, INITIAL, actions, more);
  }
}
