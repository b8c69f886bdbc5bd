/** Issuer-key provisioning of zk_issuer_key.py for one credDef: tasks of any
    number of service instances, interleaved at every await. */
module KeyService {
  import opened Base

  type TaskId = nat
  type ServiceId = nat
  type LockId = nat
  type Public = (nat, nat)
  type Restore = string -> Public

  /** The persisted record: private key text and public coordinates. */
  datatype Record = Record(priv: string, pub: Public)

  /** Where a task stands between two atomic steps. */
  datatype Pc =
    // provision_public_key
    | ProvideStart
    | Waiting(lock: LockId)
    | Reading(lock: LockId)
    | Found(lock: LockId, found: Option<Record>)
    | Saving(lock: LockId, key: Record)
    | Writing(lock: LockId, key: Record)
    | Written(lock: LockId, key: Record)
    | Provided(pub: Public)
    // load_public_key
    | LoadStart
    | LoadReading
    | LoadFound(found: Option<Record>)
    | LoadedPublic(answer: Option<Public>)
    // with_private_key
    | SignReading
    | SignFound(found: Option<Record>)
    | Signing(pub: Public)
    | Failed

  datatype Task = Task(service: ServiceId, pc: Pc)

  /** The wallet record, each service's public cache, the shared lock table's
      entry, which task owns each lock object, the tasks, the number of lock
      objects made, and the history of generated keys and failures. */
  datatype State = State(store: Option<Record>, caches: map<ServiceId, Public>,
                         lock: Option<LockId>, owner: map<LockId, TaskId>, tasks: map<TaskId, Task>,
                         locksMade: nat, generated: seq<Record>, failures: nat)

  const INITIAL := State(None, map[], None, map[], map[], 0, [], 0)

  datatype Action =
    | SpawnProvide(t: TaskId, service: ServiceId)
    | SpawnLoad(t: TaskId, service: ServiceId)
    | SpawnSign(t: TaskId, service: ServiceId)
    | Advance(t: TaskId, drawn: string)
    | Fail(t: TaskId)
    | Invalidate(service: ServiceId)
    | Crash

  predicate InFlight(pc: Pc) {
    pc.Waiting? || Holds(pc)
  }

  predicate Holds(pc: Pc) {
    pc.Reading? || pc.Found? || pc.Saving? || pc.Writing? || pc.Written?
  }

  predicate Finished(pc: Pc) {
    pc.Provided? || pc.LoadedPublic? || pc.Signing? || pc.Failed?
  }

  function Goto(s: State, t: TaskId, pc: Pc): State
    requires t in s.tasks
  {
    s.(tasks := s.tasks[t := s.tasks[t].(pc := pc)])
  }

  function Release(s: State, l: LockId): State {
    s.(owner := s.owner - {l})
  }

  /** Leaving the lock's block with an answer. */
  function Answer(s: State, t: TaskId, l: LockId, pub: Public): State
    requires t in s.tasks
  {
    Goto(Release(s.(caches := s.caches[s.tasks[t].service := pub]), l), t, Provided(pub))
  }

  /** One atomic step of a task, up to its next await; `drawn` is the private key
      `generate_issuer_key` would draw. */
  function StepTask(restore: Restore, s: State, t: TaskId, drawn: string): State
    requires t in s.tasks
  {
    var svc, pc := s.tasks[t].service, s.tasks[t].pc;
    match pc
    case ProvideStart =>
      if svc in s.caches then Goto(s, t, Provided(s.caches[svc]))
      else if s.lock.Some? then Goto(s, t, Waiting(s.lock.value))
      else Goto(s.(lock := Some(s.locksMade), locksMade := s.locksMade + 1), t, Waiting(s.locksMade))
    case Waiting(l) =>
      if l in s.owner then s
      else if svc in s.caches then Goto(s, t, Provided(s.caches[svc]))
      else Goto(s.(owner := s.owner[l := t]), t, Reading(l))
    case Reading(l) => Goto(s, t, Found(l, s.store))
    case Found(l, found) =>
      if found.Some? then Answer(s, t, l, found.value.pub)
      else
        var key := Record(drawn, restore(drawn));
        Goto(s.(generated := s.generated + [key]), t, Saving(l, key))
    case Saving(l, key) => Goto(s, t, Writing(l, key))
    case Writing(l, key) => Goto(s.(store := Some(key)), t, Written(l, key))
    case Written(l, key) => Answer(s, t, l, key.pub)
    case LoadStart =>
      if svc in s.caches then Goto(s, t, LoadedPublic(Some(s.caches[svc]))) else Goto(s, t, LoadReading)
    case LoadReading => Goto(s, t, LoadFound(s.store))
    case LoadFound(found) =>
      if found.None? then Goto(s, t, LoadedPublic(None))
      else Goto(s.(caches := s.caches[svc := found.value.pub]), t, LoadedPublic(Some(found.value.pub)))
    case SignReading => Goto(s, t, SignFound(s.store))
    case SignFound(found) =>
      if found.None? then Goto(s, t, Failed) else Goto(s, t, Signing(restore(found.value.priv)))
    case _ => s
  }

  /** A task fails at an await; leaving `async with` releases its lock. */
  function FailTask(s: State, t: TaskId): State
    requires t in s.tasks
  {
    var pc := s.tasks[t].pc;
    var s' := if Holds(pc) then Release(s, pc.lock) else s;
    Goto(s', t, Failed).(failures := s.failures + 1)
  }

  function Next(restore: Restore, s: State, a: Action): State {
    match a
    case SpawnProvide(t, svc) => if t in s.tasks then s else s.(tasks := s.tasks[t := Task(svc, ProvideStart)])
    case SpawnLoad(t, svc) => if t in s.tasks then s else s.(tasks := s.tasks[t := Task(svc, LoadStart)])
    case SpawnSign(t, svc) => if t in s.tasks then s else s.(tasks := s.tasks[t := Task(svc, SignReading)])
    case Advance(t, drawn) => if t in s.tasks then StepTask(restore, s, t, drawn) else s
    case Fail(t) => if t in s.tasks && !Finished(s.tasks[t].pc) then FailTask(s, t) else s
    case Invalidate(svc) => s.(caches := s.caches - {svc}, lock := None)
    case Crash => s.(caches := map[], lock := None, owner := map[], tasks := map[], failures := s.failures + 1)
  }

  /** The state after more actions. */
  function Follow(restore: Restore, s: State, actions: seq<Action>): State {
    if actions == [] then s
    else Next(restore, Follow(restore, s, actions[..|actions| - 1]), actions[|actions| - 1])
  }

  function Run(restore: Restore, actions: seq<Action>): State {
    Follow(restore, INITIAL, actions)
  }

  lemma FollowLast(restore: Restore, s: State, actions: seq<Action>, a: Action)
    ensures Follow(restore, s, actions + [a]) == Next(restore, Follow(restore, s, actions), a)
  {
    assert (actions + [a])[..|actions|] == actions;
  }

  lemma {:induction false} FollowConcat(restore: Restore, s: State, a: seq<Action>, b: seq<Action>)
    ensures Follow(restore, s, a + b) == Follow(restore, Follow(restore, s, a), b)
    decreases |b|
  {
    if b == [] {
      assert a + b == a;
    } else {
      var init, x := b[..|b| - 1], b[|b| - 1];
      FollowConcat(restore, s, a, init);
      FollowLast(restore, s, a + init, x);
      FollowLast(restore, Follow(restore, s, a), init, x);
      assert b == init + [x] && a + b == (a + init) + [x];
    }
  }

  lemma FollowFirst(restore: Restore, s: State, a: Action, more: seq<Action>)
    ensures Follow(restore, s, [a] + more) == Follow(restore, Next(restore, s, a), more)
  {
    FollowConcat(restore, s, [a], more);
    assert [a][..0] == [];
    assert Follow(restore, s, [a]) == Next(restore, Follow(restore, s, []), a);
  }

  predicate OthersSame(s: State, s': State, u: TaskId) {
    s'.tasks.Keys == s.tasks.Keys && forall v :: v in s.tasks && v != u ==> s'.tasks[v] == s.tasks[v]
  }

  /** What a step does to the lock table: nothing, or a new entry for its task. */
  predicate TableEffect(s: State, s': State, pc: Pc, pc': Pc) {
    || (s'.lock == s.lock && s'.locksMade == s.locksMade)
    || (s.lock.None? && s'.lock == Some(s.locksMade) && s'.locksMade == s.locksMade + 1 && pc' == Waiting(s.locksMade))
  }

  /** What a step does to lock ownership: nothing, an acquisition or a release. */
  predicate OwnerEffect(s: State, s': State, t: TaskId, pc: Pc, pc': Pc) {
    || (s'.owner == s.owner && Holds(pc') == Holds(pc) && (Holds(pc) ==> pc'.lock == pc.lock))
    || (pc.Waiting? && pc.lock !in s.owner && s'.owner == s.owner[pc.lock := t] && pc' == Reading(pc.lock))
    || (Holds(pc) && s'.owner == s.owner - {pc.lock} && !InFlight(pc'))
  }

  /** What a step does to everything but the caches and the history. */
  predicate Effect(s: State, s': State, t: TaskId) {
    t in s.tasks && OthersSame(s, s', t)
    && var pc, pc' := s.tasks[t].pc, s'.tasks[t].pc;
      && TableEffect(s, s', pc, pc') && OwnerEffect(s, s', t, pc, pc')
      && (InFlight(pc') ==> (InFlight(pc) && pc'.lock == pc.lock) || s'.lock == Some(pc'.lock))
      && (s'.store == s.store || (pc.Writing? && s'.store == Some(pc.key) && pc' == Written(pc.lock, pc.key)))
  }

  lemma ProvideFrame(restore: Restore, s: State, t: TaskId, drawn: string)
    requires t in s.tasks && (s.tasks[t].pc.ProvideStart? || s.tasks[t].pc.Waiting?)
    ensures OthersSame(s, StepTask(restore, s, t, drawn), t)
  {
  }

  lemma HoldFrame(restore: Restore, s: State, t: TaskId, drawn: string)
    requires t in s.tasks && Holds(s.tasks[t].pc)
    ensures OthersSame(s, StepTask(restore, s, t, drawn), t)
  {
  }

  lemma StepFrame(restore: Restore, s: State, t: TaskId, drawn: string)
    requires t in s.tasks
    ensures OthersSame(s, StepTask(restore, s, t, drawn), t)
  {
    if s.tasks[t].pc.ProvideStart? || s.tasks[t].pc.Waiting? {
      ProvideFrame(restore, s, t, drawn);
    } else if Holds(s.tasks[t].pc) {
      HoldFrame(restore, s, t, drawn);
    }
  }

  lemma StepOwner(restore: Restore, s: State, t: TaskId, drawn: string)
    requires t in s.tasks
    ensures var s' := StepTask(restore, s, t, drawn);
      t in s'.tasks && OwnerEffect(s, s', t, s.tasks[t].pc, s'.tasks[t].pc)
  {
    var s', pc := StepTask(restore, s, t, drawn), s.tasks[t].pc;
    if pc.Written? || (pc.Found? && pc.found.Some?) {
      assert s'.owner == s.owner - {pc.lock};
    } else if !pc.Waiting? {
      assert s'.owner == s.owner;
    }
  }

  lemma StepEffect(restore: Restore, s: State, t: TaskId, drawn: string)
    requires t in s.tasks
    ensures Effect(s, StepTask(restore, s, t, drawn), t)
  {
    StepFrame(restore, s, t, drawn);
    StepOwner(restore, s, t, drawn);
  }

  predicate NoneInFlight(s: State) {
    forall t :: t in s.tasks ==> !InFlight(s.tasks[t].pc)
  }

  /** Every `invalidate` finds no provision in flight, or a record already stored. */
  ghost predicate Calm(restore: Restore, actions: seq<Action>) {
    forall i :: 0 <= i < |actions| && actions[i].Invalidate? ==>
      NoneInFlight(Run(restore, actions[..i])) || Run(restore, actions[..i]).store.Some?
  }

  /** Every `invalidate` finds no provision in flight. */
  ghost predicate Undisturbed(restore: Restore, actions: seq<Action>) {
    forall i :: 0 <= i < |actions| && actions[i].Invalidate? ==> NoneInFlight(Run(restore, actions[..i]))
  }

  lemma CalmPrefix(restore: Restore, actions: seq<Action>, n: nat)
    requires n <= |actions|
    ensures Calm(restore, actions) ==> Calm(restore, actions[..n])
    ensures Undisturbed(restore, actions) ==> Undisturbed(restore, actions[..n])
  {
    assert forall i :: 0 <= i < n ==> actions[..n][..i] == actions[..i];
  }

  // ---- Lock objects, in every run -------------------------------------------------------

  /** A task inside the block owns its lock object. */
  ghost predicate OwnsLock(s: State, t: TaskId)
    requires t in s.tasks
  {
    var pc := s.tasks[t].pc;
    && (InFlight(pc) ==> pc.lock < s.locksMade)
    && (Holds(pc) ==> pc.lock in s.owner && s.owner[pc.lock] == t)
  }

  /** An owned lock object is held by a live task inside its block. */
  ghost predicate HeldBy(s: State, l: LockId)
    requires l in s.owner
  {
    l < s.locksMade && s.owner[l] in s.tasks
    && Holds(s.tasks[s.owner[l]].pc) && s.tasks[s.owner[l]].pc.lock == l
  }

  ghost predicate Locks(s: State) {
    && (s.lock.Some? ==> s.lock.value < s.locksMade)
    && (forall t :: t in s.tasks ==> OwnsLock(s, t))
    && (forall l :: l in s.owner ==> HeldBy(s, l))
  }

  lemma EffectKeepsLocks(s: State, s': State, t: TaskId)
    requires Locks(s) && Effect(s, s', t)
    ensures Locks(s')
  {
    assert OwnsLock(s, t);
    forall u | u in s'.tasks ensures OwnsLock(s', u) {
      if u != t {
        assert OwnsLock(s, u);
      }
    }
    forall l | l in s'.owner ensures HeldBy(s', l) {
      if l in s.owner {
        assert HeldBy(s, l);
      }
    }
  }

  lemma FailKeepsLocks(s: State, t: TaskId)
    requires Locks(s) && t in s.tasks
    ensures Locks(FailTask(s, t))
  {
    var s' := FailTask(s, t);
    assert OwnsLock(s, t);
    forall u | u in s'.tasks ensures OwnsLock(s', u) {
      if u != t {
        assert OwnsLock(s, u);
      }
    }
    forall l | l in s'.owner ensures HeldBy(s', l) {
      assert HeldBy(s, l);
    }
  }

  lemma SpawnKeepsLocks(s: State, t: TaskId, task: Task)
    requires Locks(s) && t !in s.tasks && !InFlight(task.pc)
    ensures Locks(s.(tasks := s.tasks[t := task]))
  {
    var s' := s.(tasks := s.tasks[t := task]);
    forall u | u in s'.tasks ensures OwnsLock(s', u) {
      if u != t {
        assert OwnsLock(s, u);
      }
    }
    forall l | l in s'.owner ensures HeldBy(s', l) {
      assert HeldBy(s, l);
    }
  }

  lemma NextKeepsLocks(restore: Restore, s: State, a: Action)
    requires Locks(s)
    ensures Locks(Next(restore, s, a))
  {
    match a
    case SpawnProvide(t, svc) => if t !in s.tasks { SpawnKeepsLocks(s, t, Task(svc, ProvideStart)); }
    case SpawnLoad(t, svc) => if t !in s.tasks { SpawnKeepsLocks(s, t, Task(svc, LoadStart)); }
    case SpawnSign(t, svc) => if t !in s.tasks { SpawnKeepsLocks(s, t, Task(svc, SignReading)); }
    case Advance(t, drawn) =>
      if t in s.tasks {
        StepEffect(restore, s, t, drawn);
        EffectKeepsLocks(s, StepTask(restore, s, t, drawn), t);
      }
    case Fail(t) => if t in s.tasks { FailKeepsLocks(s, t); }
    case Invalidate(svc) =>
      var s' := Next(restore, s, a);
      assert forall u :: u in s'.tasks ==> OwnsLock(s, u);
      assert forall l :: l in s'.owner ==> HeldBy(s, l);
    case Crash =>
  }

  /** Lock objects are consistent in every run, whatever is invalidated when. */
  lemma {:induction false} LocksAlways(restore: Restore, actions: seq<Action>)
    ensures Locks(Run(restore, actions))
  {
    if actions != [] {
      LocksAlways(restore, actions[..|actions| - 1]);
      NextKeepsLocks(restore, Run(restore, actions[..|actions| - 1]), actions[|actions| - 1]);
    }
  }

  // ---- One lock for all -------------------------------------------------------------------

  /** Every in-flight task uses the lock of the table. */
  ghost predicate Shared(s: State) {
    forall t :: t in s.tasks && InFlight(s.tasks[t].pc) ==> s.lock == Some(s.tasks[t].pc.lock)
  }

  lemma InsideOnce(s: State, t: TaskId, u: TaskId)
    requires Locks(s) && Shared(s) && t in s.tasks && u in s.tasks && Holds(s.tasks[t].pc) && Holds(s.tasks[u].pc)
    ensures t == u
  {
    assert OwnsLock(s, t) && OwnsLock(s, u);
  }

  lemma EffectKeepsShared(s: State, s': State, t: TaskId)
    requires Shared(s) && Effect(s, s', t)
    ensures Shared(s')
  {
  }

  lemma NextKeepsShared(restore: Restore, s: State, a: Action)
    requires Shared(s) && (a.Invalidate? ==> NoneInFlight(s))
    ensures Shared(Next(restore, s, a))
  {
    if a.Advance? && a.t in s.tasks {
      StepEffect(restore, s, a.t, a.drawn);
      EffectKeepsShared(s, StepTask(restore, s, a.t, a.drawn), a.t);
    }
  }

  lemma {:induction false} SharedWhenUndisturbed(restore: Restore, actions: seq<Action>)
    requires Undisturbed(restore, actions)
    ensures Shared(Run(restore, actions))
  {
    if actions != [] {
      var n := |actions| - 1;
      CalmPrefix(restore, actions, n);
      SharedWhenUndisturbed(restore, actions[..n]);
      NextKeepsShared(restore, Run(restore, actions[..n]), actions[n]);
    }
  }

  // ---- What tasks know of the store --------------------------------------------------------

  /** The stored record, if any, has this public key. */
  predicate Stored(s: State, pub: Public) {
    s.store.Some? && s.store.value.pub == pub
  }

  /** What a task knows about the store. */
  ghost predicate KnowsStore(restore: Restore, s: State, pc: Pc) {
    match pc
    case Found(_, found) => found == s.store
    case Saving(_, key) => s.store.None? && key.pub == restore(key.priv)
    case Writing(_, key) => s.store.None? && key.pub == restore(key.priv)
    case Written(_, key) => s.store == Some(key)
    case Provided(pub) => Stored(s, pub)
    case LoadFound(found) => found.Some? ==> found == s.store
    case LoadedPublic(answer) => answer.Some? ==> Stored(s, answer.value)
    case SignFound(found) => found.Some? ==> found == s.store
    case Signing(pub) => Stored(s, pub)
    case _ => true
  }

  /** While nothing is stored all in-flight tasks share one lock; afterwards no
      task holds a key of its own. */
  ghost predicate Inv(restore: Restore, s: State) {
    && Locks(s) && (s.store.None? ==> Shared(s))
    && (s.store.Some? ==> s.store.value.pub == restore(s.store.value.priv))
    && (forall svc :: svc in s.caches ==> Stored(s, s.caches[svc]))
    && (forall t :: t in s.tasks ==> KnowsStore(restore, s, s.tasks[t].pc))
  }

  lemma StepKeepsStore(restore: Restore, s: State, t: TaskId, drawn: string)
    requires Inv(restore, s) && t in s.tasks
    ensures var s' := StepTask(restore, s, t, drawn);
      && (s.store.Some? ==> s'.store == s.store)
      && (s'.store.Some? ==> s'.store.value.pub == restore(s'.store.value.priv))
  {
    assert KnowsStore(restore, s, s.tasks[t].pc);
    StepEffect(restore, s, t, drawn);
  }

  lemma StepKnows(restore: Restore, s: State, t: TaskId, drawn: string)
    requires t in s.tasks && KnowsStore(restore, s, s.tasks[t].pc)
    requires s.store.Some? ==> s.store.value.pub == restore(s.store.value.priv)
    requires s.tasks[t].service in s.caches ==> Stored(s, s.caches[s.tasks[t].service])
    ensures var s' := StepTask(restore, s, t, drawn); t in s'.tasks && KnowsStore(restore, s', s'.tasks[t].pc)
  {
    var s', pc := StepTask(restore, s, t, drawn), s.tasks[t].pc;
    match pc
    case Found(l, found) =>
      assert s'.tasks[t].pc
          == if found.Some? then Provided(found.value.pub) else Saving(l, Record(drawn, restore(drawn)));
    case Written(l, key) => assert s'.tasks[t].pc == Provided(key.pub);
    case LoadFound(found) => assert s'.tasks[t].pc == LoadedPublic(if found.Some? then Some(found.value.pub) else None);
    case SignFound(found) => assert s'.tasks[t].pc.Failed? || s'.tasks[t].pc == Signing(restore(found.value.priv));
    case _ =>
  }

  lemma StepKeepsCaches(restore: Restore, s: State, t: TaskId, drawn: string)
    requires Inv(restore, s) && t in s.tasks
    ensures var s' := StepTask(restore, s, t, drawn); forall svc :: svc in s'.caches ==> Stored(s', s'.caches[svc])
  {
    assert KnowsStore(restore, s, s.tasks[t].pc);
  }

  lemma EffectKeepsOthers(restore: Restore, s: State, s': State, t: TaskId, u: TaskId)
    requires Inv(restore, s) && Effect(s, s', t) && u in s.tasks && u != t
    ensures u in s'.tasks && s'.tasks[u] == s.tasks[u] && KnowsStore(restore, s', s.tasks[u].pc)
  {
    assert KnowsStore(restore, s, s.tasks[u].pc) && KnowsStore(restore, s, s.tasks[t].pc);
    if s.store.None? && Holds(s.tasks[t].pc) && Holds(s.tasks[u].pc) {
      InsideOnce(s, t, u);
      assert false;
    }
  }

  lemma EffectKeeps(restore: Restore, s: State, s': State, t: TaskId)
    requires Inv(restore, s) && Effect(s, s', t)
    requires s'.store.Some? ==> s'.store.value.pub == restore(s'.store.value.priv)
    requires s.store.Some? ==> s'.store == s.store
    requires forall svc :: svc in s'.caches ==> Stored(s', s'.caches[svc])
    requires KnowsStore(restore, s', s'.tasks[t].pc)
    ensures Inv(restore, s')
  {
    EffectKeepsLocks(s, s', t);
    if s.store.None? {
      EffectKeepsShared(s, s', t);
    }
    forall u | u in s'.tasks ensures KnowsStore(restore, s', s'.tasks[u].pc) {
      if u != t {
        EffectKeepsOthers(restore, s, s', t, u);
      }
    }
  }

  lemma StepKeeps(restore: Restore, s: State, t: TaskId, drawn: string)
    requires Inv(restore, s) && t in s.tasks
    ensures Inv(restore, StepTask(restore, s, t, drawn))
    ensures s.store.Some? ==> StepTask(restore, s, t, drawn).store == s.store
  {
    StepEffect(restore, s, t, drawn);
    StepKeepsStore(restore, s, t, drawn);
    StepKnows(restore, s, t, drawn);
    StepKeepsCaches(restore, s, t, drawn);
    EffectKeeps(restore, s, StepTask(restore, s, t, drawn), t);
  }

  lemma NextKeeps(restore: Restore, s: State, a: Action)
    requires Inv(restore, s) && (a.Invalidate? ==> NoneInFlight(s) || s.store.Some?)
    ensures Inv(restore, Next(restore, s, a))
    ensures s.store.Some? ==> Next(restore, s, a).store == s.store
  {
    if a.Advance? {
      if a.t in s.tasks {
        StepKeeps(restore, s, a.t, a.drawn);
      }
    } else {
      NextKeepsLocks(restore, s, a);
      if s.store.None? {
        NextKeepsShared(restore, s, a);
      }
      OtherKeeps(restore, s, a);
    }
  }

  /** Spawns, failures, invalidations and crashes only start tasks, end them or fail them. */
  lemma OtherEffect(restore: Restore, s: State, a: Action)
    requires !a.Advance?
    ensures var s' := Next(restore, s, a);
      && s'.store == s.store && (forall svc :: svc in s'.caches ==> svc in s.caches && s'.caches[svc] == s.caches[svc])
      && forall t :: t in s'.tasks ==> Unknowing(s'.tasks[t].pc) || (t in s.tasks && s'.tasks[t] == s.tasks[t])
  {
  }

  predicate Unknowing(pc: Pc) {
    pc.ProvideStart? || pc.LoadStart? || pc.SignReading? || pc.Failed?
  }

  lemma OtherKeeps(restore: Restore, s: State, a: Action)
    requires Inv(restore, s) && !a.Advance?
    ensures var s' := Next(restore, s, a);
      && s'.store == s.store && (forall svc :: svc in s'.caches ==> Stored(s', s'.caches[svc]))
      && (forall t :: t in s'.tasks ==> KnowsStore(restore, s', s'.tasks[t].pc))
  {
    OtherEffect(restore, s, a);
    SameStoreKeeps(restore, s, Next(restore, s, a));
  }

  lemma SameStoreKeeps(restore: Restore, s: State, s': State)
    requires Inv(restore, s) && s'.store == s.store
    requires forall svc :: svc in s'.caches ==> svc in s.caches && s'.caches[svc] == s.caches[svc]
    requires forall t :: t in s'.tasks ==> Unknowing(s'.tasks[t].pc) || (t in s.tasks && s'.tasks[t] == s.tasks[t])
    ensures forall svc :: svc in s'.caches ==> Stored(s', s'.caches[svc])
    ensures forall t :: t in s'.tasks ==> KnowsStore(restore, s', s'.tasks[t].pc)
  {
    forall t | t in s'.tasks ensures KnowsStore(restore, s', s'.tasks[t].pc) {
      assert !Unknowing(s'.tasks[t].pc) ==> KnowsStore(restore, s, s.tasks[t].pc);
    }
  }

  lemma {:induction false} RunKeeps(restore: Restore, actions: seq<Action>)
    requires Calm(restore, actions)
    ensures Inv(restore, Run(restore, actions))
  {
    if actions != [] {
      var n := |actions| - 1;
      CalmPrefix(restore, actions, n);
      RunKeeps(restore, actions[..n]);
      NextKeeps(restore, Run(restore, actions[..n]), actions[n]);
    }
  }

  // ---- Results ---------------------------------------------------------------------------

  /** Two tasks inside the block are one task: in every run if they entered by the
      same lock object, while nothing is stored in every calm run, and always in
      runs without an `invalidate` in flight. */
  lemma MutualExclusion(restore: Restore, actions: seq<Action>, t: TaskId, u: TaskId)
    requires var s := Run(restore, actions);
      t in s.tasks && u in s.tasks && Holds(s.tasks[t].pc) && Holds(s.tasks[u].pc)
    ensures Run(restore, actions).tasks[t].pc.lock == Run(restore, actions).tasks[u].pc.lock ==> t == u
    ensures Calm(restore, actions) && Run(restore, actions).store.None? ==> t == u
    ensures Undisturbed(restore, actions) ==> t == u
  {
    var s := Run(restore, actions);
    LocksAlways(restore, actions);
    assert OwnsLock(s, t) && OwnsLock(s, u);
    if Calm(restore, actions) && s.store.None? {
      RunKeeps(restore, actions);
      InsideOnce(s, t, u);
    }
    if Undisturbed(restore, actions) {
      SharedWhenUndisturbed(restore, actions);
      InsideOnce(s, t, u);
    }
  }

  /** The public key a task returned or signs with. */
  function PublicOf(pc: Pc): Option<Public> {
    match pc
    case Provided(pub) => Some(pub)
    case LoadedPublic(answer) => answer
    case Signing(pub) => Some(pub)
    case _ => None
  }

  /** Every answer given is the public half of the stored record. */
  ghost predicate Agreed(s: State) {
    forall t :: t in s.tasks && PublicOf(s.tasks[t].pc).Some? ==> AnswerStored(s, s.tasks[t].pc)
  }

  predicate AnswerStored(s: State, pc: Pc) {
    s.store.Some? && PublicOf(pc) == Some(s.store.value.pub)
  }

  /** In every interleaving all callers of all instances get the same key, the
      one whose private half is stored. */
  lemma AllCallersAgree(restore: Restore, actions: seq<Action>)
    requires Calm(restore, actions)
    ensures Agreed(Run(restore, actions))
    ensures var s := Run(restore, actions); s.store.Some? ==> s.store.value.pub == restore(s.store.value.priv)
  {
    RunKeeps(restore, actions);
    var s := Run(restore, actions);
    forall t | t in s.tasks && PublicOf(s.tasks[t].pc).Some? ensures AnswerStored(s, s.tasks[t].pc) {
      assert KnowsStore(restore, s, s.tasks[t].pc);
    }
  }

  /** Once stored, the record never changes, through failures and crashes alike. */
  lemma {:induction false} StoredForGood(restore: Restore, actions: seq<Action>, n: nat)
    requires Calm(restore, actions) && n <= |actions| && Run(restore, actions[..n]).store.Some?
    ensures Run(restore, actions).store == Run(restore, actions[..n]).store
    decreases |actions|
  {
    if n == |actions| {
      assert actions[..n] == actions;
    } else {
      var m := |actions| - 1;
      CalmPrefix(restore, actions, m);
      assert actions[..m][..n] == actions[..n];
      StoredForGood(restore, actions[..m], n);
      RunKeeps(restore, actions[..m]);
      NextKeeps(restore, Run(restore, actions[..m]), actions[m]);
    }
  }

  /** Some task holds a generated key that is not yet written. */
  ghost predicate KeyInHand(s: State) {
    exists t :: t in s.tasks && HasKey(s.tasks[t].pc)
  }

  /** Beyond one, every generated key is paid for by a failure or a crash. */
  ghost predicate CountOk(s: State) {
    |s.generated| <= s.failures + if s.store.Some? || KeyInHand(s) then 1 else 0
  }

  predicate HasKey(pc: Pc) {
    pc.Saving? || pc.Writing?
  }

  lemma StepCounts(restore: Restore, s: State, t: TaskId, drawn: string)
    requires Inv(restore, s) && CountOk(s) && t in s.tasks
    ensures CountOk(StepTask(restore, s, t, drawn))
  {
    var s', pc := StepTask(restore, s, t, drawn), s.tasks[t].pc;
    StepKeepsStore(restore, s, t, drawn);
    assert KnowsStore(restore, s, pc);
    if s.store.None? && KeyInHand(s) {
      var u :| u in s.tasks && HasKey(s.tasks[u].pc);
      if u != t {
        StepEffect(restore, s, t, drawn);
        EffectKeepsOthers(restore, s, s', t, u);
        if Holds(pc) {
          InsideOnce(s, t, u);
        }
        assert HasKey(s'.tasks[u].pc);
      } else if pc.Saving? {
        assert HasKey(s'.tasks[t].pc);
      }
    } else if pc.Found? && pc.found.None? {
      assert HasKey(s'.tasks[t].pc);
    }
  }

  lemma NextCounts(restore: Restore, s: State, a: Action)
    requires Inv(restore, s) && CountOk(s) && (a.Invalidate? ==> NoneInFlight(s) || s.store.Some?)
    ensures CountOk(Next(restore, s, a))
  {
    var s' := Next(restore, s, a);
    if a.Advance? && a.t in s.tasks {
      StepCounts(restore, s, a.t, a.drawn);
    } else if s'.failures == s.failures && KeyInHand(s) {
      var u :| u in s.tasks && HasKey(s.tasks[u].pc);
      assert u in s'.tasks && HasKey(s'.tasks[u].pc);
    }
  }

  /** Single flight: no more keys are generated than failures plus one; with no
      failure, at most one. */
  lemma {:induction false} AtMostOneKey(restore: Restore, actions: seq<Action>)
    requires Calm(restore, actions)
    ensures CountOk(Run(restore, actions)) && |Run(restore, actions).generated| <= Run(restore, actions).failures + 1
  {
    if actions != [] {
      var n := |actions| - 1;
      CalmPrefix(restore, actions, n);
      AtMostOneKey(restore, actions[..n]);
      RunKeeps(restore, actions[..n]);
      NextCounts(restore, Run(restore, actions[..n]), actions[n]);
    }
  }

  // ---- Exactly when invalidation is safe -----------------------------------------------------

  /** Only spawns and steps: no failure, no crash, no further `invalidate`. */
  ghost predicate Quiet(actions: seq<Action>) {
    forall a :: a in actions ==> a.SpawnProvide? || a.SpawnLoad? || a.SpawnSign? || a.Advance?
  }

  function Rank(pc: Pc): nat {
    match pc
    case Waiting(_) => 3
    case Reading(_) => 2
    case Found(_, _) => 1
    case _ => 0
  }

  /** A state from which a provision can only end with a key of its own. */
  predicate Bare(s: State) {
    s.store.None? && s.caches == map[]
  }

  /** In flight with nothing found, and not behind another task. */
  predicate Leads(s: State, u: TaskId) {
    && u in s.tasks && InFlight(s.tasks[u].pc) && !s.tasks[u].pc.Written?
    && (s.tasks[u].pc.Waiting? ==> s.tasks[u].pc.lock !in s.owner)
    && (s.tasks[u].pc.Found? ==> s.tasks[u].pc.found.None?)
  }

  lemma LeadStep(restore: Restore, s: State, u: TaskId, priv: string)
    requires Bare(s) && Leads(s, u) && !HasKey(s.tasks[u].pc)
    ensures var s' := Next(restore, s, Advance(u, priv));
      Bare(s') && Leads(s', u) && OthersSame(s, s', u) && s'.lock == s.lock
      && Rank(s'.tasks[u].pc) < Rank(s.tasks[u].pc)
      && (HasKey(s'.tasks[u].pc) ==> s'.tasks[u].pc.key == Record(priv, restore(priv)))
  {
  }

  /** With nothing stored or cached, an in-flight task whose lock it owns or nobody
      owns goes on to hold a key: the one it has, or the one it draws. */
  lemma {:induction false} TakeKey(restore: Restore, s: State, u: TaskId, priv: string) returns (more: seq<Action>)
    requires Locks(s) && Bare(s) && Leads(s, u)
    ensures Quiet(more)
    ensures var s' := Follow(restore, s, more);
      Locks(s') && Bare(s') && OthersSame(s, s', u) && HasKey(s'.tasks[u].pc) && s'.lock == s.lock
      && (if HasKey(s.tasks[u].pc) then s'.tasks[u] == s.tasks[u]
          else s'.tasks[u].pc.key == Record(priv, restore(priv)))
    decreases Rank(s.tasks[u].pc)
  {
    if HasKey(s.tasks[u].pc) {
      more := [];
    } else {
      var a := Advance(u, priv);
      LeadStep(restore, s, u, priv);
      NextKeepsLocks(restore, s, a);
      var rest := TakeKey(restore, Next(restore, s, a), u, priv);
      more := [a] + rest;
      FollowFirst(restore, s, a, rest);
    }
  }

  function StepsLeft(pc: Pc): nat {
    match pc
    case Saving(_, _) => 3
    case Writing(_, _) => 2
    case Written(_, _) => 1
    case _ => 0
  }

  /** A task that holds a key writes it and answers with it, whatever is stored. */
  lemma {:induction false} FinishKey(restore: Restore, s: State, u: TaskId) returns (more: seq<Action>)
    requires u in s.tasks && StepsLeft(s.tasks[u].pc) > 0
    ensures Quiet(more)
    ensures var s' := Follow(restore, s, more);
      OthersSame(s, s', u) && s'.tasks[u].pc == Provided(s.tasks[u].pc.key.pub)
    decreases StepsLeft(s.tasks[u].pc)
  {
    var a := Advance(u, "");
    var s1 := Next(restore, s, a);
    if s.tasks[u].pc.Written? {
      more := [a];
      FollowFirst(restore, s, a, []);
      assert [a] + [] == [a];
    } else {
      var rest := FinishKey(restore, s1, u);
      more := [a] + rest;
      FollowFirst(restore, s, a, rest);
    }
  }

  lemma FreshLock(s: State)
    requires Locks(s)
    ensures s.locksMade !in s.owner
  {
    assert s.locksMade in s.owner ==> HeldBy(s, s.locksMade);
  }

  /** A new task, with the table empty, waits for a lock of its own. */
  lemma NewLeads(restore: Restore, s: State, v: TaskId, svc: ServiceId, priv: string) returns (s2: State)
    requires Locks(s) && Bare(s) && s.lock.None? && v !in s.tasks
    ensures s2 == Next(restore, Next(restore, s, SpawnProvide(v, svc)), Advance(v, priv))
    ensures Locks(s2) && Bare(s2) && Leads(s2, v) && !HasKey(s2.tasks[v].pc)
    ensures s2.tasks.Keys == s.tasks.Keys + {v} && forall u :: u in s.tasks ==> s2.tasks[u] == s.tasks[u]
  {
    var s1 := Next(restore, s, SpawnProvide(v, svc));
    NextKeepsLocks(restore, s, SpawnProvide(v, svc));
    s2 := Next(restore, s1, Advance(v, priv));
    NextKeepsLocks(restore, s1, Advance(v, priv));
    FreshLock(s1);
  }

  /** It goes on to hold its own key. */
  lemma NewProvision(restore: Restore, s: State, v: TaskId, svc: ServiceId, priv: string) returns (more: seq<Action>)
    requires Locks(s) && Bare(s) && s.lock.None? && v !in s.tasks
    ensures Quiet(more)
    ensures var s' := Follow(restore, s, more);
      s'.tasks.Keys == s.tasks.Keys + {v} && (forall u :: u in s.tasks ==> s'.tasks[u] == s.tasks[u])
      && HasKey(s'.tasks[v].pc) && s'.tasks[v].pc.key == Record(priv, restore(priv))
  {
    var a, b := SpawnProvide(v, svc), Advance(v, priv);
    var s2 := NewLeads(restore, s, v, svc, priv);
    var rest := TakeKey(restore, s2, v, priv);
    more := [a] + ([b] + rest);
    FollowFirst(restore, s, a, [b] + rest);
    FollowFirst(restore, Next(restore, s, a), b, rest);
  }

  lemma {:induction false} UnusedTask(used: set<TaskId>) returns (t: TaskId)
    ensures t !in used && forall u :: u in used ==> u < t
    decreases |used|
  {
    if used == {} {
      t := 0;
    } else {
      var u :| u in used;
      var t' := UnusedTask(used - {u});
      t := if t' > u then t' else u + 1;
      assert forall w :: w in used ==> w == u || w in used - {u};
    }
  }

  /** A task that holds its lock, or waits for one that nobody owns. */
  lemma NextInside(restore: Restore, s: State) returns (u: TaskId)
    requires Inv(restore, s) && s.store.None? && !NoneInFlight(s)
    ensures Leads(s, u)
  {
    u :| u in s.tasks && InFlight(s.tasks[u].pc);
    if s.tasks[u].pc.Waiting? && s.tasks[u].pc.lock in s.owner {
      assert HeldBy(s, s.tasks[u].pc.lock);
      u := s.owner[s.tasks[u].pc.lock];
    }
    assert KnowsStore(restore, s, s.tasks[u].pc);
  }

  lemma QuietConcat(a: seq<Action>, b: seq<Action>)
    requires Quiet(a) && Quiet(b)
    ensures Quiet(a + b)
  {
    forall x | x in a + b ensures x in a || x in b {
    }
  }

  lemma NothingCached(restore: Restore, s: State)
    requires Inv(restore, s) && s.store.None?
    ensures Bare(s)
  {
    assert forall x :: x in s.caches ==> Stored(s, s.caches[x]);
  }

  /** Two tasks with unwritten keys answer with them, the first stored and then the second. */
  lemma BothAnswer(restore: Restore, s: State, u: TaskId, v: TaskId) returns (more: seq<Action>)
    requires u != v && u in s.tasks && v in s.tasks && HasKey(s.tasks[u].pc) && HasKey(s.tasks[v].pc)
    requires s.tasks[u].pc.key.pub != s.tasks[v].pc.key.pub
    ensures Quiet(more) && !Agreed(Follow(restore, s, more))
  {
    var m1 := FinishKey(restore, s, u);
    var s1 := Follow(restore, s, m1);
    var m2 := FinishKey(restore, s1, v);
    more := m1 + m2;
    FollowConcat(restore, s, m1, m2);
    QuietConcat(m1, m2);
    DifferentAnswers(Follow(restore, s, more), u, v);
  }

  /** While one task holds a key unwritten and the lock table is empty, a second
      caller can draw another key, and both are handed out: the first task stores
      its key, and the second finds that record and replaces it. */
  lemma SecondKey(restore: Restore, s: State, u: TaskId, svc: ServiceId, p: string) returns (more: seq<Action>)
    requires Locks(s) && Bare(s) && s.lock.None? && u in s.tasks && HasKey(s.tasks[u].pc)
    requires restore(p) != s.tasks[u].pc.key.pub
    ensures Quiet(more) && !Agreed(Follow(restore, s, more))
  {
    var v := UnusedTask(s.tasks.Keys);
    var m1 := NewProvision(restore, s, v, svc, p);
    var m2 := BothAnswer(restore, Follow(restore, s, m1), u, v);
    more := m1 + m2;
    FollowConcat(restore, s, m1, m2);
    QuietConcat(m1, m2);
  }

  /** Dropping the lock while a provision is in flight and nothing is stored: from
      every such state two callers can go on to get different keys with no failure
      at all, whatever locks and tasks there are. */
  lemma InvalidateInFlightBreaks(restore: Restore, s: State, svc: ServiceId, p1: string, p2: string)
    returns (more: seq<Action>)
    requires Inv(restore, s) && s.store.None? && !NoneInFlight(s) && restore(p1) != restore(p2)
    ensures Quiet(more) && !Agreed(Follow(restore, Next(restore, s, Invalidate(svc)), more))
  {
    var s0 := Next(restore, s, Invalidate(svc));
    NextKeepsLocks(restore, s, Invalidate(svc));
    NothingCached(restore, s);
    var u := NextInside(restore, s);
    var m1 := TakeKey(restore, s0, u, p1);
    var s1 := Follow(restore, s0, m1);
    var m2 := SecondKey(restore, s1, u, svc, if restore(p1) == s1.tasks[u].pc.key.pub then p2 else p1);
    more := m1 + m2;
    FollowConcat(restore, s0, m1, m2);
    QuietConcat(m1, m2);
  }

  lemma DifferentAnswers(s: State, u: TaskId, v: TaskId)
    requires u in s.tasks && v in s.tasks && PublicOf(s.tasks[u].pc).Some? && PublicOf(s.tasks[v].pc).Some?
    requires PublicOf(s.tasks[u].pc) != PublicOf(s.tasks[v].pc)
    ensures !Agreed(s)
  {
    assert !AnswerStored(s, s.tasks[u].pc) || !AnswerStored(s, s.tasks[v].pc);
  }

  lemma CalmAfter(restore: Restore, actions: seq<Action>, svc: ServiceId, more: seq<Action>)
    requires Calm(restore, actions) && Quiet(more)
    requires NoneInFlight(Run(restore, actions)) || Run(restore, actions).store.Some?
    ensures Calm(restore, actions + ([Invalidate(svc)] + more))
  {
    var all := actions + ([Invalidate(svc)] + more);
    forall i | |actions| < i < |all| ensures !all[i].Invalidate? {
      assert all[i] == more[i - |actions| - 1] && more[i - |actions| - 1] in more;
    }
    forall i | 0 <= i < |all| && all[i].Invalidate?
      ensures NoneInFlight(Run(restore, all[..i])) || Run(restore, all[..i]).store.Some?
    {
      if i == |actions| {
        assert all[..i] == actions;
      } else {
        assert all[..i] == actions[..i] && all[i] == actions[i];
      }
    }
  }

  /** After any calm run, `invalidate` leaves all callers agreeing in every further
      failure-free interleaving if and only if no provision is in flight or a
      record is already stored. */
  lemma InvalidateExact(restore: Restore, actions: seq<Action>, svc: ServiceId, p1: string, p2: string)
    requires Calm(restore, actions) && restore(p1) != restore(p2)
    ensures NoneInFlight(Run(restore, actions)) || Run(restore, actions).store.Some?
      <==> forall more {:trigger Quiet(more)} :: Quiet(more) ==>
             Agreed(Run(restore, actions + ([Invalidate(svc)] + more)))
  {
    var s := Run(restore, actions);
    RunKeeps(restore, actions);
    if NoneInFlight(s) || s.store.Some? {
      forall more | Quiet(more) ensures Agreed(Run(restore, actions + ([Invalidate(svc)] + more))) {
        CalmAfter(restore, actions, svc, more);
        AllCallersAgree(restore, actions + ([Invalidate(svc)] + more));
      }
    } else {
      var more := InvalidateInFlightBreaks(restore, s, svc, p1, p2);
      FollowConcat(restore, INITIAL, actions, [Invalidate(svc)] + more);
      FollowFirst(restore, s, Invalidate(svc), more);
      assert Quiet(more) && !Agreed(Run(restore, actions + ([Invalidate(svc)] + more)));
    }
  }
}
