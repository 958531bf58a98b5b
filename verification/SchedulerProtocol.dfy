/** `executeJob` of `scheduler/cron.go` as a protocol: any number of executions of any number of jobs on any
    number of scheduler instances, interleaving at every access to shared state (the job's state word, the
    lock store, and each instance's map of held locks). */
module SchedulerProtocol {
  import opened Options

  /** A `Job` object, a scheduler instance with the owner id of its locker, and one call of `executeJob`. */
  datatype Job = Job(name: string, singleton: bool, distributed: bool)
  datatype Instance = Instance(owner: string, hasLocker: bool)
  datatype Call = Call(job: nat, instance: nat)
  datatype Config = Config(jobs: seq<Job>, instances: seq<Instance>, calls: seq<Call>)

  predicate ValidConfig(g: Config) {
    forall c :: 0 <= c < |g.calls| ==> g.calls[c].job < |g.jobs| && g.calls[c].instance < |g.instances|
  }

  /** Where a call stands.  `Running` is inside `runWithRetry`. */
  datatype Point =
    | Start           // before the singleton check
    | WantLock        // before `locker.TryLock`
    | GotLock         // the store said yes; `held` not yet set
    | Hooks           // before the before-hooks
    | Running
    | Leaving         // before the `held` check of `Unlock`
    | Unlocking       // before the store's `Unlock`
    | Unlocked        // the store has answered; `held` not yet cleared
    | Finishing       // before `job.finish`
    | Done

  /** A lock in the store: the owner id written there, and (for the proofs only) the call that took it. */
  datatype Lock = Lock(owner: string, taker: nat)

  datatype State = State(
    running: set<nat>,                 // jobs whose state word says "running"
    store: map<string, Lock>,          // the shared lock store
    held: set<(nat, string)>,          // per instance: the keys its locker believes it holds
    points: seq<Point>)

  datatype Action =
    | Begin(c: nat)                    // singleton check, if the job asks for it
    | TryLock(c: nat, ok: bool)        // `ok` is false when the store fails
    | SetHeld(c: nat)
    | RunHooks(c: nat, ok: bool)       // `ok` is false when a hook stops the run
    | EndRun(c: nat)
    | CheckHeld(c: nat)
    | StoreUnlock(c: nat, ok: bool)    // `ok` is false when the store fails
    | ClearHeld(c: nat)
    | Finish(c: nat)
    | Expire(name: string)             // a lock's time runs out

  function JobOf(g: Config, c: nat): Job
    requires ValidConfig(g) && c < |g.calls|
  {
    g.jobs[g.calls[c].job]
  }

  function Owner(g: Config, c: nat): string
    requires ValidConfig(g) && c < |g.calls|
  {
    g.instances[g.calls[c].instance].owner
  }

  /** Does the call go through the distributed lock? */
  predicate Locks(g: Config, c: nat)
    requires ValidConfig(g) && c < |g.calls|
  {
    JobOf(g, c).distributed && g.instances[g.calls[c].instance].hasLocker
  }

  function HeldKey(g: Config, c: nat): (nat, string)
    requires ValidConfig(g) && c < |g.calls|
  {
    (g.calls[c].instance, JobOf(g, c).name)
  }

  predicate At(g: Config, s: State, c: nat, p: Point) {
    c < |g.calls| == |s.points| && s.points[c] == p
  }

  function Go(s: State, c: nat, p: Point): State
    requires c < |s.points|
  {
    s.(points := s.points[c := p])
  }

  function AfterBegin(g: Config, c: nat): Point
    requires ValidConfig(g) && c < |g.calls|
  {
    if Locks(g, c) then WantLock else Hooks
  }

  function AfterRun(g: Config, c: nat): Point
    requires ValidConfig(g) && c < |g.calls|
  {
    if Locks(g, c) then Leaving else Finishing
  }

  function Step(g: Config, s: State, a: Action): Option<State>
    requires ValidConfig(g)
  {
    match a
    case Begin(c) =>
      if !At(g, s, c, Start) then None
      else if !JobOf(g, c).singleton then Some(Go(s, c, AfterBegin(g, c)))
      else if g.calls[c].job in s.running then Some(Go(s, c, Done))
      else Some(Go(s, c, AfterBegin(g, c)).(running := s.running + {g.calls[c].job}))
    case TryLock(c, ok) =>
      if !At(g, s, c, WantLock) then None
      else if !ok || JobOf(g, c).name in s.store then Some(Go(s, c, Finishing))
      else Some(Go(s, c, GotLock).(store := s.store[JobOf(g, c).name := Lock(Owner(g, c), c)]))
    case SetHeld(c) =>
      if !At(g, s, c, GotLock) then None else Some(Go(s, c, Hooks).(held := s.held + {HeldKey(g, c)}))
    case RunHooks(c, ok) =>
      if !At(g, s, c, Hooks) then None else Some(Go(s, c, if ok then Running else AfterRun(g, c)))
    case EndRun(c) =>
      if !At(g, s, c, Running) then None else Some(Go(s, c, AfterRun(g, c)))
    case CheckHeld(c) =>
      if !At(g, s, c, Leaving) then None
      else Some(Go(s, c, if HeldKey(g, c) in s.held then Unlocking else Finishing))
    case StoreUnlock(c, ok) =>
      if !At(g, s, c, Unlocking) then None
      else if !ok then Some(Go(s, c, Finishing))
      else if Releases(g, s, c) then Some(Go(s, c, Unlocked).(store := s.store - {JobOf(g, c).name}))
      else Some(Go(s, c, Unlocked))
    case ClearHeld(c) =>
      if !At(g, s, c, Unlocked) then None else Some(Go(s, c, Finishing).(held := s.held - {HeldKey(g, c)}))
    case Finish(c) =>
      if !At(g, s, c, Finishing) then None
      else Some(Go(s, c, Done).(running := if JobOf(g, c).singleton then s.running - {g.calls[c].job} else s.running))
    case Expire(name) => Some(s.(store := s.store - {name}))
  }

  /** The store deletes the key only if it holds the caller's owner id. */
  predicate Releases(g: Config, s: State, c: nat)
    requires ValidConfig(g) && c < |g.calls|
  {
    JobOf(g, c).name in s.store && s.store[JobOf(g, c).name].owner == Owner(g, c)
  }

  function Run(g: Config, s: State, actions: seq<Action>): Option<State>
    requires ValidConfig(g)
    decreases |actions|
  {
    if actions == [] then Some(s)
    else
      var r := Step(g, s, actions[0]);
      if r.None? then None else Run(g, r.value, actions[1..])
  }

  function Initial(g: Config): State {
    State({}, map[], {}, seq(|g.calls|, _ => Start))
  }

  // ----- Singleton -----

  predicate Inside(p: Point) {
    !p.Start? && !p.Done?
  }

  predicate InsideSingleton(g: Config, s: State, c: nat)
    requires ValidConfig(g)
  {
    c < |g.calls| == |s.points| && JobOf(g, c).singleton && Inside(s.points[c])
  }

  /** A job's state word says "running" exactly while one call of a singleton job is inside, and there is
      never a second one. */
  ghost predicate SingletonInv(g: Config, s: State)
    requires ValidConfig(g)
  {
    && |s.points| == |g.calls|
    && (forall c: nat :: InsideSingleton(g, s, c) ==> g.calls[c].job in s.running)
    && (forall j :: j in s.running ==> exists c: nat :: InsideSingleton(g, s, c) && g.calls[c].job == j)
    && (forall c: nat, d: nat ::
          InsideSingleton(g, s, c) && InsideSingleton(g, s, d) && g.calls[c].job == g.calls[d].job ==> c == d)
  }

  /** The call an action belongs to is the only one whose point it changes. */
  lemma OnlyItsOwnPoint(g: Config, s: State, a: Action, c: nat)
    requires ValidConfig(g) && |s.points| == |g.calls| && Step(g, s, a).Some? && (a.Expire? || a.c != c)
    ensures |Step(g, s, a).value.points| == |g.calls|
    ensures c < |g.calls| ==> Step(g, s, a).value.points[c] == s.points[c]
  {
  }

  /** What a step does to the state words: nothing, or its call enters, or its call leaves. */
  lemma StateWordEffect(g: Config, s: State, a: Action)
    requires ValidConfig(g) && |s.points| == |g.calls| && Step(g, s, a).Some?
    ensures var s' := Step(g, s, a).value;
      a.Expire? ==> s'.running == s.running && s'.points == s.points
    ensures var s' := Step(g, s, a).value;
      !a.Expire? ==>
        a.c < |g.calls| &&
        var before, after, j := InsideSingleton(g, s, a.c), InsideSingleton(g, s', a.c), g.calls[a.c].job;
          || (before == after && s'.running == s.running)
          || (!before && after && j !in s.running && s'.running == s.running + {j})
          || (before && !after && s'.running == s.running - {j})
  {
  }

  lemma SingletonStep(g: Config, s: State, a: Action)
    requires ValidConfig(g) && SingletonInv(g, s) && Step(g, s, a).Some?
    ensures SingletonInv(g, Step(g, s, a).value)
  {
    var s' := Step(g, s, a).value;
    forall c: nat | a.Expire? || a.c != c ensures InsideSingleton(g, s', c) <==> InsideSingleton(g, s, c) {
      OnlyItsOwnPoint(g, s, a, c);
    }
    OnlyItsOwnPoint(g, s, a, if a.Expire? then 0 else a.c + 1);
    StateWordEffect(g, s, a);
    SingletonKept(g, s, s', if a.Expire? then |g.calls| else a.c);
  }

  lemma SingletonKept(g: Config, s: State, s': State, c: nat)
    requires ValidConfig(g) && SingletonInv(g, s) && |s'.points| == |g.calls|
    requires forall d: nat :: d != c ==> (InsideSingleton(g, s', d) <==> InsideSingleton(g, s, d))
    requires if c >= |g.calls| then s'.running == s.running else
      var before, after, j := InsideSingleton(g, s, c), InsideSingleton(g, s', c), g.calls[c].job;
          || (before == after && s'.running == s.running)
          || (!before && after && j !in s.running && s'.running == s.running + {j})
          || (before && !after && s'.running == s.running - {j})
    ensures SingletonInv(g, s')
  {
    forall j | j in s'.running ensures exists d: nat :: InsideSingleton(g, s', d) && g.calls[d].job == j {
      if j in s.running {
        var d: nat :| InsideSingleton(g, s, d) && g.calls[d].job == j;
        assert InsideSingleton(g, s', d);
      } else {
        assert InsideSingleton(g, s', c);
      }
    }
  }

  // ----- The distributed lock -----

  /** From taking the lock in the store to giving it back. */
  predicate Holds(g: Config, s: State, c: nat)
    requires ValidConfig(g)
  {
    && c < |g.calls| == |s.points| && Locks(g, c)
    && var p := s.points[c]; p.GotLock? || p.Hooks? || p.Running? || p.Leaving? || p.Unlocking?
  }

  predicate LockPoint(p: Point) {
    p.WantLock? || p.GotLock? || p.Leaving? || p.Unlocking? || p.Unlocked?
  }

  /** Lock-related points belong to calls that lock, and every stored lock was put there by its taker. */
  ghost predicate StoreInv(g: Config, s: State)
    requires ValidConfig(g)
  {
    && |s.points| == |g.calls|
    && (forall c: nat :: c < |g.calls| && LockPoint(s.points[c]) ==> Locks(g, c))
    && (forall n :: n in s.store ==> Stored(g, s.store[n], n))
  }

  predicate Stored(g: Config, l: Lock, n: string)
    requires ValidConfig(g)
  {
    l.taker < |g.calls| && Locks(g, l.taker) && JobOf(g, l.taker).name == n && l.owner == Owner(g, l.taker)
  }

  /** Whoever is between taking and returning the lock is the one whose lock is in the store. */
  ghost predicate LockInv(g: Config, s: State)
    requires ValidConfig(g)
  {
    forall c: nat :: Holds(g, s, c) ==> JobOf(g, c).name in s.store && s.store[JobOf(g, c).name].taker == c
  }

  datatype Change = Nothing | Acquires | Returns

  /** What a step does to the lock store: nothing, or its call takes the lock, or its call returns one. */
  function StoreChange(g: Config, s: State, a: Action): Change
    requires ValidConfig(g)
  {
    if a.TryLock? && At(g, s, a.c, WantLock) && a.ok && JobOf(g, a.c).name !in s.store then Acquires
    else if a.StoreUnlock? && At(g, s, a.c, Unlocking) && a.ok && Releases(g, s, a.c) then Returns
    else Nothing
  }

  lemma StoreEffect(g: Config, s: State, a: Action)
    requires ValidConfig(g) && StoreInv(g, s) && Step(g, s, a).Some? && !a.Expire?
    ensures var s', n := Step(g, s, a).value, JobOf(g, a.c).name;
      match StoreChange(g, s, a)
      case Nothing => s'.store == s.store && (Holds(g, s', a.c) ==> Holds(g, s, a.c))
      case Acquires => n !in s.store && s'.store == s.store[n := Lock(Owner(g, a.c), a.c)] && Holds(g, s', a.c)
      case Returns => s'.store == s.store - {n} && Holds(g, s, a.c) && !Holds(g, s', a.c) && Releases(g, s, a.c)
  {
  }

  lemma StoreInvStep(g: Config, s: State, a: Action)
    requires ValidConfig(g) && StoreInv(g, s) && Step(g, s, a).Some?
    ensures StoreInv(g, Step(g, s, a).value)
  {
    var s' := Step(g, s, a).value;
    OnlyItsOwnPoint(g, s, a, if a.Expire? then 0 else a.c + 1);
    forall c: nat | c < |g.calls| && LockPoint(s'.points[c]) ensures Locks(g, c) {
      if a.Expire? || a.c != c {
        OnlyItsOwnPoint(g, s, a, c);
      }
    }
    if !a.Expire? {
      StoreEffect(g, s, a);
    }
  }

  lemma HoldsOthers(g: Config, s: State, a: Action)
    requires ValidConfig(g) && |s.points| == |g.calls| && Step(g, s, a).Some?
    ensures forall c: nat :: a.Expire? || a.c != c ==> (Holds(g, Step(g, s, a).value, c) <==> Holds(g, s, c))
  {
    forall c: nat | a.Expire? || a.c != c ensures Holds(g, Step(g, s, a).value, c) <==> Holds(g, s, c) {
      OnlyItsOwnPoint(g, s, a, c);
    }
  }

  /** A lock may run out only when no call holds it (a lock whose release failed, say). */
  ghost predicate NotHeld(g: Config, s: State, a: Action)
    requires ValidConfig(g)
  {
    a.Expire? ==> forall c: nat :: Holds(g, s, c) ==> JobOf(g, c).name != a.name
  }

  /** No lock of this run expires while it is held. */
  ghost predicate NoHeldLockExpires(g: Config, s: State, actions: seq<Action>)
    requires ValidConfig(g)
    decreases |actions|
  {
    actions != [] && Step(g, s, actions[0]).Some? ==>
      NotHeld(g, s, actions[0]) && NoHeldLockExpires(g, Step(g, s, actions[0]).value, actions[1..])
  }

  lemma LockStep(g: Config, s: State, a: Action)
    requires ValidConfig(g) && StoreInv(g, s) && LockInv(g, s) && Step(g, s, a).Some? && NotHeld(g, s, a)
    ensures LockInv(g, Step(g, s, a).value)
  {
    HoldsOthers(g, s, a);
    if !a.Expire? {
      StoreEffect(g, s, a);
    }
  }

  // ----- Mutual exclusion -----

  ghost predicate ExclusionInv(g: Config, s: State)
    requires ValidConfig(g)
  {
    SingletonInv(g, s) && StoreInv(g, s) && LockInv(g, s)
  }

  lemma InitialInv(g: Config)
    requires ValidConfig(g)
    ensures ExclusionInv(g, Initial(g))
  {
  }

  lemma {:induction false} ExclusionRun(g: Config, s: State, actions: seq<Action>)
    requires ValidConfig(g) && ExclusionInv(g, s) && NoHeldLockExpires(g, s, actions)
    ensures Run(g, s, actions).Some? ==> ExclusionInv(g, Run(g, s, actions).value)
    decreases |actions|
  {
    if actions != [] && Step(g, s, actions[0]).Some? {
      SingletonStep(g, s, actions[0]);
      StoreInvStep(g, s, actions[0]);
      LockStep(g, s, actions[0]);
      ExclusionRun(g, Step(g, s, actions[0]).value, actions[1..]);
    }
  }

  /** The promise of the two modes: in every interleaving in which no held lock expires, at most one call per
      singleton `Job` object, and at most one call per distributed job name overall, is inside `runWithRetry`. */
  lemma AtMostOneRuns(g: Config, actions: seq<Action>, c: nat, d: nat)
    requires ValidConfig(g) && NoHeldLockExpires(g, Initial(g), actions)
    requires c < |g.calls| && d < |g.calls|
    ensures var r := Run(g, Initial(g), actions);
      r.Some? && At(g, r.value, c, Running) && At(g, r.value, d, Running) && c != d ==>
        && !(JobOf(g, c).singleton && g.calls[c].job == g.calls[d].job)
        && !(Locks(g, c) && Locks(g, d) && JobOf(g, c).name == JobOf(g, d).name)
  {
    InitialInv(g);
    ExclusionRun(g, Initial(g), actions);
    var r := Run(g, Initial(g), actions);
    if r.Some? && At(g, r.value, c, Running) && At(g, r.value, d, Running) {
      assert InsideSingleton(g, r.value, c) <==> JobOf(g, c).singleton;
      assert InsideSingleton(g, r.value, d) <==> JobOf(g, d).singleton;
      assert Holds(g, r.value, c) <==> Locks(g, c);
      assert Holds(g, r.value, d) <==> Locks(g, d);
    }
  }

  /** The singleton half needs no assumption about expiry. */
  lemma {:induction false} SingletonRun(g: Config, s: State, actions: seq<Action>)
    requires ValidConfig(g) && SingletonInv(g, s)
    ensures Run(g, s, actions).Some? ==> SingletonInv(g, Run(g, s, actions).value)
    decreases |actions|
  {
    if actions != [] && Step(g, s, actions[0]).Some? {
      SingletonStep(g, s, actions[0]);
      SingletonRun(g, Step(g, s, actions[0]).value, actions[1..]);
    }
  }

  // ----- Locks that expire -----

  /** Two calls of the same singleton `Job` object: the state word keeps them apart. */
  predicate KeptApart(g: Config, c: nat, d: nat)
    requires ValidConfig(g) && c < |g.calls| && d < |g.calls|
  {
    g.calls[c].job == g.calls[d].job && JobOf(g, c).singleton
  }

  /** Two calls that use one lock under one owner id are kept apart.  Since every locker draws its own owner
      id and `Add` refuses a second job of the same name, this asks that distributed jobs be singletons too. */
  ghost predicate OneCallPerOwner(g: Config)
    requires ValidConfig(g)
  {
    forall c: nat, d: nat :: SameLock(g, c, d) && c != d && Owner(g, c) == Owner(g, d) ==> KeptApart(g, c, d)
  }

  predicate SameLock(g: Config, c: nat, d: nat)
    requires ValidConfig(g)
  {
    c < |g.calls| && d < |g.calls| && Locks(g, c) && Locks(g, d) && JobOf(g, c).name == JobOf(g, d).name
  }

  /** A holder that finds its own owner id in the store finds its own lock. */
  ghost predicate OwnLockInv(g: Config, s: State)
    requires ValidConfig(g)
  {
    forall c: nat :: Holds(g, s, c) && Releases(g, s, c) ==> s.store[JobOf(g, c).name].taker == c
  }

  /** Two calls that are inside at once and use one lock belong to different owners. */
  lemma OwnersApart(g: Config, s: State, c: nat, d: nat)
    requires ValidConfig(g) && OneCallPerOwner(g) && SingletonInv(g, s) && SameLock(g, c, d) && c != d
    requires Inside(s.points[c]) && Inside(s.points[d])
    ensures Owner(g, c) != Owner(g, d)
  {
    assert JobOf(g, c).singleton ==> InsideSingleton(g, s, c);
    assert JobOf(g, d).singleton ==> InsideSingleton(g, s, d);
  }

  lemma OwnLockStep(g: Config, s: State, a: Action)
    requires ValidConfig(g) && OneCallPerOwner(g)
    requires SingletonInv(g, s) && StoreInv(g, s) && OwnLockInv(g, s) && Step(g, s, a).Some?
    ensures OwnLockInv(g, Step(g, s, a).value)
  {
    var s' := Step(g, s, a).value;
    HoldsOthers(g, s, a);
    SingletonStep(g, s, a);
    if !a.Expire? {
      StoreEffect(g, s, a);
    }
    forall c: nat | Holds(g, s', c) ensures Releases(g, s', c) ==> s'.store[JobOf(g, c).name].taker == c {
      if StoreChange(g, s, a).Acquires? && a.c != c && JobOf(g, c).name == JobOf(g, a.c).name {
        OwnersApart(g, s', c, a.c);
      }
    }
  }

  lemma {:induction false} OwnLockRun(g: Config, s: State, actions: seq<Action>)
    requires ValidConfig(g) && OneCallPerOwner(g) && SingletonInv(g, s) && StoreInv(g, s) && OwnLockInv(g, s)
    ensures Run(g, s, actions).Some? ==> OwnLockInv(g, Run(g, s, actions).value)
    decreases |actions|
  {
    if actions != [] && Step(g, s, actions[0]).Some? {
      SingletonStep(g, s, actions[0]);
      StoreInvStep(g, s, actions[0]);
      OwnLockStep(g, s, actions[0]);
      OwnLockRun(g, Step(g, s, actions[0]).value, actions[1..]);
    }
  }

  /** After this run, a lock that call `c` would delete from the store is the one it put there. */
  ghost predicate ReturnsItsOwn(g: Config, actions: seq<Action>, c: nat)
    requires ValidConfig(g) && c < |g.calls|
  {
    var r := Run(g, Initial(g), actions);
    r.Some? && StoreChange(g, r.value, StoreUnlock(c, true)).Returns? ==>
      At(g, r.value, c, Unlocking) && r.value.store[JobOf(g, c).name].taker == c
  }

  /** This holds in every run, even when locks expire at any time. */
  lemma OnlyTheTakerReturns(g: Config, actions: seq<Action>, c: nat)
    requires ValidConfig(g) && OneCallPerOwner(g) && c < |g.calls|
    ensures ReturnsItsOwn(g, actions, c)
  {
    InitialInv(g);
    OwnLockRun(g, Initial(g), actions);
    var r := Run(g, Initial(g), actions);
    if r.Some? && StoreChange(g, r.value, StoreUnlock(c, true)).Returns? {
      StoreRun(g, Initial(g), actions);
      assert Holds(g, r.value, c);
    }
  }

  lemma {:induction false} StoreRun(g: Config, s: State, actions: seq<Action>)
    requires ValidConfig(g) && StoreInv(g, s)
    ensures Run(g, s, actions).Some? ==> StoreInv(g, Run(g, s, actions).value)
    decreases |actions|
  {
    if actions != [] && Step(g, s, actions[0]).Some? {
      StoreInvStep(g, s, actions[0]);
      StoreRun(g, Step(g, s, actions[0]).value, actions[1..]);
    }
  }

  // ----- Nothing is left behind -----

  predicate NeedsHeld(p: Point) {
    p.Hooks? || p.Running? || p.Leaving? || p.Unlocking?
  }

  /** A call that will ask its locker to unlock finds the key marked as held; every stored lock has a holder. */
  ghost predicate ReturnInv(g: Config, s: State)
    requires ValidConfig(g)
  {
    && |s.points| == |g.calls|
    && (forall c: nat :: c < |g.calls| && Locks(g, c) && NeedsHeld(s.points[c]) ==> HeldKey(g, c) in s.held)
    && (forall n :: n in s.store ==> Holds(g, s, s.store[n].taker))
  }

  predicate Reliable(a: Action) {
    !a.Expire? && (a.StoreUnlock? ==> a.ok)
  }

  /** No lock expires and the store answers every unlock. */
  ghost predicate AllReliable(actions: seq<Action>) {
    forall i :: 0 <= i < |actions| ==> Reliable(actions[i])
  }

  /** The same, for two calls that share an instance and so a held mark. */
  ghost predicate OneCallPerMark(g: Config)
    requires ValidConfig(g)
  {
    forall c: nat, d: nat :: SameLock(g, c, d) && c != d && HeldKey(g, c) == HeldKey(g, d) ==> KeptApart(g, c, d)
  }

  /** Two calls that are inside at once do not share a held mark. */
  lemma HeldKeysApart(g: Config, s: State, c: nat, d: nat)
    requires ValidConfig(g) && OneCallPerMark(g) && SingletonInv(g, s)
    requires c < |g.calls| && d < |g.calls| && c != d && Locks(g, c) && Locks(g, d)
    requires Inside(s.points[c]) && Inside(s.points[d])
    ensures HeldKey(g, c) != HeldKey(g, d)
  {
    assert HeldKey(g, c) == HeldKey(g, d) ==> SameLock(g, c, d);
    assert JobOf(g, c).singleton ==> InsideSingleton(g, s, c);
    assert JobOf(g, d).singleton ==> InsideSingleton(g, s, d);
  }

  lemma HeldStep(g: Config, s: State, a: Action, c: nat)
    requires ValidConfig(g) && OneCallPerMark(g) && SingletonInv(g, s) && StoreInv(g, s) && ReturnInv(g, s)
    requires Step(g, s, a).Some? && Reliable(a)
    requires c < |g.calls| && Locks(g, c) && NeedsHeld(Step(g, s, a).value.points[c])
    ensures HeldKey(g, c) in Step(g, s, a).value.held
  {
    if a.c != c {
      OnlyItsOwnPoint(g, s, a, c);
      if a.ClearHeld? {
        HeldKeysApart(g, s, c, a.c);
      }
    }
  }

  lemma ReturnStep(g: Config, s: State, a: Action)
    requires ValidConfig(g) && OneCallPerMark(g) && ExclusionInv(g, s) && ReturnInv(g, s)
    requires Step(g, s, a).Some? && Reliable(a)
    ensures ReturnInv(g, Step(g, s, a).value)
  {
    var s' := Step(g, s, a).value;
    OnlyItsOwnPoint(g, s, a, a.c + 1);
    forall c: nat | c < |g.calls| && Locks(g, c) && NeedsHeld(s'.points[c]) ensures HeldKey(g, c) in s'.held {
      HeldStep(g, s, a, c);
    }
    StoreEffect(g, s, a);
    HoldsOthers(g, s, a);
    forall n | n in s'.store ensures Holds(g, s', s'.store[n].taker) {
      if n in s.store && s.store[n].taker == a.c {
        LeavesOnlyWithoutLock(g, s, a, n);
      }
    }
  }

  /** A call whose lock is in the store goes on holding it until it returns it. */
  lemma LeavesOnlyWithoutLock(g: Config, s: State, a: Action, n: string)
    requires ValidConfig(g) && ExclusionInv(g, s) && ReturnInv(g, s) && Step(g, s, a).Some? && Reliable(a)
    requires n in s.store && s.store[n].taker == a.c && n in Step(g, s, a).value.store
    ensures Holds(g, Step(g, s, a).value, a.c)
  {
    assert Holds(g, s, a.c) && Stored(g, s.store[n], n);
  }

  lemma {:induction false} ReturnRun(g: Config, s: State, actions: seq<Action>)
    requires ValidConfig(g) && OneCallPerMark(g) && ExclusionInv(g, s) && ReturnInv(g, s)
    requires AllReliable(actions)
    ensures Run(g, s, actions).Some? ==>
      ExclusionInv(g, Run(g, s, actions).value) && ReturnInv(g, Run(g, s, actions).value)
    decreases |actions|
  {
    if actions != [] && Step(g, s, actions[0]).Some? {
      assert Reliable(actions[0]);
      SingletonStep(g, s, actions[0]);
      StoreInvStep(g, s, actions[0]);
      LockStep(g, s, actions[0]);
      ReturnStep(g, s, actions[0]);
      ReturnRun(g, Step(g, s, actions[0]).value, actions[1..]);
    }
  }

  /** No call is under way. */
  ghost predicate Quiet(s: State) {
    forall c: nat :: c < |s.points| ==> !Inside(s.points[c])
  }

  predicate AllIdle(s: State) {
    s.running == {} && s.store == map[]
  }

  lemma QuietMeansIdle(g: Config, s: State)
    requires ValidConfig(g) && SingletonInv(g, s) && ReturnInv(g, s) && Quiet(s)
    ensures AllIdle(s)
  {
    forall c: nat ensures !InsideSingleton(g, s, c) && !Holds(g, s, c) {
    }
    assert s.store.Keys == {};
  }

  ghost predicate EndsIdle(g: Config, actions: seq<Action>)
    requires ValidConfig(g)
  {
    AllReliable(actions) ==>
      var r := Run(g, Initial(g), actions);
      r.Some? && Quiet(r.value) ==> AllIdle(r.value)
  }

  /** When every call is over, every state word is back to idle and every lock is back in the store. */
  lemma EverythingIsReturned(g: Config, actions: seq<Action>)
    requires ValidConfig(g) && OneCallPerMark(g)
    ensures EndsIdle(g, actions)
  {
    var r := Run(g, Initial(g), actions);
    if AllReliable(actions) && r.Some? && Quiet(r.value) {
      InitialInv(g);
      ReturnRun(g, Initial(g), actions);
      QuietMeansIdle(g, r.value);
    }
  }

  // ----- Why distributed jobs must be singletons -----

  lemma RunOne(g: Config, s: State, a: Action)
    requires ValidConfig(g)
    ensures Run(g, s, [a]) == Step(g, s, a)
  {
    assert [a][1..] == [];
  }

  lemma {:induction false} RunConcat(g: Config, s: State, first: seq<Action>, next: seq<Action>)
    requires ValidConfig(g) && Run(g, s, first).Some?
    ensures Run(g, s, first + next) == Run(g, Run(g, s, first).value, next)
    decreases |first|
  {
    if first == [] {
      assert first + next == next;
    } else {
      assert (first + next)[1..] == first[1..] + next;
      RunConcat(g, Step(g, s, first[0]).value, first[1..], next);
    }
  }

  lemma RunSnoc(g: Config, s: State, actions: seq<Action>, a: Action)
    requires ValidConfig(g) && Run(g, s, actions).Some?
    ensures Run(g, s, actions + [a]) == Step(g, Run(g, s, actions).value, a)
  {
    RunConcat(g, s, actions, [a]);
    RunOne(g, Run(g, s, actions).value, a);
  }

  /** The two calls `c` and `d` are at `p` and `q`, all others have not begun; `holder` has the lock. */
  ghost predicate Duel(g: Config, s: State, c: nat, d: nat, p: Point, q: Point, holder: Option<nat>)
    requires ValidConfig(g) && SameLock(g, c, d)
  {
    && |s.points| == |g.calls| && s.points[c] == p && s.points[d] == q
    && (forall e: nat :: e < |g.calls| && e != c && e != d ==> s.points[e] == Start)
    && match holder
       case None => s.store == map[]
       case Some(h) => h < |g.calls| && s.store == map[JobOf(g, c).name := Lock(Owner(g, h), h)]
  }

  lemma Play(g: Config, actions: seq<Action>, s: State, a: Action) returns (longer: seq<Action>, s': State)
    requires ValidConfig(g) && Run(g, Initial(g), actions) == Some(s) && Step(g, s, a).Some?
    ensures longer == actions + [a] && s' == Step(g, s, a).value && Run(g, Initial(g), longer) == Some(s')
  {
    RunSnoc(g, Initial(g), actions, a);
    longer, s' := actions + [a], Step(g, s, a).value;
  }

  /** Both calls pass the singleton check and stand before the lock. */
  lemma DuelBegins(g: Config, c: nat, d: nat) returns (actions: seq<Action>, s: State)
    requires ValidConfig(g) && SameLock(g, c, d) && c != d && !KeptApart(g, c, d)
    ensures AllReliable(actions) && Run(g, Initial(g), actions) == Some(s)
    ensures Duel(g, s, c, d, WantLock, WantLock, None)
  {
    actions, s := Play(g, [], Initial(g), Begin(c));
    actions, s := Play(g, actions, s, Begin(d));
  }

  /** `c` takes the lock and is let into its job. */
  lemma DuelTakes(g: Config, c: nat, d: nat, actions: seq<Action>, s: State, q: Point, ok: bool)
    returns (longer: seq<Action>, s': State)
    requires ValidConfig(g) && SameLock(g, c, d) && c != d && Run(g, Initial(g), actions) == Some(s)
    requires Duel(g, s, c, d, WantLock, q, None)
    ensures (AllReliable(actions) ==> AllReliable(longer)) && Run(g, Initial(g), longer) == Some(s')
    ensures Duel(g, s', c, d, if ok then Running else Leaving, q, Some(c)) && s'.held == s.held + {HeldKey(g, c)}
  {
    longer, s' := Play(g, actions, s, TryLock(c, true));
    longer, s' := Play(g, longer, s', SetHeld(c));
    longer, s' := Play(g, longer, s', RunHooks(c, ok));
  }

  /** `c`, not allowed to run, gives the lock back in the store but has not yet cleared its mark. */
  lemma DuelReleases(g: Config, c: nat, d: nat, actions: seq<Action>, s: State, q: Point)
    returns (longer: seq<Action>, s': State)
    requires ValidConfig(g) && SameLock(g, c, d) && c != d && Run(g, Initial(g), actions) == Some(s)
    requires AllReliable(actions) && Duel(g, s, c, d, Leaving, q, Some(c)) && HeldKey(g, c) in s.held
    ensures AllReliable(longer) && Run(g, Initial(g), longer) == Some(s')
    ensures Duel(g, s', c, d, Unlocked, q, None)
  {
    longer, s' := Play(g, actions, s, CheckHeld(c));
    assert s'.store - {JobOf(g, c).name} == map[];
    longer, s' := Play(g, longer, s', StoreUnlock(c, true));
  }

  /** `c` clears the mark that `d` has just set; `d` then believes that it holds nothing. */
  lemma DuelClears(g: Config, c: nat, d: nat, actions: seq<Action>, s: State) returns (longer: seq<Action>, s': State)
    requires ValidConfig(g) && SameLock(g, c, d) && c != d && HeldKey(g, c) == HeldKey(g, d)
    requires Run(g, Initial(g), actions) == Some(s) && AllReliable(actions)
    requires Duel(g, s, c, d, Unlocked, Leaving, Some(d))
    ensures AllReliable(longer) && Run(g, Initial(g), longer) == Some(s')
    ensures Duel(g, s', c, d, Finishing, Finishing, Some(d))
  {
    longer, s' := Play(g, actions, s, ClearHeld(c));
    longer, s' := Play(g, longer, s', CheckHeld(d));
  }

  lemma DuelFinishes(g: Config, c: nat, d: nat, actions: seq<Action>, s: State) returns (longer: seq<Action>, s': State)
    requires ValidConfig(g) && SameLock(g, c, d) && c != d && Run(g, Initial(g), actions) == Some(s)
    requires AllReliable(actions) && Duel(g, s, c, d, Finishing, Finishing, Some(d))
    ensures AllReliable(longer) && Run(g, Initial(g), longer) == Some(s')
    ensures Duel(g, s', c, d, Done, Done, Some(d))
  {
    longer, s' := Play(g, actions, s, Finish(c));
    longer, s' := Play(g, longer, s', Finish(d));
  }

  /** The store's delete and the clearing of `held` are two steps of `Unlock`.  When a second call can take the
      lock between them, its mark is lost and its lock stays in the store for good. */
  lemma LockLeftBehind(g: Config, c: nat, d: nat) returns (actions: seq<Action>)
    requires ValidConfig(g) && SameLock(g, c, d) && c != d && HeldKey(g, c) == HeldKey(g, d) && !KeptApart(g, c, d)
    ensures !EndsIdle(g, actions)
  {
    var s;
    actions, s := DuelBegins(g, c, d);
    actions, s := DuelTakes(g, c, d, actions, s, WantLock, false);
    actions, s := DuelReleases(g, c, d, actions, s, WantLock);
    actions, s := DuelTakes(g, d, c, actions, s, Unlocked, false);
    actions, s := DuelClears(g, c, d, actions, s);
    actions, s := DuelFinishes(g, c, d, actions, s);
    assert JobOf(g, c).name in s.store;
  }

  /** Locks are never left behind exactly when the calls that share a held mark are kept apart. */
  lemma NothingLeftIff(g: Config)
    requires ValidConfig(g)
    ensures (forall actions :: EndsIdle(g, actions)) <==> OneCallPerMark(g)
  {
    if OneCallPerMark(g) {
      forall actions ensures EndsIdle(g, actions) {
        EverythingIsReturned(g, actions);
      }
    } else {
      var c: nat, d: nat :| SameLock(g, c, d) && c != d && HeldKey(g, c) == HeldKey(g, d) && !KeptApart(g, c, d);
      var actions := LockLeftBehind(g, c, d);
    }
  }

  /** A call that outlives its lock deletes the lock that another call of the same owner has taken since. */
  lemma LockOfAnotherFreed(g: Config, c: nat, d: nat) returns (actions: seq<Action>)
    requires ValidConfig(g) && SameLock(g, c, d) && c != d && Owner(g, c) == Owner(g, d) && !KeptApart(g, c, d)
    ensures !ReturnsItsOwn(g, actions, c)
  {
    var s;
    actions, s := DuelBegins(g, c, d);
    actions, s := DuelTakes(g, c, d, actions, s, WantLock, true);
    actions, s := DuelStolen(g, c, d, actions, s);
  }

  /** The lock of the running call `c` runs out. */
  lemma DuelExpires(g: Config, c: nat, d: nat, actions: seq<Action>, s: State) returns (longer: seq<Action>, s': State)
    requires ValidConfig(g) && SameLock(g, c, d) && c != d && Run(g, Initial(g), actions) == Some(s)
    requires Duel(g, s, c, d, Running, WantLock, Some(c))
    ensures Run(g, Initial(g), longer) == Some(s') && Duel(g, s', c, d, Running, WantLock, None) && s'.held == s.held
    ensures Duel(g, s', d, c, WantLock, Running, None)
  {
    assert s.store - {JobOf(g, c).name} == map[];
    longer, s' := Play(g, actions, s, Expire(JobOf(g, c).name));
  }

  lemma DuelStolen(g: Config, c: nat, d: nat, actions: seq<Action>, s: State) returns (longer: seq<Action>, s': State)
    requires ValidConfig(g) && SameLock(g, c, d) && c != d && Run(g, Initial(g), actions) == Some(s)
    requires Duel(g, s, c, d, Running, WantLock, Some(c)) && HeldKey(g, c) in s.held
    ensures Run(g, Initial(g), longer) == Some(s') && Duel(g, s', c, d, Unlocking, GotLock, Some(d))
  {
    longer, s' := DuelExpires(g, c, d, actions, s);
    longer, s' := Play(g, longer, s', TryLock(d, true));
    longer, s' := Play(g, longer, s', EndRun(c));
    longer, s' := Play(g, longer, s', CheckHeld(c));
  }

  /** Calls only ever delete their own locks, expiry or not, exactly when calls of one owner are kept apart. */
  lemma OwnLockIff(g: Config)
    requires ValidConfig(g)
    ensures (forall actions, c: nat :: c < |g.calls| ==> ReturnsItsOwn(g, actions, c)) <==> OneCallPerOwner(g)
  {
    if OneCallPerOwner(g) {
      forall actions, c: nat | c < |g.calls| ensures ReturnsItsOwn(g, actions, c) {
        OnlyTheTakerReturns(g, actions, c);
      }
    } else {
      var c: nat, d: nat :| SameLock(g, c, d) && c != d && Owner(g, c) == Owner(g, d) && !KeptApart(g, c, d);
      var actions := LockOfAnotherFreed(g, c, d);
    }
  }

  // ----- What an expiry does to mutual exclusion -----

  /** Two calls of one lock are never both inside `runWithRetry`, whatever expires. */
  ghost predicate ExclusiveDespiteExpiry(g: Config)
    requires ValidConfig(g)
  {
    forall actions, c: nat, d: nat :: SameLock(g, c, d) && c != d ==> !BothRun(g, actions, c, d)
  }

  predicate BothRun(g: Config, actions: seq<Action>, c: nat, d: nat)
    requires ValidConfig(g)
  {
    var r := Run(g, Initial(g), actions);
    r.Some? && At(g, r.value, c, Running) && At(g, r.value, d, Running)
  }

  /** Any two calls that use one lock, on any instances, are of one singleton `Job` object. */
  ghost predicate OneCallPerLock(g: Config)
    requires ValidConfig(g)
  {
    forall c: nat, d: nat :: SameLock(g, c, d) && c != d ==> KeptApart(g, c, d)
  }

  /** The lock of a running call runs out, and a second call takes it and runs too. */
  lemma BothRunAfterExpiry(g: Config, c: nat, d: nat) returns (actions: seq<Action>)
    requires ValidConfig(g) && SameLock(g, c, d) && c != d && !KeptApart(g, c, d)
    ensures BothRun(g, actions, c, d)
  {
    var s;
    actions, s := DuelBegins(g, c, d);
    actions, s := DuelTakes(g, c, d, actions, s, WantLock, true);
    actions, s := DuelExpires(g, c, d, actions, s);
    actions, s := DuelTakes(g, d, c, actions, s, Running, true);
  }

  lemma ApartNeverBothRun(g: Config, actions: seq<Action>, c: nat, d: nat)
    requires ValidConfig(g) && SameLock(g, c, d) && c != d && KeptApart(g, c, d)
    ensures !BothRun(g, actions, c, d)
  {
    InitialInv(g);
    SingletonRun(g, Initial(g), actions);
    var r := Run(g, Initial(g), actions);
    if r.Some? {
      assert InsideSingleton(g, r.value, c) <==> At(g, r.value, c, r.value.points[c]) && Inside(r.value.points[c]);
      assert InsideSingleton(g, r.value, d) <==> At(g, r.value, d, r.value.points[d]) && Inside(r.value.points[d]);
    }
  }

  /** Without the assumption that no held lock expires, the lock adds nothing to the state word: calls of one
      lock exclude each other in every run exactly if the state word already keeps them apart. */
  lemma ExclusiveDespiteExpiryIff(g: Config)
    requires ValidConfig(g)
    ensures ExclusiveDespiteExpiry(g) <==> OneCallPerLock(g)
  {
    if OneCallPerLock(g) {
      forall actions, c: nat, d: nat | SameLock(g, c, d) && c != d ensures !BothRun(g, actions, c, d) {
        ApartNeverBothRun(g, actions, c, d);
      }
    } else {
      var c: nat, d: nat :| SameLock(g, c, d) && c != d && !KeptApart(g, c, d);
      var actions := BothRunAfterExpiry(g, c, d);
    }
  }
}
