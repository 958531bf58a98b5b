/** The imperative side of the scheduler: the state word and statistics of `scheduler/job.go`, and the retry
    loop and `executeJob` of `scheduler/cron.go`.  Times and durations are integers. */
module JobRunner {
  import opened LockStore
  import opened Options
  import P = SchedulerProtocol

  // ----- The retry loop -----

  /** How one call of the handler ends: its error, if any, and how long it took. */
  datatype Outcome = Outcome(error: Option<string>, duration: int)

  /** `k` attempts were made of at most `retryCount + 1`: all but the last one failed, and the last one
      either succeeded or was the last one allowed. */
  ghost predicate Attempts(handler: int -> Outcome, retryCount: int, k: nat) {
    && (k == 0 <==> retryCount < 0) && (k > 0 ==> k <= retryCount + 1)
    && (forall j :: 1 <= j < k ==> handler(j).error.Some?)
    && (0 < k <= retryCount ==> handler(k).error.None?)
  }

  function TotalDuration(handler: int -> Outcome, k: nat): int {
    if k == 0 then 0 else TotalDuration(handler, k - 1) + handler(k).duration
  }

  function Pauses(retryInterval: int, k: nat): int {
    if k <= 1 || retryInterval <= 0 then 0 else (k - 1) * retryInterval
  }

  /** The time from the first attempt to the end of the last. */
  function Elapsed(handler: int -> Outcome, retryInterval: int, k: nat): int {
    TotalDuration(handler, k) + Pauses(retryInterval, k)
  }

  datatype Stats = Stats(runs: int, successes: int, fails: int, skips: int, lastError: Option<string>,
                         lastDuration: int, totalDuration: int)
  {
    function Succeeded(duration: int): Stats {
      this.(successes := successes + 1, lastError := None, lastDuration := duration,
            totalDuration := totalDuration + duration)
    }

    function Failed(duration: int, error: Option<string>): Stats {
      this.(fails := fails + 1, lastError := error, lastDuration := duration, totalDuration := totalDuration + duration)
    }
  }

  predicate Ends(handler: int -> Outcome, j: int, ok: bool) {
    if ok then handler(j).error.None? else handler(j).error.Some?
  }

  /** The number of the first `k` attempts that end without an error (`ok`), or with one. */
  function Count(handler: int -> Outcome, k: nat, ok: bool): nat {
    if k == 0 then 0 else Count(handler, k - 1, ok) + if Ends(handler, k, ok) then 1 else 0
  }

  function Those(handler: int -> Outcome, k: nat, ok: bool): set<int> {
    set j | 1 <= j <= k && Ends(handler, j, ok)
  }

  lemma {:induction false} CountIs(handler: int -> Outcome, k: nat, ok: bool)
    ensures Count(handler, k, ok) == |Those(handler, k, ok)|
  {
    if k == 0 {
      assert Those(handler, k, ok) == {};
    } else {
      CountIs(handler, k - 1, ok);
      var before := Those(handler, k - 1, ok);
      assert Those(handler, k, ok) == if Ends(handler, k, ok) then before + {k} else before;
    }
  }

  /** What `k` attempts do to the statistics. */
  predicate Attempted(st: Stats, st': Stats, handler: int -> Outcome, k: nat) {
    && st'.runs == st.runs + k && st'.skips == st.skips
    && st'.successes == st.successes + Count(handler, k, true) && st'.fails == st.fails + Count(handler, k, false)
    && st'.totalDuration == st.totalDuration + TotalDuration(handler, k)
    && (if k == 0 then st'.lastError == st.lastError && st'.lastDuration == st.lastDuration
        else st'.lastError == handler(k).error && st'.lastDuration == handler(k).duration)
  }

  lemma OneMoreAttempt(st: Stats, st': Stats, handler: int -> Outcome, k: nat)
    requires Attempted(st, st', handler, k)
    ensures var outcome := handler(k + 1);
      Attempted(st, if outcome.error.None? then st'.(runs := st'.runs + 1).Succeeded(outcome.duration)
                    else st'.(runs := st'.runs + 1).Failed(outcome.duration, outcome.error), handler, k + 1)
  {
  }

  class JobStats {
    var runCount: int
    var successCount: int
    var failCount: int
    var skipCount: int
    var lastError: Option<string>
    var lastDuration: int
    var totalDuration: int

    constructor ()
      ensures Snapshot() == Stats(0, 0, 0, 0, None, 0, 0)
    {
      runCount, successCount, failCount, skipCount := 0, 0, 0, 0;
      lastError, lastDuration, totalDuration := None, 0, 0;
    }

    /** `Clone`. */
    function Snapshot(): Stats
      reads this
    {
      Stats(runCount, successCount, failCount, skipCount, lastError, lastDuration, totalDuration)
    }

    method RecordStart()
      modifies this
      ensures Snapshot() == old(Snapshot()).(runs := old(runCount) + 1)
    {
      runCount := runCount + 1;
    }

    method RecordSuccess(duration: int)
      modifies this
      ensures Snapshot() == old(Snapshot()).Succeeded(duration)
    {
      successCount := successCount + 1;
      lastDuration := duration;
      totalDuration := totalDuration + duration;
      lastError := None;
    }

    method RecordFail(duration: int, error: Option<string>)
      modifies this
      ensures Snapshot() == old(Snapshot()).Failed(duration, error)
    {
      failCount := failCount + 1;
      lastDuration := duration;
      totalDuration := totalDuration + duration;
      lastError := error;
    }

    method RecordSkip()
      modifies this
      ensures Snapshot() == old(Snapshot()).(skips := old(skipCount) + 1)
    {
      skipCount := skipCount + 1;
    }
  }

  class Job {
    const name: string
    const singleton: bool
    const distributed: bool
    const timeout: int
    const retryCount: int
    const retryInterval: int
    const stats: JobStats
    /** The state word: running or idle. */
    var running: bool

    constructor (name: string, singleton: bool, distributed: bool, timeout: int, retryCount: int, retryInterval: int)
      ensures this.name == name && this.singleton == singleton && this.distributed == distributed
      ensures this.timeout == timeout && this.retryCount == retryCount && this.retryInterval == retryInterval
      ensures fresh(stats) && stats.Snapshot() == Stats(0, 0, 0, 0, None, 0, 0) && !running
    {
      this.name, this.singleton, this.distributed, this.timeout := name, singleton, distributed, timeout;
      this.retryCount, this.retryInterval, running := retryCount, retryInterval, false;
      stats := new JobStats();
    }

    method TryStart() returns (ok: bool)
      modifies this
      ensures ok <==> !old(running)
      ensures running
    {
      ok := !running;
      running := true;
    }

    method Finish()
      modifies this
      ensures !running
    {
      running := false;
    }

    /** `runWithRetry`: `k` attempts, the last of which ends at `end`. */
    method RunWithRetry(handler: int -> Outcome, now: int) returns (k: nat, end: int)
      modifies stats
      ensures Attempts(handler, retryCount, k) && end == now + Elapsed(handler, retryInterval, k)
      ensures Attempted(old(stats.Snapshot()), stats.Snapshot(), handler, k)
    {
      var maxAttempts := retryCount + 1;
      var attempt := 1;
      k, end := 0, now;
      while attempt <= maxAttempts
        invariant attempt == k + 1 && (k == 0 || attempt <= maxAttempts)
        invariant forall j :: 1 <= j <= k ==> handler(j).error.Some?
        invariant end == now + TotalDuration(handler, k) + Pauses(retryInterval, k + 1)
        invariant Attempted(old(stats.Snapshot()), stats.Snapshot(), handler, k)
      {
        OneMoreAttempt(old(stats.Snapshot()), stats.Snapshot(), handler, k);
        stats.RecordStart();
        var outcome := handler(attempt);
        end := end + outcome.duration;
        k := k + 1;
        if outcome.error.None? {
          stats.RecordSuccess(outcome.duration);
          return;
        }
        stats.RecordFail(outcome.duration, outcome.error);
        if attempt >= maxAttempts {
          return;
        }
        if retryInterval > 0 {
          end := end + retryInterval;
        }
        attempt := attempt + 1;
      }
    }
  }

  // ----- executeJob -----

  datatype Verdict =
    | Busy                    // the previous execution has not ended
    | LockFailed              // the lock store returned an error
    | LockTaken               // another instance holds the lock
    | Blocked                 // a before-hook said no
    | Ran(attempts: nat)

  const MINUTE := 60_000_000_000

  /** How long the lock is taken for. */
  function LockTTL(timeout: int, lockTTL: int): int {
    if timeout > 0 && timeout > lockTTL then timeout + MINUTE else lockTTL
  }

  /** The first obstacle decides. */
  predicate Judged(v: Verdict, busy: bool, lockFails: bool, taken: bool, hooksOk: bool) {
    && (v.Busy? <==> busy)
    && (v.LockFailed? <==> !busy && lockFails)
    && (v.LockTaken? <==> !busy && !lockFails && taken)
    && (v.Blocked? <==> !busy && !lockFails && !taken && !hooksOk)
  }

  /** An admitted call gives the lock back unless the store fails it. */
  function Afterwards(view: View, v: Verdict, locks: bool, unlockFails: bool, key: string, ttl: int, now: int): View {
    if locks && (v.Blocked? || v.Ran?) then
      var taken := view.Taken(key, ttl, now);
      if unlockFails then taken else taken.Returned(key)
    else view
  }

  class Executor {
    const locker: RedisLock
    const lockTTL: int

    constructor (locker: RedisLock, lockTTL: int)
      ensures this.locker == locker && this.lockTTL == lockTTL
    {
      this.locker, this.lockTTL := locker, lockTTL;
    }

    /** `executeJob` undisturbed: who is turned away, and that an admitted call gives back the state word and
        the lock whatever its handler does.  `lockFails` and `unlockFails` are errors of the lock store. */
    method ExecuteJob(job: Job, handler: int -> Outcome, hooksOk: bool, now: int, lockFails: bool, unlockFails: bool)
      returns (v: Verdict, end: int)
      modifies job, job.stats, locker, locker.cache
      ensures Judged(v, job.singleton && old(job.running), job.distributed && lockFails,
        job.distributed && Live(old(locker.cache.data), locker.prefix + job.name, now), hooksOk)
      ensures job.running == old(job.running)
      ensures locker.Contents() == Afterwards(old(locker.Contents()), v, job.distributed, unlockFails, job.name,
        LockTTL(job.timeout, lockTTL), now)
      ensures v.Busy? || v.LockFailed? || v.LockTaken? ==>
        job.stats.Snapshot() == old(job.stats.Snapshot()).(skips := old(job.stats.skipCount) + 1)
      ensures v.Blocked? ==> job.stats.Snapshot() == old(job.stats.Snapshot())
      ensures v.Ran? ==> Attempts(handler, job.retryCount, v.attempts)
      ensures v.Ran? ==> Attempted(old(job.stats.Snapshot()), job.stats.Snapshot(), handler, v.attempts)
      ensures end == now + if v.Ran? then Elapsed(handler, job.retryInterval, v.attempts) else 0
    {
      end := now;
      if job.singleton {
        var started := job.TryStart();
        if !started {
          job.stats.RecordSkip();
          return Busy, end;
        }
      }
      if job.distributed {
        var acquired, failed := locker.TryLock(job.name, LockTTL(job.timeout, lockTTL), now, lockFails);
        if !acquired {
          job.stats.RecordSkip();
          if job.singleton {
            job.Finish();
          }
          return if failed then LockFailed else LockTaken, end;
        }
      }
      v := Blocked;
      if hooksOk {
        var k;
        k, end := job.RunWithRetry(handler, now);
        v := Ran(k);
      }
      if job.distributed {
        var released := locker.Unlock(job.name, unlockFails);
      }
      if job.singleton {
        job.Finish();
      }
    }
  }

  // ----- What follows for runs of the scheduler -----

  /** What an execution's statistics tell: every attempt is a success or a failure, only the last attempt can be a
      success, and the last error says whether it was. */
  lemma RunsAreAccountedFor(st: Stats, st': Stats, handler: int -> Outcome, retryCount: int, k: nat)
    requires Attempts(handler, retryCount, k) && Attempted(st, st', handler, k)
    ensures st'.runs - st.runs == (st'.successes - st.successes) + (st'.fails - st.fails)
    ensures st'.successes - st.successes == if k > 0 && handler(k).error.None? then 1 else 0
    ensures k > 0 ==> (st'.lastError.None? <==> st'.successes > st.successes)
    ensures st'.runs == st.runs <==> retryCount < 0
    ensures st'.fails - st.fails > retryCount >= 0 <==> k > 0 && st'.lastError.Some?
  {
    if k > 0 {
      AllFail(handler, k - 1);
    }
  }

  lemma {:induction false} AllFail(handler: int -> Outcome, k: nat)
    requires forall j :: 1 <= j <= k ==> handler(j).error.Some?
    ensures Count(handler, k, true) == 0 && Count(handler, k, false) == k
  {
    if k > 0 {
      AllFail(handler, k - 1);
    }
  }

  /** The durations add up from either end. */
  lemma {:induction false} DurationFromFirst(handler: int -> Outcome, k: nat)
    ensures TotalDuration(handler, 0) == 0
    ensures TotalDuration(handler, k + 1) == handler(1).duration + TotalDuration((j: int) => handler(j + 1), k)
  {
    if k > 0 {
      DurationFromFirst(handler, k - 1);
    }
  }

  ghost predicate InTime(handler: int -> Outcome, timeout: int) {
    forall j :: 0 <= handler(j).duration <= timeout
  }

  lemma {:induction false} DurationBound(handler: int -> Outcome, timeout: int, k: nat)
    requires InTime(handler, timeout)
    ensures 0 <= TotalDuration(handler, k) <= k * timeout
  {
    if k > 0 {
      DurationBound(handler, timeout, k - 1);
      assert 0 <= handler(k).duration <= timeout;
    }
  }

  lemma {:induction false} SlowestDuration(timeout: int, error: string, k: nat)
    ensures TotalDuration((j: int) => Outcome(Some(error), timeout), k) == k * timeout
  {
    if k > 0 {
      SlowestDuration(timeout, error, k - 1);
    }
  }

  /** Some run whose attempts all keep the timeout lasts longer than the lock. */
  ghost predicate Outlives(retryCount: int, retryInterval: int, timeout: int, ttl: int) {
    exists handler: int -> Outcome, k: nat ::
      InTime(handler, timeout) && Attempts(handler, retryCount, k) && Elapsed(handler, retryInterval, k) > ttl
  }

  /** The longest run of a job whose handler keeps its timeout. */
  function LongestRun(retryCount: nat, retryInterval: int, timeout: nat): int {
    (retryCount + 1) * timeout + Pauses(retryInterval, retryCount + 1)
  }

  lemma LongestIsUpperBound(handler: int -> Outcome, retryCount: nat, retryInterval: int, timeout: nat, k: nat)
    requires InTime(handler, timeout) && Attempts(handler, retryCount, k)
    ensures Elapsed(handler, retryInterval, k) <= LongestRun(retryCount, retryInterval, timeout)
  {
    DurationBound(handler, timeout, k);
    Monotone(k, retryCount + 1, timeout);
    if retryInterval > 0 {
      Monotone(k - 1, retryCount, retryInterval);
    }
  }

  lemma Monotone(a: int, b: int, factor: nat)
    requires a <= b
    ensures a * factor <= b * factor
  {
  }

  /** The lock, taken for `ttl`, covers every run that keeps its timeout exactly when it covers the longest. */
  lemma LockOutlivedIff(retryCount: nat, retryInterval: int, timeout: nat, ttl: int)
    ensures Outlives(retryCount, retryInterval, timeout, ttl) <==> LongestRun(retryCount, retryInterval, timeout) > ttl
  {
    if LongestRun(retryCount, retryInterval, timeout) > ttl {
      var handler := (j: int) => Outcome(Some("timeout"), timeout);
      SlowestDuration(timeout, "timeout", retryCount + 1);
      assert InTime(handler, timeout) && Attempts(handler, retryCount, retryCount + 1);
    } else {
      forall handler: int -> Outcome, k: nat | InTime(handler, timeout) && Attempts(handler, retryCount, k)
        ensures Elapsed(handler, retryInterval, k) <= ttl
      {
        LongestIsUpperBound(handler, retryCount, retryInterval, timeout, k);
      }
    }
  }

  /** The TTL rule of `executeJob` looks at one attempt only: without retries the lock always lasts; with retries it
      lasts only if they fit as well, into the minute that a long timeout adds or into the configured TTL. */
  lemma TTLCoversOneAttempt(retryInterval: int, timeout: nat, lockTTL: nat)
    ensures !Outlives(0, retryInterval, timeout, LockTTL(timeout, lockTTL))
    ensures forall retryCount: nat :: Outlives(retryCount, retryInterval, timeout, LockTTL(timeout, lockTTL)) <==>
      retryCount * timeout + Pauses(retryInterval, retryCount + 1) >
        if timeout > lockTTL then MINUTE else lockTTL - timeout
  {
    LockOutlivedIff(0, retryInterval, timeout, LockTTL(timeout, lockTTL));
    forall retryCount: nat {
      LockOutlivedIff(retryCount, retryInterval, timeout, LockTTL(timeout, lockTTL));
    }
  }

  /** How an execution spends its time: attempts, and a pause between each two of them if there is an interval. */
  lemma ElapsedIs(handler: int -> Outcome, retryInterval: int, k: nat)
    ensures Elapsed(handler, retryInterval, 0) == 0
    ensures Elapsed(handler, retryInterval, 1) == handler(1).duration
    ensures k >= 1 ==>
      var pause := if retryInterval > 0 then retryInterval else 0;
      Elapsed(handler, retryInterval, k + 1) == Elapsed(handler, retryInterval, k) + pause + handler(k + 1).duration
  {
    assert TotalDuration(handler, 1) == TotalDuration(handler, 0) + handler(1).duration;
  }

  // ----- executeJob as a run of the protocol -----

  /** The hooks and the handler: call `c` goes from its hooks to what follows the run. */
  lemma HooksAndHandler(view: View, g: P.Config, s: P.State, c: nat, ran: bool, now: int, end: int)
    returns (actions: seq<P.Action>, s': P.State)
    requires P.ValidConfig(g) && c < |g.calls| && Reflects(view, g, s, g.calls[c].instance, now)
    requires P.At(g, s, c, P.Hooks) && now <= end && (!ran ==> end == now)
    ensures P.Run(g, s, actions) == Some(s') && OnlyCall(actions, c) && s'.running == s.running
    ensures s'.points == s.points[c := P.AfterRun(g, c)] && Reflects(view, g, s', g.calls[c].instance, end)
  {
    P.RunOne(g, s, P.RunHooks(c, ran));
    actions, s' := [P.RunHooks(c, ran)], P.Step(g, s, P.RunHooks(c, ran)).value;
    if ran {
      var waits, t := TimePasses(view, g, s', g.calls[c].instance, now, end);
      P.RunConcat(g, s, actions, waits);
      P.RunSnoc(g, s, actions + waits, P.EndRun(c));
      actions, s' := actions + waits + [P.EndRun(c)], P.Step(g, t, P.EndRun(c)).value;
      assert s'.points == s.points[c := P.AfterRun(g, c)];
    }
  }

  /** From the lock attempt to the end of `executeJob`, for a call whose lock is free or that needs none. */
  lemma AdmittedIsARun(view: View, g: P.Config, s: P.State, c: nat, ran: bool, unlockFails: bool, ttl: int,
      now: int, end: int)
    returns (actions: seq<P.Action>, s': P.State)
    requires P.ValidConfig(g) && c < |g.calls| && Reflects(view, g, s, g.calls[c].instance, now)
    requires P.At(g, s, c, P.AfterBegin(g, c)) && now <= end && (!ran ==> end == now)
    requires P.Locks(g, c) ==> !Live(view.data, view.prefix + P.JobOf(g, c).name, now)
    ensures P.Run(g, s, actions) == Some(s') && OnlyCall(actions, c) && s'.running == s.running
    ensures s'.points == s.points[c := P.Finishing]
    ensures var key := P.JobOf(g, c).name;
      var taken := view.Taken(key, ttl, now);
      Reflects(if !P.Locks(g, c) then view else if unlockFails then taken else taken.Returned(key), g, s',
        g.calls[c].instance, end)
  {
    if !P.Locks(g, c) {
      actions, s' := HooksAndHandler(view, g, s, c, ran, now, end);
    } else {
      var t, u, more;
      actions, t := TryLockIsItsSteps(view, g, s, c, ttl, now, false);
      var taken := view.Taken(P.JobOf(g, c).name, ttl, now);
      more, u := HooksAndHandler(taken, g, t, c, ran, now, end);
      P.RunConcat(g, s, actions, more);
      actions := actions + more;
      more, s' := UnlockIsItsSteps(taken, g, u, c, end, unlockFails);
      P.RunConcat(g, s, actions, more);
      actions := actions + more;
      assert s'.points == s.points[c := P.Finishing];
    }
  }

  /** What `ExecuteJob` promises is what the protocol allows: an undisturbed execution is a run of its call's
      own steps, to the end, and the final cache, marks and state word are those the run arrives at. */
  lemma ExecutionIsARun(view: View, g: P.Config, s: P.State, c: nat, v: Verdict, hooksOk: bool,
      lockFails: bool, unlockFails: bool, ttl: int, now: int, end: int)
    returns (actions: seq<P.Action>, s': P.State)
    requires P.ValidConfig(g) && c < |g.calls| && g.instances[g.calls[c].instance].hasLocker
    requires Reflects(view, g, s, g.calls[c].instance, now) && P.At(g, s, c, P.Start)
    requires Judged(v, P.JobOf(g, c).singleton && g.calls[c].job in s.running,
               P.JobOf(g, c).distributed && lockFails,
               P.JobOf(g, c).distributed && Live(view.data, view.prefix + P.JobOf(g, c).name, now), hooksOk)
    requires now <= end && (!v.Ran? ==> end == now)
    ensures P.Run(g, s, actions) == Some(s') && OnlyCall(actions, c)
    ensures P.At(g, s', c, P.Done) && s'.running == s.running
    ensures Reflects(Afterwards(view, v, P.JobOf(g, c).distributed, unlockFails, P.JobOf(g, c).name, ttl, now),
              g, s', g.calls[c].instance, end)
  {
    P.RunOne(g, s, P.Begin(c));
    actions, s' := [P.Begin(c)], P.Step(g, s, P.Begin(c)).value;
    if !v.Busy? {
      var more;
      if v.LockTaken? || v.LockFailed? {
        more, s' := TryLockIsItsSteps(view, g, s', c, ttl, now, lockFails);
      } else {
        more, s' := AdmittedIsARun(view, g, s', c, v.Ran?, unlockFails, ttl, now, end);
      }
      P.RunConcat(g, s, actions, more);
      P.RunSnoc(g, s, actions + more, P.Finish(c));
      actions, s' := actions + more + [P.Finish(c)], P.Step(g, s', P.Finish(c)).value;
      assert s'.running == s.running;
    }
  }
}
