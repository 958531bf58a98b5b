/** The saga engine of `saga/saga.go` and `saga/state.go`. */
module Sagas {
  import opened Options
  import opened SagaTrace

  datatype SagaStatus = Pending | Running | Completed | Failed | Compensating | Compensated | CompensateFailed {
    predicate IsTerminal() {
      Completed? || Compensated? || CompensateFailed?
    }
  }

  datatype StepStatus =
    StepPending | StepRunning | StepCompleted | StepFailed | StepCompensating | StepCompensated | StepCompensateFailed

  /** What `ExecuteWithData` returns: nil, or an error that wraps the cause. */
  datatype Result = Nil | SagaFailed(cause: string) | SagaFailedTwice(cause: string, compensation: string)

  /** One execution: the saga's steps and retry count, the context it runs under, the world its steps act on
      (which includes the shared `Data`), and its `State`.  `ctx(t)` is the context's error at tick `t`, if
      it is done by then; it stands for both `ctx.Err()` and a wait that the context ends. */
  class Execution<W(!new)> {
    const steps: seq<Step<W>>
    const retryCount: int
    const ctx: nat -> Option<string>
    var world: W
    var tick: nat
    var status: SagaStatus
    var results: seq<StepStatus>
    /** The statuses handed to the store, in order.  Whether the store accepts them changes nothing. */
    var saved: seq<SagaStatus>
    /** The calls made so far: one segment of attempts per step tried, then the compensations. */
    ghost var segments: seq<seq<Event>>
    ghost var undo: seq<Event>

    /** `NewState`: everything pending.  `Build` refuses a saga without steps. */
    constructor (steps: seq<Step<W>>, retryCount: int, ctx: nat -> Option<string>, world: W)
      requires steps != []
      ensures this.steps == steps && this.retryCount == retryCount && this.ctx == ctx && this.world == world
      ensures status == Pending && |results| == |steps| && AllPending(results)
      ensures saved == [] && segments == [] && undo == [] && tick == 0
    {
      this.steps, this.retryCount, this.ctx, this.world := steps, retryCount, ctx, world;
      tick, status, saved, segments, undo := 0, Pending, [], [], [];
      results := seq(|steps|, i => StepPending);
    }

    method SaveState()
      modifies this`saved
      ensures saved == old(saved) + [status]
    {
      saved := saved + [status];
    }

    /** One call of a step's action, at the start or after a wait that the context did not end. */
    method Attempt(i: nat, ghost w0: W, ghost start: nat, ghost es: seq<Event>, ghost lastErr: Option<string>)
        returns (err: Option<string>, ghost es': seq<Event>)
      requires i < |steps| && |es| <= retryCount && (es != [] ==> tick > 0 && ctx(tick - 1).None?)
      requires Trying(steps, ctx, i, w0, world, start, if es == [] then tick else tick - 1, es, lastErr)
      modifies this`world, this`tick
      ensures |es'| == |es| + 1
      ensures err.None? ==> StepRun(steps, retryCount, ctx, i, w0, world, start, tick, es', None)
      ensures err.Some? ==> Trying(steps, ctx, i, w0, world, start, tick, es', err)
    {
      var outcome := steps[i].action(world, tick);
      TryOnce(steps, retryCount, ctx, i, w0, world, start, tick, es, lastErr, outcome);
      es' := es + [Acted(i, tick, outcome.error.None?)];
      world, tick := outcome.world, tick + 1;
      err := outcome.error;
    }

    /** `executeStepWithRetry`.  Before every attempt but the first the context may end the wait; without that a
        failing step uses up all its attempts, and the last one's error is returned. */
    method ExecuteStepWithRetry(i: nat) returns (err: Option<string>, ghost es: seq<Event>)
      requires i < |steps|
      modifies this`world, this`tick
      ensures StepRun(steps, retryCount, ctx, i, old(world), world, old(tick), tick, es, err)
    {
      var lastErr: Option<string> := None;
      es := [];
      var attempt := 0;
      while attempt <= retryCount
        invariant 0 <= attempt == |es| <= if retryCount < 0 then 0 else retryCount + 1
        invariant Trying(steps, ctx, i, old(world), world, old(tick), tick, es, lastErr)
        decreases retryCount + 1 - attempt
      {
        if attempt > 0 {
          var done := ctx(tick);
          tick := tick + 1;
          if done.Some? {
            StepInterrupted(steps, retryCount, ctx, i, old(world), world, old(tick), tick - 1, es, lastErr);
            return done, es;
          }
        }
        lastErr, es := Attempt(i, old(world), old(tick), es, lastErr);
        if lastErr.None? {
          return None, es;
        }
        attempt := attempt + 1;
      }
      StepUsedUp(steps, retryCount, ctx, i, old(world), world, old(tick), tick, es, lastErr);
      err := lastErr;
    }

    /** One round of `compensate` for a step that has a compensation. */
    method CompensateStep(i: nat) returns (err: Option<string>, ghost e: Event)
      requires i < |steps| == |results| && steps[i].compensate.Some?
      modifies this`world, this`tick, this`results
      ensures e.Undone? && e.step == i && e.ok == err.None?
      ensures Possible(steps, e) && world == Call(steps, old(world), e).world
          && err == Call(steps, old(world), e).error
      ensures results == old(results)[i := if e.ok then StepCompensated else StepCompensateFailed]
    {
      results := results[i := StepCompensating];
      var outcome := steps[i].compensate.value(world, tick);
      e := Undone(i, tick, outcome.error.None?);
      world, tick := outcome.world, tick + 1;
      err := outcome.error;
      if err.Some? {
        results := results[i := StepCompensateFailed];
      } else {
        results := results[i := StepCompensated];
      }
    }

    /** `compensate`: last completed step first, and on past failures. */
    method Compensate(completed: nat) returns (err: Option<string>)
      requires completed <= |steps| == |results| && undo == []
      modifies this`world, this`tick, this`results, this`undo
      ensures Unwound(steps, completed, 0, old(world), world, undo, old(results), results, err.None?)
      ensures err == LastFailure(steps, old(world), undo)
    {
      err := None;
      var i: nat := completed;
      while i > 0
        invariant i <= completed
            && Unwound(steps, completed, i, old(world), world, undo, old(results), results, err.None?)
        invariant err == LastFailure(steps, old(world), undo)
      {
        i := i - 1;
        if steps[i].compensate.None? {
          SkipStep(steps, completed, i, old(world), world, undo, old(results), results, err.None?);
          results := results[i := StepCompensated];
          continue;
        }
        ghost var w, r := world, results;
        var failure;
        ghost var e;
        failure, e := CompensateStep(i);
        UnwindStep(steps, completed, i, old(world), w, undo, old(results), r, err.None?, e);
        LastFailureSnoc(steps, old(world), undo, e);
        undo := undo + [e];
        if failure.Some? {
          err := failure;
        }
      }
    }

    /** One round of the forward loop, after a check of the context that found it not done. */
    method TryStep(i: nat, ghost w0: W) returns (err: Option<string>)
      requires i < |steps| && tick > 0 && ctx(tick - 1).None?
      requires OnTrack(steps, retryCount, ctx, w0, world, segments, i, results, tick - 1)
      modifies this`world, this`tick, this`results, this`segments
      ensures err.None? ==> OnTrack(steps, retryCount, ctx, w0, world, segments, i + 1, results, tick)
      ensures err.Some? ==> Stopped(steps, retryCount, ctx, w0, world, segments, i, results, err.value)
    {
      ghost var w, start, was := world, tick, results;
      results := results[i := StepRunning];
      ghost var es;
      err, es := ExecuteStepWithRetry(i);
      StepTaken(steps, retryCount, ctx, w0, w, world, segments, i, was, start, tick, es, err);
      segments := segments + [es];
      if err.Some? {
        assert results[i := StepFailed] == was[i := StepFailed];
        results := results[i := StepFailed];
        return;
      }
      assert results[i := StepCompleted] == was[i := StepCompleted];
      results := results[i := StepCompleted];
    }

    /** The forward loop: steps in order until one fails or the context is done. */
    method RunSteps() returns (completed: nat, lastErr: Option<string>)
      requires |results| == |steps| && AllPending(results) && segments == [] && tick == 0
      modifies this`world, this`tick, this`results, this`segments
      ensures lastErr.None? ==> completed == |steps|
      ensures lastErr.None? ==> OnTrack(steps, retryCount, ctx, old(world), world, segments, completed, results, tick)
      ensures lastErr.Some? ==>
        Stopped(steps, retryCount, ctx, old(world), world, segments, completed, results, lastErr.value)
    {
      completed, lastErr := 0, None;
      while completed < |steps|
        invariant completed <= |steps|
        invariant OnTrack(steps, retryCount, ctx, old(world), world, segments, completed, results, tick)
        decreases |steps| - completed
      {
        var done := ctx(tick);
        if done.Some? {
          tick := tick + 1;
          return completed, done;
        }
        tick := tick + 1;
        var err := TryStep(completed, old(world));
        if err.Some? {
          return completed, err;
        }
        completed := completed + 1;
      }
    }

    /** The part of `ExecuteWithData` after a step has failed or the context has ended. */
    method Unwind(cause: string, completed: nat, ghost w0: W) returns (r: Result)
      requires completed < |steps| && Advanced(steps, retryCount, w0, world, segments, completed, results) && undo == []
      modifies this`status, this`saved, this`world, this`tick, this`results, this`undo
      ensures Finished(steps, retryCount, w0, world, status, segments, completed, undo, results)
      ensures (status.Compensated? || status.CompensateFailed?) && !r.Nil? && r.cause == cause
      ensures r.SagaFailedTwice? <==> status.CompensateFailed?
      ensures r.SagaFailedTwice? ==> Some(r.compensation) == LastFailure(steps, old(world), undo)
      ensures old(world) == After(steps, w0, Flatten(segments))
      ensures saved == old(saved) + [Compensating, status]
    {
      status := Compensating;
      SaveState();
      ghost var w, forward := world, results;
      var compensateErr := Compensate(completed);
      EndedBadly(steps, retryCount, w0, w, world, segments, completed, undo, forward, results, compensateErr.None?);
      if compensateErr.Some? {
        status := CompensateFailed;
        SaveState();
        return SagaFailedTwice(cause, compensateErr.value);
      }
      status := Compensated;
      SaveState();
      r := SagaFailed(cause);
    }

    /** `ExecuteWithData`. */
    method ExecuteWithData() returns (r: Result, ghost completed: nat)
      requires |results| == |steps| && AllPending(results)
      requires segments == [] && undo == [] && saved == [] && tick == 0
      modifies this
      ensures Finished(steps, retryCount, old(world), world, status, segments, completed, undo, results)
      ensures r.Nil? <==> status.Completed?
      ensures r.SagaFailedTwice? <==> status.CompensateFailed?
      ensures saved == if status.Completed? then [Running, Completed] else [Running, Compensating, status]
      ensures status.IsTerminal()
      ensures Explained(steps, retryCount, ctx, old(world), segments, completed, if r.Nil? then None else Some(r.cause))
      ensures r.SagaFailedTwice? ==>
        Some(r.compensation) == LastFailure(steps, After(steps, old(world), Flatten(segments)), undo)
    {
      status := Running;
      SaveState();
      var lastErr;
      var done;
      done, lastErr := RunSteps();
      completed := done;
      if lastErr.None? {
        status := Completed;
        SaveState();
        EndedWell(steps, retryCount, old(world), world, segments, results);
        WhyCompleted(steps, retryCount, ctx, old(world), world, segments, completed, results, tick);
        return Nil, completed;
      }
      WhyStopped(steps, retryCount, ctx, old(world), world, segments, completed, results, lastErr.value);
      r := Unwind(lastErr.value, done, old(world));
    }
  }

  ghost predicate AllPending(results: seq<StepStatus>) {
    forall k :: 0 <= k < |results| ==> results[k] == StepPending
  }

  /** All attempts at step `i` so far have failed, the last one with `lastErr`. */
  ghost predicate Trying<W(!new)>(steps: seq<Step<W>>, ctx: nat -> Option<string>, i: nat, w0: W, w: W,
                                  start: nat, tick: nat, es: seq<Event>, lastErr: Option<string>) {
    && (forall j :: 0 <= j < |es| ==> es[j].Acted? && es[j].step == i && !es[j].ok)
    && Faithful(steps, w0, es) && w == After(steps, w0, es) && Waited(ctx, start, es)
    && tick == (if es == [] then start else start + 2 * |es| - 1)
    && lastErr == LastError(steps, w0, es) && (es != [] ==> lastErr.Some?)
  }

  /** One attempt: the step succeeds, or goes on being tried. */
  lemma TryOnce<W(!new)>(steps: seq<Step<W>>, retryCount: int, ctx: nat -> Option<string>, i: nat, w0: W, w: W,
                         start: nat, tick: nat, es: seq<Event>, lastErr: Option<string>, outcome: Outcome<W>)
    requires i < |steps| && |es| <= retryCount && outcome == steps[i].action(w, tick)
    requires es != [] ==> tick > 0 && ctx(tick - 1).None?
    requires Trying(steps, ctx, i, w0, w, start, if es == [] then tick else tick - 1, es, lastErr)
    ensures var es' := es + [Acted(i, tick, outcome.error.None?)];
      if outcome.error.None? then StepRun(steps, retryCount, ctx, i, w0, outcome.world, start, tick + 1, es', None)
      else Trying(steps, ctx, i, w0, outcome.world, start, tick + 1, es', outcome.error)
  {
    var e := Acted(i, tick, outcome.error.None?);
    Extend(steps, w0, es, e);
    assert (es + [e])[..|es|] == es;
    forall j | 0 <= j < |es + [e]| ensures WaitedAt(ctx, start, (es + [e])[j], j) {
      if j < |es| {
        assert WaitedAt(ctx, start, es[j], j);
      }
    }
  }

  /** The context ends a wait. */
  lemma StepInterrupted<W(!new)>(steps: seq<Step<W>>, retryCount: int, ctx: nat -> Option<string>, i: nat, w0: W, w: W,
                                 start: nat, tick: nat, es: seq<Event>, lastErr: Option<string>)
    requires 0 < |es| <= retryCount && ctx(tick).Some? && Trying(steps, ctx, i, w0, w, start, tick, es, lastErr)
    ensures StepRun(steps, retryCount, ctx, i, w0, w, start, tick + 1, es, ctx(tick))
  {
  }

  /** All attempts are used up; with a negative retry count there are none. */
  lemma StepUsedUp<W(!new)>(steps: seq<Step<W>>, retryCount: int, ctx: nat -> Option<string>, i: nat, w0: W, w: W,
                            start: nat, tick: nat, es: seq<Event>, lastErr: Option<string>)
    requires |es| == (if retryCount < 0 then 0 else retryCount + 1)
    requires Trying(steps, ctx, i, w0, w, start, tick, es, lastErr)
    ensures StepRun(steps, retryCount, ctx, i, w0, w, start, tick, es, lastErr)
  {
  }

  // ----- The context and the cause -----

  /** Attempt `j` at a step that began at `start` was made after a wait that the context did not end. */
  ghost predicate Waited(ctx: nat -> Option<string>, start: nat, es: seq<Event>) {
    forall j :: 0 <= j < |es| ==> WaitedAt(ctx, start, es[j], j)
  }

  predicate WaitedAt(ctx: nat -> Option<string>, start: nat, e: Event, j: nat) {
    e.tick == start + 2 * j && (j > 0 ==> ctx(start + 2 * j - 1).None?)
  }

  /** One step, from tick `start` to tick `end`: its calls, and the error it ends with, which is that of the last
      call or of the context that ended a wait. */
  ghost predicate StepRun<W(!new)>(steps: seq<Step<W>>, retryCount: int, ctx: nat -> Option<string>, i: nat, w: W,
                                   w': W, start: nat, end: nat, es: seq<Event>, err: Option<string>) {
    && Attempts(es, i, retryCount, err.None?) && Waited(ctx, start, es)
    && Faithful(steps, w, es) && w' == After(steps, w, es)
    && (es == [] ==> end == start)
    && (es != [] ==> end == start + 2 * |es| - if Interrupted(es, retryCount) then 0 else 1)
    && (err.Some? ==>
        err == if Interrupted(es, retryCount) then ctx(start + 2 * |es| - 1) else LastError(steps, w, es))
  }

  /** A failing step that did not use up its attempts: the context ended a wait. */
  ghost predicate Interrupted(es: seq<Event>, retryCount: int) {
    0 < |es| <= retryCount && !es[|es| - 1].ok
  }

  /** The error of the last of these calls. */
  function LastError<W>(steps: seq<Step<W>>, w: W, es: seq<Event>): Option<string> {
    if es == [] then None
    else
      var e := es[|es| - 1];
      if Possible(steps, e) then Call(steps, After(steps, w, es[..|es| - 1]), e).error else None
  }

  /** Every call of an action was preceded by a check of the context that found it not done: checks at the even
      ticks, calls at the odd ones. */
  ghost predicate Checked(ctx: nat -> Option<string>, es: seq<Event>) {
    forall k :: 0 <= k < |es| ==> CheckedAt(ctx, es[k], k)
  }

  predicate CheckedAt(ctx: nat -> Option<string>, e: Event, k: nat) {
    e.tick == 2 * k + 1 && ctx(2 * k).None?
  }

  /** The tick of the next check.  With a negative retry count steps are only checked for, never called. */
  function NextCheck(retryCount: int, segments: seq<seq<Event>>): nat {
    if retryCount < 0 then |segments| else 2 * |Flatten(segments)|
  }

  /** Why the forward loop stopped: the last step used up its attempts, and `cause` is its last error; or the context
      was done when it was next looked at, and `cause` is its error. */
  ghost predicate StopReason<W(!new)>(steps: seq<Step<W>>, retryCount: int, ctx: nat -> Option<string>, w0: W,
                                      segments: seq<seq<Event>>, completed: nat, cause: string) {
    if |segments| == completed + 1 && |segments[completed]| == retryCount + 1
    then LastError(steps, w0, Flatten(segments)) == Some(cause)
    else ctx(NextCheck(retryCount, segments)) == Some(cause)
  }

  lemma CheckedStep(ctx: nat -> Option<string>, segments: seq<seq<Event>>, es: seq<Event>)
    requires Checked(ctx, Flatten(segments)) && Waited(ctx, 2 * |Flatten(segments)| + 1, es)
    requires ctx(2 * |Flatten(segments)|).None?
    ensures Checked(ctx, Flatten(segments + [es])) && |Flatten(segments + [es])| == |Flatten(segments)| + |es|
  {
    assert (segments + [es])[..|segments|] == segments;
    var before, all, n := Flatten(segments), Flatten(segments + [es]), |Flatten(segments)|;
    assert all == before + es;
    forall k | 0 <= k < |all| ensures CheckedAt(ctx, all[k], k) {
      if k < n {
        assert all[k] == before[k] && CheckedAt(ctx, before[k], k);
      } else {
        assert all[k] == es[k - n] && WaitedAt(ctx, 2 * n + 1, es[k - n], k - n);
      }
    }
  }

  /** The error of the last call of a run is that of its last segment. */
  lemma LastErrorOfSegment<W(!new)>(steps: seq<Step<W>>, w0: W, segments: seq<seq<Event>>, es: seq<Event>)
    requires es != []
    ensures LastError(steps, w0, Flatten(segments + [es])) == LastError(steps, After(steps, w0, Flatten(segments)), es)
  {
    assert (segments + [es])[..|segments|] == segments;
    var before, n := Flatten(segments), |es| - 1;
    assert (before + es)[..|before| + n] == before + es[..n] && (before + es)[|before| + n] == es[n];
    Concat(steps, w0, before, es[..n]);
  }

  /** What one more tried step does to the checks, and to the last error. */
  lemma SegmentAdded<W(!new)>(steps: seq<Step<W>>, retryCount: int, ctx: nat -> Option<string>, w0: W,
                              segments: seq<seq<Event>>, es: seq<Event>)
    requires Checked(ctx, Flatten(segments)) && ctx(NextCheck(retryCount, segments)).None?
    requires Waited(ctx, NextCheck(retryCount, segments) + 1, es)
    requires if retryCount < 0 then es == [] && Flatten(segments) == [] else es != []
    ensures Checked(ctx, Flatten(segments + [es]))
    ensures NextCheck(retryCount, segments + [es]) ==
      NextCheck(retryCount, segments) + if retryCount < 0 then 1 else 2 * |es|
    ensures es != [] ==>
      LastError(steps, w0, Flatten(segments + [es])) == LastError(steps, After(steps, w0, Flatten(segments)), es)
  {
    assert (segments + [es])[..|segments|] == segments;
    if retryCount >= 0 {
      CheckedStep(ctx, segments, es);
      LastErrorOfSegment(steps, w0, segments, es);
    }
  }

  /** The error of the last of these calls that failed. */
  function LastFailure<W>(steps: seq<Step<W>>, w: W, es: seq<Event>): Option<string> {
    if es == [] then None
    else
      var err := LastError(steps, w, es);
      if err.Some? then err else LastFailure(steps, w, es[..|es| - 1])
  }

  lemma LastFailureSnoc<W>(steps: seq<Step<W>>, w: W, es: seq<Event>, e: Event)
    requires Possible(steps, e)
    ensures var err := Call(steps, After(steps, w, es), e).error;
      LastFailure(steps, w, es + [e]) == if err.Some? then err else LastFailure(steps, w, es)
  {
    assert (es + [e])[..|es|] == es;
  }

  /** The forward loop has completed `completed` steps, each after a check, and is about to check again. */
  ghost predicate OnTrack<W(!new)>(steps: seq<Step<W>>, retryCount: int, ctx: nat -> Option<string>, w0: W, w: W,
                                   segments: seq<seq<Event>>, completed: nat, results: seq<StepStatus>, tick: nat) {
    && Advanced(steps, retryCount, w0, w, segments, completed, results) && |segments| == completed
    && tick == NextCheck(retryCount, segments) && Checked(ctx, Flatten(segments))
    && (retryCount < 0 ==> forall t :: 0 <= t < completed ==> ctx(t).None?)
  }

  /** The forward loop has stopped because of `cause`. */
  ghost predicate Stopped<W(!new)>(steps: seq<Step<W>>, retryCount: int, ctx: nat -> Option<string>, w0: W, w: W,
                                   segments: seq<seq<Event>>, completed: nat, results: seq<StepStatus>, cause: string) {
    && completed < |steps| && Advanced(steps, retryCount, w0, w, segments, completed, results)
    && Checked(ctx, Flatten(segments)) && (retryCount < 0 ==> forall t :: 0 <= t < completed ==> ctx(t).None?)
    && StopReason(steps, retryCount, ctx, w0, segments, completed, cause)
  }

  /** A step has been tried after a check: the loop goes on, or stops with that step's error. */
  lemma StepTaken<W(!new)>(steps: seq<Step<W>>, retryCount: int, ctx: nat -> Option<string>, w0: W, w: W, w': W,
                           segments: seq<seq<Event>>, i: nat, results: seq<StepStatus>, start: nat, end: nat,
                           es: seq<Event>, err: Option<string>)
    requires i < |steps| && start > 0 && ctx(start - 1).None?
    requires OnTrack(steps, retryCount, ctx, w0, w, segments, i, results, start - 1)
    requires StepRun(steps, retryCount, ctx, i, w, w', start, end, es, err)
    ensures err.None? ==>
      OnTrack(steps, retryCount, ctx, w0, w', segments + [es], i + 1, results[i := StepCompleted], end)
    ensures err.Some? ==>
      Stopped(steps, retryCount, ctx, w0, w', segments + [es], i, results[i := StepFailed], err.value)
  {
    NoCalls(segments, i, retryCount);
    SegmentAdded(steps, retryCount, ctx, w0, segments, es);
    if err.None? {
      AdvanceFrom(steps, retryCount, w0, w, w', segments, i, results, es, true);
    } else {
      AdvanceFrom(steps, retryCount, w0, w, w', segments, i, results, es, false);
    }
  }

  /** What a tried step does to the statuses, the world and the calls. */
  lemma AdvanceFrom<W(!new)>(steps: seq<Step<W>>, retryCount: int, w0: W, w: W, w': W, segments: seq<seq<Event>>,
                             i: nat, results: seq<StepStatus>, es: seq<Event>, ok: bool)
    requires i == |segments| < |steps| && Advanced(steps, retryCount, w0, w, segments, i, results)
    requires Attempts(es, i, retryCount, ok) && Faithful(steps, w, es) && w' == After(steps, w, es)
    ensures Advanced(steps, retryCount, w0, w', segments + [es], if ok then i + 1 else i,
                     results[i := if ok then StepCompleted else StepFailed])
  {
    var running := results[i := StepRunning];
    assert running[i := StepPending] == results by {
      assert results[i] == ForwardStatus(segments, i, i);
    }
    AdvanceStep(steps, retryCount, w0, w, w', segments, i, running, es, ok);
    var last := if ok then StepCompleted else StepFailed;
    assert running[i := last] == results[i := last];
  }

  /** With a negative retry count nothing has been called. */
  lemma NoCalls(segments: seq<seq<Event>>, completed: nat, retryCount: int)
    requires Forward(segments, completed, retryCount)
    ensures retryCount < 0 ==> Flatten(segments) == []
  {
    if retryCount < 0 {
      assert forall i :: 0 <= i < |segments| ==> Attempts(segments[i], i, retryCount, i < completed);
      AllEmpty(segments);
    }
  }

  /** Why the forward loop ended with `cause`, or without one: no call was made after a check that found the context
      done; a cause has its reason; and under a context that is never done, only giving up on a step ends the saga. */
  ghost predicate Explained<W(!new)>(steps: seq<Step<W>>, retryCount: int, ctx: nat -> Option<string>, w0: W,
                                     segments: seq<seq<Event>>, completed: nat, cause: Option<string>) {
    && Checked(ctx, Flatten(segments)) && (retryCount < 0 ==> forall t :: 0 <= t < completed ==> ctx(t).None?)
    && (cause.Some? ==> StopReason(steps, retryCount, ctx, w0, segments, completed, cause.value))
    && ((forall t :: ctx(t).None?) ==> (cause.None? <==> !GaveUp(segments, retryCount)))
  }

  lemma WhyStopped<W(!new)>(steps: seq<Step<W>>, retryCount: int, ctx: nat -> Option<string>, w0: W, w: W,
                            segments: seq<seq<Event>>, completed: nat, results: seq<StepStatus>, cause: string)
    requires Stopped(steps, retryCount, ctx, w0, w, segments, completed, results, cause)
    ensures Explained(steps, retryCount, ctx, w0, segments, completed, Some(cause))
  {
    if forall t :: ctx(t).None? {
      assert Attempts(segments[completed], completed, retryCount, false);
      assert UsedUp(segments[completed], retryCount);
    }
  }

  lemma WhyCompleted<W(!new)>(steps: seq<Step<W>>, retryCount: int, ctx: nat -> Option<string>, w0: W, w: W,
                              segments: seq<seq<Event>>, completed: nat, results: seq<StepStatus>, tick: nat)
    requires OnTrack(steps, retryCount, ctx, w0, w, segments, completed, results, tick)
    ensures Explained(steps, retryCount, ctx, w0, segments, completed, None)
  {
    assert forall i :: 0 <= i < |segments| ==> Attempts(segments[i], i, retryCount, i < completed);
  }

  /** All attempts allowed were made, and the last one failed. */
  predicate UsedUp(es: seq<Event>, retryCount: int) {
    es != [] && |es| == retryCount + 1 && !es[|es| - 1].ok
  }

  ghost predicate GaveUp(segments: seq<seq<Event>>, retryCount: int) {
    exists i :: 0 <= i < |segments| && UsedUp(segments[i], retryCount)
  }

  lemma EndedWell<W(!new)>(steps: seq<Step<W>>, retryCount: int, w0: W, w: W, segments: seq<seq<Event>>,
      results: seq<StepStatus>)
    requires Advanced(steps, retryCount, w0, w, segments, |steps|, results)
    ensures Finished(steps, retryCount, w0, w, Completed, segments, |steps|, [], results)
  {
    assert Flatten(segments) + [] == Flatten(segments);
  }

  lemma EndedBadly<W(!new)>(steps: seq<Step<W>>, retryCount: int, w0: W, w: W, w': W, segments: seq<seq<Event>>,
                            completed: nat, undo: seq<Event>, forward: seq<StepStatus>, results: seq<StepStatus>,
                            allOk: bool)
    requires Advanced(steps, retryCount, w0, w, segments, completed, forward) && completed < |steps|
    requires Unwound(steps, completed, 0, w, w', undo, forward, results, allOk)
    ensures Finished(steps, retryCount, w0, w', if allOk then Compensated else CompensateFailed,
              segments, completed, undo, results)
  {
    Concat(steps, w0, Flatten(segments), undo);
    assert StepsOf(undo) + Descending(steps, 0) == StepsOf(undo);
  }

  /** The forward loop has completed `completed` steps and tried at most one more. */
  ghost predicate Advanced<W(!new)>(steps: seq<Step<W>>, retryCount: int, w0: W, w: W, segments: seq<seq<Event>>,
                                    completed: nat, results: seq<StepStatus>) {
    && completed <= |segments| <= |steps| == |results|
    && Forward(segments, completed, retryCount)
    && Faithful(steps, w0, Flatten(segments)) && w == After(steps, w0, Flatten(segments))
    && forall k :: 0 <= k < |steps| ==> results[k] == ForwardStatus(segments, completed, k)
  }

  ghost function ForwardStatus(segments: seq<seq<Event>>, completed: nat, k: int): StepStatus {
    if k < completed then StepCompleted else if k < |segments| then StepFailed else StepPending
  }

  lemma AdvanceStep<W(!new)>(steps: seq<Step<W>>, retryCount: int, w0: W, w: W, w': W, segments: seq<seq<Event>>,
                             i: nat, results: seq<StepStatus>, es: seq<Event>, ok: bool)
    requires i == |segments| < |steps| == |results| && results[i] == StepRunning
    requires Advanced(steps, retryCount, w0, w, segments, i, results[i := StepPending])
    requires Attempts(es, i, retryCount, ok) && Faithful(steps, w, es) && w' == After(steps, w, es)
    ensures Advanced(steps, retryCount, w0, w', segments + [es], if ok then i + 1 else i,
                     results[i := if ok then StepCompleted else StepFailed])
  {
    var segments', completed := segments + [es], if ok then i + 1 else i;
    assert segments'[..i] == segments;
    Concat(steps, w0, Flatten(segments), es);
    forall k | 0 <= k < |segments'| ensures Attempts(segments'[k], k, retryCount, k < completed) {
      if k < i {
        assert Attempts(segments[k], k, retryCount, k < i);
      }
    }
    assert Forward(segments', completed, retryCount);
    var results' := results[i := if ok then StepCompleted else StepFailed];
    forall k | 0 <= k < |steps| ensures results'[k] == ForwardStatus(segments', completed, k) {
      if k != i {
        assert results'[k] == results[i := StepPending][k] == ForwardStatus(segments, i, k);
      }
    }
    assert Faithful(steps, w0, Flatten(segments'));
    assert w' == After(steps, w0, Flatten(segments'));
  }

  /** How an execution ends, for every pattern of outcomes and cancellations. */
  ghost predicate Finished<W(!new)>(steps: seq<Step<W>>, retryCount: int, w0: W, w: W, status: SagaStatus,
                                    segments: seq<seq<Event>>, completed: nat, undo: seq<Event>,
                                    results: seq<StepStatus>) {
    && completed <= |segments| <= |steps| == |results| && Forward(segments, completed, retryCount)
    && Faithful(steps, w0, Flatten(segments) + undo) && w == After(steps, w0, Flatten(segments) + undo)
    && (status.Completed? <==> completed == |steps|)
    && (if status.Completed? then undo == []
        else Backward(steps, undo, completed) && status == if AllOk(undo) then Compensated else CompensateFailed)
    && forall k :: 0 <= k < |steps| ==> results[k] == FinalStatus(status, segments, completed, undo, k)
  }

  /** The final status of step `k`. */
  ghost function FinalStatus(status: SagaStatus, segments: seq<seq<Event>>, completed: nat, undo: seq<Event>,
      k: int): StepStatus {
    if k >= |segments| then StepPending
    else if k >= completed then StepFailed
    else if status.Completed? then StepCompleted
    else if FailedAt(undo, k) then StepCompensateFailed
    else StepCompensated
  }

  /** What was called for the steps: each until it succeeds, at most `retryCount + 1` times. */
  lemma WhatWasCalled<W(!new)>(steps: seq<Step<W>>, retryCount: int, w0: W, w: W, status: SagaStatus,
                               segments: seq<seq<Event>>, completed: nat, undo: seq<Event>, results: seq<StepStatus>)
    requires Finished(steps, retryCount, w0, w, status, segments, completed, undo, results)
    ensures completed <= |segments| <= completed + 1 && |segments| <= |steps|
    ensures forall i :: 0 <= i < |segments| ==> |segments[i]| <= if retryCount < 0 then 0 else retryCount + 1
    ensures forall i :: 0 <= i < |segments| && retryCount >= 0 ==> segments[i] != []
    ensures forall i, j :: 0 <= i < |segments| && 0 <= j < |segments[i]| ==>
      var e := segments[i][j]; e.Acted? && e.step == i && (e.ok <==> i < completed && j == |segments[i]| - 1)
  {
    assert forall i :: 0 <= i < |segments| ==> Attempts(segments[i], i, retryCount, i < completed);
  }

  /** What was compensated: each completed step that has a compensation, once, the last one first. */
  lemma WhatWasUndone<W(!new)>(steps: seq<Step<W>>, retryCount: int, w0: W, w: W, status: SagaStatus,
                               segments: seq<seq<Event>>, completed: nat, undo: seq<Event>, results: seq<StepStatus>)
    requires Finished(steps, retryCount, w0, w, status, segments, completed, undo, results)
    ensures forall j :: 0 <= j < |undo| ==> undo[j].Undone?
    ensures forall j, k :: 0 <= j < k < |undo| ==> undo[j].step > undo[k].step
    ensures forall k :: 0 <= k < |steps| ==>
      (UndoneAt(undo, k) <==> completed < |steps| && k < completed && steps[k].compensate.Some?)
  {
    if !status.Completed? {
      var down := Descending(steps, completed);
      DescendingSteps(steps, completed);
      forall j | 0 <= j < |undo| ensures undo[j].Undone? && undo[j].step == down[j] && down[j] in down {
        assert undo[j] in undo;
      }
      forall k | 0 <= k < completed && steps[k].compensate.Some? ensures UndoneAt(undo, k) {
        assert k in down;
        var j :| 0 <= j < |undo| && down[j] == k;
        assert undo[j].step == k;
      }
    }
  }

  /** What the statuses say. */
  lemma WhatIsReported<W(!new)>(steps: seq<Step<W>>, retryCount: int, w0: W, w: W, status: SagaStatus,
                                segments: seq<seq<Event>>, completed: nat, undo: seq<Event>, results: seq<StepStatus>)
    requires Finished(steps, retryCount, w0, w, status, segments, completed, undo, results)
    ensures status.IsTerminal() && (status.Completed? <==> completed == |steps|)
    ensures status.Compensated? <==> completed < |steps| && forall j :: 0 <= j < |undo| ==> undo[j].ok
    ensures |results| == |steps| && forall k :: 0 <= k < |steps| ==>
      && (results[k].StepPending? <==> |segments| <= k)
      && (results[k].StepFailed? <==> completed <= k < |segments|)
      && (results[k].StepCompleted? <==> status.Completed?)
      && (results[k].StepCompensateFailed? <==> k < completed && UndoneBadly(undo, k))
      && (results[k].StepCompensated? <==> k < completed && !status.Completed? && !UndoneBadly(undo, k))
  {
    FailedAtIs(undo);
    assert forall j :: 0 <= j < |undo| ==> undo[j] in undo;
  }

  ghost predicate UndoneAt(undo: seq<Event>, k: int) {
    exists j :: 0 <= j < |undo| && undo[j].step == k
  }

  ghost predicate UndoneBadly(undo: seq<Event>, k: int) {
    exists j :: 0 <= j < |undo| && undo[j].step == k && !undo[j].ok
  }

  lemma {:induction false} DescendingSteps<W(!new)>(steps: seq<Step<W>>, k: nat)
    requires k <= |steps|
    ensures forall i: nat :: i in Descending(steps, k) <==> i < k && steps[i].compensate.Some?
    ensures forall i, j :: 0 <= i < j < |Descending(steps, k)| ==> Descending(steps, k)[i] > Descending(steps, k)[j]
  {
    if k > 0 {
      DescendingSteps(steps, k - 1);
      var below := Descending(steps, k - 1);
      assert forall i :: 0 <= i < |below| ==> below[i] in below;
    }
  }

  lemma {:induction false} FailedAtIs(es: seq<Event>)
    ensures forall k :: FailedAt(es, k) <==> UndoneBadly(es, k)
  {
    if es != [] {
      var before := es[..|es| - 1];
      FailedAtIs(before);
      forall k ensures FailedAt(es, k) <==> UndoneBadly(es, k) {
        if UndoneBadly(before, k) {
          var j :| 0 <= j < |before| && before[j].step == k && !before[j].ok;
          assert es[j] == before[j];
        }
        if UndoneBadly(es, k) {
          var j :| 0 <= j < |es| && es[j].step == k && !es[j].ok;
          assert j < |before| ==> before[j] == es[j];
        }
      }
    }
  }

  /** Why an execution ended: every call of an action came right after a look at the context that found it not done; a
      saga that stops does so for the error of its last call, which was the last attempt allowed at its step, or
      else for the error of the context at the look that came next. */
  lemma WhyItEnds<W(!new)>(steps: seq<Step<W>>, retryCount: int, ctx: nat -> Option<string>, w0: W, w: W,
                           status: SagaStatus, segments: seq<seq<Event>>, completed: nat, undo: seq<Event>,
                           results: seq<StepStatus>, cause: Option<string>)
    requires Finished(steps, retryCount, w0, w, status, segments, completed, undo, results)
    requires Explained(steps, retryCount, ctx, w0, segments, completed, cause) && (cause.None? <==> status.Completed?)
    ensures forall e :: e in Flatten(segments) ==> e.tick > 0 && ctx(e.tick - 1).None?
    ensures cause.Some? && |segments| == completed ==> exists t :: ctx(t) == cause
    ensures cause.Some? && |segments| == completed + 1 ==>
      var calls := Flatten(segments);
      var n := |calls|;
      if |segments[completed]| <= retryCount then ctx(2 * n) == cause
      else (n > 0 && Possible(steps, calls[n - 1])
            && Call(steps, After(steps, w0, calls[..n - 1]), calls[n - 1]).error == cause)
    ensures (forall t :: ctx(t).None?) ==>
      (cause.Some? <==> exists i :: 0 <= i < |segments| && UsedUp(segments[i], retryCount))
    ensures (forall t :: ctx(t).None?) ==>
      (cause.Some? <==> exists i :: 0 <= i < |segments| && segments[i] != [] && !segments[i][|segments[i]| - 1].ok)
  {
    var calls := Flatten(segments);
    forall e | e in calls ensures e.tick > 0 && ctx(e.tick - 1).None? {
      var k :| 0 <= k < |calls| && calls[k] == e;
      assert CheckedAt(ctx, calls[k], k);
    }
    assert forall i :: 0 <= i < |segments| ==> Attempts(segments[i], i, retryCount, i < completed);
    if cause.Some? && |segments| == completed {
      assert ctx(NextCheck(retryCount, segments)) == cause;
    }
    if |segments| == completed + 1 {
      assert |calls| >= |segments[completed]| > 0;
    }
  }

  /** Call `j` failed with `err`, and no later call failed. */
  ghost predicate LastToFail<W(!new)>(steps: seq<Step<W>>, w: W, es: seq<Event>, j: nat, err: Option<string>) {
    && j < |es| && !es[j].ok && (forall k :: j < k < |es| ==> es[k].ok)
    && Possible(steps, es[j]) && Call(steps, After(steps, w, es[..j]), es[j]).error == err
  }

  /** The compensation error returned is that of the last compensation that failed. */
  lemma {:induction false} LastFailureIs<W(!new)>(steps: seq<Step<W>>, w: W, es: seq<Event>)
    requires Faithful(steps, w, es)
    ensures LastFailure(steps, w, es).None? <==> forall j :: 0 <= j < |es| ==> es[j].ok
    ensures LastFailure(steps, w, es).Some? ==> exists j :: LastToFail(steps, w, es, j, LastFailure(steps, w, es))
  {
    if es != [] {
      var n := |es| - 1;
      var before := es[..n];
      LastFailureIs(steps, w, before);
      if !es[n].ok {
        assert LastToFail(steps, w, es, n, LastFailure(steps, w, es));
      } else if LastFailure(steps, w, before).Some? {
        var j :| LastToFail(steps, w, before, j, LastFailure(steps, w, before));
        StillLast(steps, w, es, j, LastFailure(steps, w, before));
      }
    }
  }

  lemma StillLast<W(!new)>(steps: seq<Step<W>>, w: W, es: seq<Event>, j: nat, err: Option<string>)
    requires es != [] && es[|es| - 1].ok && LastToFail(steps, w, es[..|es| - 1], j, err)
    ensures LastToFail(steps, w, es, j, err)
  {
    assert es[..|es| - 1][..j] == es[..j];
  }

  /** All or nothing: under the documented conditions on the steps, a saga that ends Compensated has left
      the world as it was, and one that ends Completed has applied every action exactly once, in order. */
  lemma AllOrNothing<W(!new)>(steps: seq<Step<W>>, retryCount: int, w0: W, w: W, status: SagaStatus,
                              segments: seq<seq<Event>>, completed: nat, undo: seq<Event>, results: seq<StepStatus>)
    requires Finished(steps, retryCount, w0, w, status, segments, completed, undo, results)
    requires Compensable(steps) && retryCount >= 0
    ensures status.Compensated? ==> w == w0
    ensures status.Completed? ==>
      && |segments| == |steps| && (forall i :: 0 <= i < |segments| ==> segments[i] != [])
      && w == ApplyAll(steps, w0, SuccessTicks(segments))
  {
    if status.Compensated? {
      CompensatedLeavesNoTrace(steps, w0, segments, completed, undo, retryCount);
    } else if status.Completed? {
      assert Flatten(segments) + undo == Flatten(segments);
      assert forall i :: 0 <= i < |segments| ==> segments[i] != [] by {
        forall i | 0 <= i < |segments| ensures segments[i] != [] {
          assert Attempts(segments[i], i, retryCount, i < completed);
        }
      }
      CompletedAppliesAll(steps, w0, segments, retryCount);
    }
  }

  /** With a negative retry count no action is ever called, although (see `ExecuteWithData`) the saga
      completes: a non-negative count is exactly what "completed" needs to mean anything. */
  lemma NegativeRetryCallsNothing(segments: seq<seq<Event>>, completed: nat, retryCount: int)
    requires Forward(segments, completed, retryCount)
    ensures retryCount < 0 ==> Flatten(segments) == [] && completed == |segments|
    ensures retryCount >= 0 ==>
      forall i :: 0 <= i < completed ==> segments[i] != [] && segments[i][|segments[i]| - 1].ok
  {
    if retryCount < 0 {
      assert forall i :: 0 <= i < |segments| ==> Attempts(segments[i], i, retryCount, i < completed);
      AllEmpty(segments);
    }
  }

  lemma {:induction false} AllEmpty(segments: seq<seq<Event>>)
    requires forall i :: 0 <= i < |segments| ==> segments[i] == []
    ensures Flatten(segments) == []
  {
    if segments != [] {
      AllEmpty(segments[..|segments| - 1]);
    }
  }

  /** Compensation has worked its way down to step `i`: what has been called, where the world is, and the
      status of every step. */
  ghost predicate Unwound<W(!new)>(steps: seq<Step<W>>, completed: nat, i: nat, w0: W, w: W, undo: seq<Event>,
                                   results0: seq<StepStatus>, results: seq<StepStatus>, allOk: bool) {
    && i <= completed <= |steps| == |results0| == |results|
    && (forall e :: e in undo ==> e.Undone? && e.step >= i)
    && StepsOf(undo) + Descending(steps, i) == Descending(steps, completed)
    && (allOk <==> AllOk(undo))
    && Faithful(steps, w0, undo) && w == After(steps, w0, undo)
    && forall k :: 0 <= k < |steps| ==> results[k] == UnwoundStatus(undo, completed, i, results0, k)
  }

  ghost function UnwoundStatus(undo: seq<Event>, completed: nat, i: nat, results0: seq<StepStatus>, k: int): StepStatus
    requires 0 <= k < |results0|
  {
    if !(i <= k < completed) then results0[k] else if FailedAt(undo, k) then StepCompensateFailed else StepCompensated
  }

  lemma SkipStep<W(!new)>(steps: seq<Step<W>>, completed: nat, i: nat, w0: W, w: W, undo: seq<Event>,
                          results0: seq<StepStatus>, results: seq<StepStatus>, allOk: bool)
    requires Unwound(steps, completed, i + 1, w0, w, undo, results0, results, allOk) && steps[i].compensate.None?
    ensures Unwound(steps, completed, i, w0, w, undo, results0, results[i := StepCompensated], allOk)
  {
    NeverFailedBelow(undo, i);
  }

  lemma {:induction false} NeverFailedBelow(es: seq<Event>, k: nat)
    requires forall e :: e in es ==> e.step != k
    ensures !FailedAt(es, k)
  {
    if es != [] {
      assert es[|es| - 1] in es;
      NeverFailedBelow(es[..|es| - 1], k);
    }
  }

  lemma UnwindStep<W(!new)>(steps: seq<Step<W>>, completed: nat, i: nat, w0: W, w: W, undo: seq<Event>,
                            results0: seq<StepStatus>, results: seq<StepStatus>, allOk: bool, e: Event)
    requires Unwound(steps, completed, i + 1, w0, w, undo, results0, results, allOk) && steps[i].compensate.Some?
    requires e.Undone? && e.step == i && Possible(steps, e) && e.ok == Call(steps, w, e).error.None?
    ensures Unwound(steps, completed, i, w0, Call(steps, w, e).world, undo + [e], results0,
                    results[i := if e.ok then StepCompensated else StepCompensateFailed], allOk && e.ok)
  {
    Extend(steps, w0, undo, e);
    UndoSnoc(undo, e);
    NeverFailedBelow(undo, i);
    assert StepsOf(undo) + Descending(steps, i + 1) == (StepsOf(undo) + [i]) + Descending(steps, i);
  }
}
