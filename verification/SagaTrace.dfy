/** What a saga does to the world, as a trace of its calls, and why the trace of a compensated saga has no
    net effect. */
module SagaTrace {
  import opened Options

  /** The outcome of one call of an action or a compensation. */
  datatype Outcome<W> = Outcome(world: W, error: Option<string>)

  /** Calls see the world and a tick that is different for every call, so a step may behave differently
      each time.  `compensate` is optional, as in the source. */
  datatype Step<!W> = Step(name: string, action: (W, nat) -> Outcome<W>, compensate: Option<(W, nat) -> Outcome<W>>)

  datatype Event = Acted(step: nat, tick: nat, ok: bool) | Undone(step: nat, tick: nat, ok: bool)

  predicate Possible<W>(steps: seq<Step<W>>, e: Event) {
    e.step < |steps| && (e.Undone? ==> steps[e.step].compensate.Some?)
  }

  function Call<W>(steps: seq<Step<W>>, w: W, e: Event): Outcome<W>
    requires Possible(steps, e)
  {
    if e.Acted? then steps[e.step].action(w, e.tick) else steps[e.step].compensate.value(w, e.tick)
  }

  function After<W>(steps: seq<Step<W>>, w: W, es: seq<Event>): W {
    if es == [] then w
    else
      var w', e := After(steps, w, es[..|es| - 1]), es[|es| - 1];
      if Possible(steps, e) then Call(steps, w', e).world else w'
  }

  /** Every event is a call that can be made and reports the call's success or failure. */
  ghost predicate Faithful<W>(steps: seq<Step<W>>, w: W, es: seq<Event>) {
    es == [] ||
    (var w', e := After(steps, w, es[..|es| - 1]), es[|es| - 1];
     Faithful(steps, w, es[..|es| - 1]) && Possible(steps, e) && e.ok == Call(steps, w', e).error.None?)
  }

  lemma Extend<W>(steps: seq<Step<W>>, w: W, es: seq<Event>, e: Event)
    ensures After(steps, w, es + [e]) ==
      var w' := After(steps, w, es); if Possible(steps, e) then Call(steps, w', e).world else w'
    ensures Faithful(steps, w, es + [e]) <==>
      Faithful(steps, w, es) && Possible(steps, e) && e.ok == Call(steps, After(steps, w, es), e).error.None?
  {
    assert (es + [e])[..|es|] == es;
  }

  lemma {:induction false} Concat<W>(steps: seq<Step<W>>, w: W, a: seq<Event>, b: seq<Event>)
    ensures After(steps, w, a + b) == After(steps, After(steps, w, a), b)
    ensures Faithful(steps, w, a + b) <==> Faithful(steps, w, a) && Faithful(steps, After(steps, w, a), b)
  {
    if b == [] {
      assert a + b == a;
    } else {
      var b', e := b[..|b| - 1], b[|b| - 1];
      Concat(steps, w, a, b');
      assert a + b == (a + b') + [e] && b == b' + [e];
      Extend(steps, w, a + b', e);
      Extend(steps, After(steps, w, a), b', e);
    }
  }

  // ----- The shape of a run -----

  /** The calls `executeStepWithRetry` makes for step `i`: failures, and a success at the end if the step
      succeeded; never more than `retryCount + 1`.  With a negative count there is no call at all, and the
      step counts as successful. */
  ghost predicate Attempts(es: seq<Event>, i: nat, retryCount: int, success: bool) {
    && (forall j :: 0 <= j < |es| ==> es[j].Acted? && es[j].step == i && (es[j].ok <==> success && j == |es| - 1))
    && |es| <= (if retryCount < 0 then 0 else retryCount + 1)
    && (if retryCount < 0 then success else |es| >= 1)
  }

  function Flatten(segments: seq<seq<Event>>): seq<Event> {
    if segments == [] then [] else Flatten(segments[..|segments| - 1]) + segments[|segments| - 1]
  }

  /** The steps are attempted in order; the first `completed` succeed, and at most one more is tried. */
  ghost predicate Forward(segments: seq<seq<Event>>, completed: nat, retryCount: int) {
    && completed <= |segments| <= completed + 1
    && forall i :: 0 <= i < |segments| ==> Attempts(segments[i], i, retryCount, i < completed)
  }

  /** The steps below `k` that have a compensation, last one first. */
  function Descending<W>(steps: seq<Step<W>>, k: nat): seq<nat>
    requires k <= |steps|
  {
    if k == 0 then []
    else (if steps[k - 1].compensate.Some? then [k - 1] else []) + Descending(steps, k - 1)
  }

  function StepsOf(es: seq<Event>): (s: seq<nat>)
    ensures |s| == |es| && forall i :: 0 <= i < |es| ==> s[i] == es[i].step
  {
    if es == [] then [] else StepsOf(es[..|es| - 1]) + [es[|es| - 1].step]
  }

  /** Every compensation of the first `completed` steps is called once, last step first, whatever the
      outcomes of the others. */
  ghost predicate Backward<W>(steps: seq<Step<W>>, undo: seq<Event>, completed: nat) {
    completed <= |steps| && (forall e :: e in undo ==> e.Undone?) && StepsOf(undo) == Descending(steps, completed)
  }

  predicate AllOk(es: seq<Event>) {
    forall e :: e in es ==> e.ok
  }

  /** Some compensation of the step failed. */
  predicate FailedAt(es: seq<Event>, k: int) {
    es != [] && ((es[|es| - 1].step == k && !es[|es| - 1].ok) || FailedAt(es[..|es| - 1], k))
  }

  lemma UndoSnoc(es: seq<Event>, e: Event)
    ensures StepsOf(es + [e]) == StepsOf(es) + [e.step]
    ensures AllOk(es + [e]) <==> AllOk(es) && e.ok
    ensures forall k :: FailedAt(es + [e], k) <==> FailedAt(es, k) || (e.step == k && !e.ok)
  {
    assert (es + [e])[..|es|] == es;
    assert e in es + [e];
  }

  // ----- Atomicity -----

  /** What the documentation asks of the steps: a failed action attempt has no effect, a compensation undoes
      its own action, and a step without compensation has no effect to undo. */
  ghost predicate Compensable<W(!new)>(steps: seq<Step<W>>) {
    forall i :: 0 <= i < |steps| ==> CompensableStep(steps[i])
  }

  ghost predicate CompensableStep<W(!new)>(s: Step<W>) {
    && (forall w, t :: s.action(w, t).error.Some? ==> s.action(w, t).world == w)
    && (s.compensate.None? ==> forall w, t :: s.action(w, t).world == w)
    && (s.compensate.Some? ==> forall w, t, u :: Undoes(s, w, t, u))
  }

  ghost predicate Undoes<W>(s: Step<W>, w: W, t: nat, u: nat)
    requires s.compensate.Some?
  {
    var done := s.action(w, t);
    done.error.None? && s.compensate.value(done.world, u).error.None? ==> s.compensate.value(done.world, u).world == w
  }

  /** Failed attempts leave the world alone. */
  lemma {:induction false} FailuresHaveNoEffect<W(!new)>(steps: seq<Step<W>>, w: W, es: seq<Event>, i: nat)
    requires Compensable(steps) && Faithful(steps, w, es)
    requires forall j :: 0 <= j < |es| ==> es[j].Acted? && es[j].step == i && !es[j].ok
    ensures After(steps, w, es) == w
  {
    if es != [] {
      FailuresHaveNoEffect(steps, w, es[..|es| - 1], i);
      assert es[|es| - 1].step == i && CompensableStep(steps[i]);
    }
  }

  /** The attempts at a step amount to one successful call of its action. */
  lemma SuccessIsOneCall<W(!new)>(steps: seq<Step<W>>, w: W, es: seq<Event>, i: nat, retryCount: int)
    requires Compensable(steps) && Faithful(steps, w, es) && Attempts(es, i, retryCount, true) && retryCount >= 0
    ensures i < |steps| && es[|es| - 1].Acted?
    ensures var t := es[|es| - 1].tick;
      steps[i].action(w, t).error.None? && After(steps, w, es) == steps[i].action(w, t).world
  {
    FailuresHaveNoEffect(steps, w, es[..|es| - 1], i);
    assert es[|es| - 1].step == i;
  }

  /** Undoing the first `k` steps from the world they led to restores the world before them. */
  lemma {:induction false} UndoRestores<W(!new)>(steps: seq<Step<W>>, w: W, segments: seq<seq<Event>>, k: nat,
      undo: seq<Event>, retryCount: int)
    requires Compensable(steps) && retryCount >= 0 && k <= |segments| && k <= |steps|
    requires forall i :: 0 <= i < k ==> Attempts(segments[i], i, retryCount, true)
    requires Faithful(steps, w, Flatten(segments[..k]))
    requires Faithful(steps, After(steps, w, Flatten(segments[..k])), undo) && AllOk(undo)
    requires Backward(steps, undo, k)
    ensures After(steps, After(steps, w, Flatten(segments[..k])), undo) == w
    decreases k
  {
    if k > 0 {
      var rest := Flatten(segments[..k - 1]);
      assert segments[..k][..k - 1] == segments[..k - 1];
      assert Flatten(segments[..k]) == rest + segments[k - 1];
      Concat(steps, w, rest, segments[k - 1]);
      var before := After(steps, w, rest);
      SuccessIsOneCall(steps, before, segments[k - 1], k - 1, retryCount);
      var after := After(steps, w, Flatten(segments[..k]));
      assert CompensableStep(steps[k - 1]);
      if steps[k - 1].compensate.Some? {
        UndoFirst(steps, after, undo, k);
        var t := segments[k - 1][|segments[k - 1]| - 1].tick;
        assert Undoes(steps[k - 1], before, t, undo[0].tick);
        UndoRestores(steps, w, segments, k - 1, undo[1..], retryCount);
      } else {
        UndoRestores(steps, w, segments, k - 1, undo, retryCount);
      }
    }
  }

  lemma FirstThenRest<W>(steps: seq<Step<W>>, w: W, es: seq<Event>)
    requires es != [] && Faithful(steps, w, es)
    ensures Possible(steps, es[0]) && es[0].ok == Call(steps, w, es[0]).error.None?
    ensures var w' := Call(steps, w, es[0]).world;
      Faithful(steps, w', es[1..]) && After(steps, w, es) == After(steps, w', es[1..])
  {
    assert es == [es[0]] + es[1..] && [es[0]] == [] + [es[0]];
    Concat(steps, w, [es[0]], es[1..]);
    Extend(steps, w, [], es[0]);
  }

  /** Splitting the first compensation off. */
  lemma UndoFirst<W>(steps: seq<Step<W>>, w: W, undo: seq<Event>, k: nat)
    requires 0 < k <= |steps| && steps[k - 1].compensate.Some? && Backward(steps, undo, k) && Faithful(steps, w, undo)
        && AllOk(undo)
    ensures undo != [] && undo[0].Undone? && undo[0].step == k - 1
    ensures var r := steps[k - 1].compensate.value(w, undo[0].tick);
      && r.error.None? && Faithful(steps, r.world, undo[1..])
          && After(steps, w, undo) == After(steps, r.world, undo[1..])
    ensures Backward(steps, undo[1..], k - 1) && AllOk(undo[1..])
  {
    UndoFirstShape(steps, undo, k);
    FirstThenRest(steps, w, undo);
  }

  lemma UndoFirstShape<W>(steps: seq<Step<W>>, undo: seq<Event>, k: nat)
    requires 0 < k <= |steps| && steps[k - 1].compensate.Some? && Backward(steps, undo, k) && AllOk(undo)
    ensures undo != [] && undo[0].Undone? && undo[0].step == k - 1 && undo[0].ok
    ensures Backward(steps, undo[1..], k - 1) && AllOk(undo[1..])
  {
    assert StepsOf(undo)[0] == k - 1 && undo[0] in undo;
    assert StepsOf(undo[1..]) == StepsOf(undo)[1..];
  }

  /** Atomicity, first half: a compensated run leaves the world as it found it. */
  lemma CompensatedLeavesNoTrace<W(!new)>(steps: seq<Step<W>>, w: W, segments: seq<seq<Event>>, completed: nat,
      undo: seq<Event>, retryCount: int)
    requires Compensable(steps) && retryCount >= 0 && completed <= |steps|
    requires Forward(segments, completed, retryCount) && Backward(steps, undo, completed) && AllOk(undo)
    requires Faithful(steps, w, Flatten(segments) + undo)
    ensures After(steps, w, Flatten(segments) + undo) == w
  {
    Concat(steps, w, Flatten(segments), undo);
    if |segments| > completed {
      var failed := segments[completed];
      assert segments[..|segments| - 1] == segments[..completed];
      Concat(steps, w, Flatten(segments[..completed]), failed);
      FailuresHaveNoEffect(steps, After(steps, w, Flatten(segments[..completed])), failed, completed);
    } else {
      assert segments[..completed] == segments;
    }
    UndoRestores(steps, w, segments, completed, undo, retryCount);
  }

  /** Every action applied once, in order, at the given ticks. */
  function ApplyAll<W>(steps: seq<Step<W>>, w: W, ticks: seq<nat>): W
    requires |ticks| <= |steps|
  {
    if ticks == [] then w
    else steps[|ticks| - 1].action(ApplyAll(steps, w, ticks[..|ticks| - 1]), ticks[|ticks| - 1]).world
  }

  /** The tick of the successful attempt at each step. */
  function SuccessTicks(segments: seq<seq<Event>>): (ts: seq<nat>)
    requires forall i :: 0 <= i < |segments| ==> segments[i] != []
    ensures |ts| == |segments|
  {
    if segments == [] then []
    else
      var last := segments[|segments| - 1];
      SuccessTicks(segments[..|segments| - 1]) + [last[|last| - 1].tick]
  }

  /** Atomicity, second half: a completed run has applied every action exactly once, in order. */
  lemma {:induction false} CompletedAppliesAll<W(!new)>(steps: seq<Step<W>>, w: W, segments: seq<seq<Event>>,
      retryCount: int)
    requires Compensable(steps) && retryCount >= 0 && |segments| <= |steps|
    requires forall i :: 0 <= i < |segments| ==> segments[i] != [] && Attempts(segments[i], i, retryCount, true)
    requires Faithful(steps, w, Flatten(segments))
    ensures After(steps, w, Flatten(segments)) == ApplyAll(steps, w, SuccessTicks(segments))
    decreases |segments|
  {
    if segments != [] {
      var n := |segments| - 1;
      Concat(steps, w, Flatten(segments[..n]), segments[n]);
      CompletedAppliesAll(steps, w, segments[..n], retryCount);
      SuccessIsOneCall(steps, After(steps, w, Flatten(segments[..n])), segments[n], n, retryCount);
      assert SuccessTicks(segments)[..n] == SuccessTicks(segments[..n]);
    }
  }
}
