/** The distributed semaphore of `middleware/semaphore/distributed.go`: increment first, decide, and back
    out on overflow.  Calls to the shared counter are atomic steps; the steps of any number of attempts
    interleave freely.  Permits do not expire while held. */
module Semaphores {
  import opened Options

  /** Where one acquisition attempt stands: not running or over, between its increment (which returned
      `count`) and its decision, or holding a permit. */
  datatype Phase = Idle | Incremented(count: int) | Holding

  /** `leaked` counts the decrements that failed; their errors are ignored or handed to the caller. */
  datatype State = State(counter: int, phases: seq<Phase>, leaked: int)

  /** One atomic step of attempt `who`.  `ok` says whether the call to the counter succeeded.
      `StrayRelease` is a `Release` by someone who holds nothing. */
  datatype Action =
    | IncrementFails(who: nat)
    | Increment(who: nat)
    | Decide(who: nat, ok: bool)
    | Release(who: nat, ok: bool)
    | StrayRelease

  function Decrement(s: State, ok: bool): State {
    if ok then s.(counter := s.counter - 1) else s.(leaked := s.leaked + 1)
  }

  /** The state after the action, or `None` when the attempt is not at that point of its code. */
  function Step(size: int, s: State, a: Action): Option<State> {
    match a
    case IncrementFails(i) =>
      if i < |s.phases| && s.phases[i].Idle? then Some(s) else None
    case Increment(i) =>
      if i < |s.phases| && s.phases[i].Idle?
      then Some(s.(counter := s.counter + 1, phases := s.phases[i := Incremented(s.counter + 1)]))
      else None
    case Decide(i, ok) =>
      if i < |s.phases| && s.phases[i].Incremented? then
        if s.phases[i].count > size then Some(Decrement(s.(phases := s.phases[i := Idle]), ok))
        else Some(s.(phases := s.phases[i := Holding]))
      else None
    case Release(i, ok) =>
      if i < |s.phases| && s.phases[i].Holding?
      then Some(Decrement(s.(phases := s.phases[i := Idle]), ok))
      else None
    case StrayRelease => Some(s.(counter := s.counter - 1))
  }

  function Run(size: int, s: State, actions: seq<Action>): Option<State> {
    if actions == [] then Some(s)
    else
      var r := Run(size, s, actions[..|actions| - 1]);
      if r.None? then None else Step(size, r.value, actions[|actions| - 1])
  }

  function Initial(attempts: nat): State {
    State(0, Idles(attempts), 0)
  }

  function Idles(n: nat): (s: seq<Phase>)
    ensures |s| == n && forall i :: 0 <= i < n ==> s[i] == Idle
  {
    if n == 0 then [] else Idles(n - 1) + [Idle]
  }

  // ----- Counting attempts -----

  function Count(p: Phase -> bool, phases: seq<Phase>): nat {
    if phases == [] then 0 else (if p(phases[0]) then 1 else 0) + Count(p, phases[1..])
  }

  function Granted(s: State): nat {
    Count((p: Phase) => p.Holding?, s.phases)
  }

  function InFlight(s: State): nat {
    Count((p: Phase) => p.Incremented?, s.phases)
  }

  /** Permits given or certain to be given: the increment returned at most `size`. */
  function Admitted(size: int, s: State): nat {
    Count((p: Phase) => p.Holding? || (p.Incremented? && p.count <= size), s.phases)
  }

  lemma {:induction false} CountUpdate(p: Phase -> bool, phases: seq<Phase>, i: nat, x: Phase)
    requires i < |phases|
    ensures Count(p, phases[i := x]) == Count(p, phases) - (if p(phases[i]) then 1 else 0) + if p(x) then 1 else 0
  {
    if i == 0 {
      assert phases[0 := x][1..] == phases[1..];
    } else {
      assert phases[i := x][1..] == phases[1..][i - 1 := x];
      CountUpdate(p, phases[1..], i - 1, x);
    }
  }

  lemma {:induction false} CountImplies(p: Phase -> bool, q: Phase -> bool, r: Phase -> bool, phases: seq<Phase>)
    requires forall x :: p(x) ==> q(x)
    requires forall x :: q(x) ==> p(x) || r(x)
    ensures Count(p, phases) <= Count(q, phases) <= Count(p, phases) + Count(r, phases)
  {
    if phases != [] {
      CountImplies(p, q, r, phases[1..]);
    }
  }

  lemma CountIdles(p: Phase -> bool, n: nat)
    requires !p(Idle)
    ensures Count(p, Idles(n)) == 0
  {
    CountNone(p, Idles(n));
  }

  lemma {:induction false} CountNone(p: Phase -> bool, phases: seq<Phase>)
    requires forall i :: 0 <= i < |phases| ==> !p(phases[i])
    ensures Count(p, phases) == 0
  {
    if phases != [] {
      CountNone(p, phases[1..]);
    }
  }

  // ----- The invariant -----

  /** Releases by callers that held nothing. */
  function Strays(actions: seq<Action>): nat {
    if actions == [] then 0
    else Strays(actions[..|actions| - 1]) + if actions[|actions| - 1].StrayRelease? then 1 else 0
  }

  /** After `k` stray releases: the counter is what is granted, in flight or leaked, less `k`, and at most
      `size + k` permits are promised. */
  ghost predicate Inv(size: int, s: State, k: nat) {
    && s.counter == Granted(s) + InFlight(s) + s.leaked - k
    && s.leaked >= 0
    && Admitted(size, s) <= size + k
  }

  lemma AdmittedBounds(size: int, s: State)
    ensures Granted(s) <= Admitted(size, s) <= Granted(s) + InFlight(s)
  {
    CountImplies((p: Phase) => p.Holding?, (p: Phase) => p.Holding? || (p.Incremented? && p.count <= size),
                 (p: Phase) => p.Incremented?, s.phases);
  }

  lemma Recount(size: int, s: State, i: nat, x: Phase)
    requires i < |s.phases|
    ensures var s', was := s.(phases := s.phases[i := x]), s.phases[i];
      && Granted(s') == Granted(s) - (if was.Holding? then 1 else 0) + (if x.Holding? then 1 else 0)
      && InFlight(s') == InFlight(s) - (if was.Incremented? then 1 else 0) + (if x.Incremented? then 1 else 0)
      && Admitted(size, s') == Admitted(size, s)
           - (if was.Holding? || (was.Incremented? && was.count <= size) then 1 else 0)
           + (if x.Holding? || (x.Incremented? && x.count <= size) then 1 else 0)
  {
    CountUpdate((p: Phase) => p.Holding?, s.phases, i, x);
    CountUpdate((p: Phase) => p.Incremented?, s.phases, i, x);
    CountUpdate((p: Phase) => p.Holding? || (p.Incremented? && p.count <= size), s.phases, i, x);
  }

  lemma StepKeepsInv(size: int, s: State, k: nat, a: Action)
    requires Inv(size, s, k) && Step(size, s, a).Some?
    ensures Inv(size, Step(size, s, a).value, if a.StrayRelease? then k + 1 else k)
  {
    match a
    case IncrementFails(i) =>
    case Increment(i) =>
      var x := Incremented(s.counter + 1);
      Recount(size, s, i, x);
      AdmittedBounds(size, s.(phases := s.phases[i := x]));
    case Decide(i, ok) =>
      Recount(size, s, i, if s.phases[i].count > size then Idle else Holding);
    case Release(i, ok) =>
      Recount(size, s, i, Idle);
    case StrayRelease =>
  }

  /** In every interleaving, and even when decrements fail: the permits held are never more than `size` and never
      more than the counter says, but for one permit for every stray release. */
  lemma {:induction false} SafeInEveryRun(size: int, attempts: nat, actions: seq<Action>)
    requires size > 0
    ensures var r := Run(size, Initial(attempts), actions);
      r.Some? ==>
        && Inv(size, r.value, Strays(actions)) && |r.value.phases| == attempts
        && Granted(r.value) <= size + Strays(actions) && Granted(r.value) <= r.value.counter + Strays(actions)
  {
    if actions == [] {
      CountIdles((p: Phase) => p.Holding?, attempts);
      CountIdles((p: Phase) => p.Incremented?, attempts);
      CountIdles((p: Phase) => p.Holding? || (p.Incremented? && p.count <= size), attempts);
    } else {
      var before := actions[..|actions| - 1];
      SafeInEveryRun(size, attempts, before);
      var r := Run(size, Initial(attempts), before);
      if r.Some? && Step(size, r.value, actions[|actions| - 1]).Some? {
        StepKeepsInv(size, r.value, Strays(before), actions[|actions| - 1]);
        AdmittedBounds(size, Step(size, r.value, actions[|actions| - 1]).value);
      }
    }
  }

  predicate Succeeds(a: Action) {
    !a.StrayRelease? && ((a.Decide? || a.Release?) ==> a.ok)
  }

  ghost predicate AllSucceed(actions: seq<Action>) {
    forall a :: a in actions ==> Succeeds(a)
  }

  /** Without failed decrements nothing leaks. */
  lemma {:induction false} NothingLeaks(size: int, s: State, actions: seq<Action>)
    requires AllSucceed(actions)
    ensures Run(size, s, actions).Some? ==> Run(size, s, actions).value.leaked == s.leaked
    ensures Strays(actions) == 0
  {
    if actions != [] {
      assert Succeeds(actions[|actions| - 1]);
      assert forall a :: a in actions[..|actions| - 1] ==> a in actions;
      NothingLeaks(size, s, actions[..|actions| - 1]);
    }
  }

  /** `Available`: what is left of `size`, never negative; a counter that cannot be read counts as unused. */
  function Available(size: int, s: State, readable: bool): int {
    if !readable then size else if size - s.counter < 0 then 0 else size - s.counter
  }

  /** When nothing is in flight and no decrement has failed, `Available` is exact. */
  lemma AvailableIsExact(size: int, attempts: nat, actions: seq<Action>)
    requires size > 0 && AllSucceed(actions)
    ensures var r := Run(size, Initial(attempts), actions);
      r.Some? && InFlight(r.value) == 0 ==> Available(size, r.value, true) == size - Granted(r.value)
  {
    SafeInEveryRun(size, attempts, actions);
    NothingLeaks(size, Initial(attempts), actions);
  }

  /** In every run without stray releases, whatever fails, `Available` never promises more than is free; it promises
      less exactly while attempts are in flight or leaks remain. */
  lemma NeverTooManyAvailable(size: int, attempts: nat, actions: seq<Action>)
    requires size > 0 && Strays(actions) == 0 && Run(size, Initial(attempts), actions).Some?
    ensures var s := Run(size, Initial(attempts), actions).value;
      var free := size - Granted(s);
      && 0 <= Available(size, s, true) <= free
      && (Available(size, s, true) == free <==> InFlight(s) + s.leaked == 0 || free == 0)
  {
    SafeInEveryRun(size, attempts, actions);
  }

  /** An attempt is refused exactly when, at its increment, the permits held, the attempts in flight and
      the leaks, less the stray releases, already fill the semaphore. */
  lemma RefusedWhenFull(size: int, s: State, k: nat, i: nat)
    requires Inv(size, s, k) && i < |s.phases| && s.phases[i].Idle?
    ensures var s' := Step(size, s, Increment(i));
      s'.Some? && (s'.value.phases[i].count > size <==> Granted(s) + InFlight(s) + s.leaked - k >= size)
  {
  }

  lemma RunSnoc(size: int, s: State, actions: seq<Action>, a: Action)
    ensures Run(size, s, actions + [a]) ==
      if Run(size, s, actions).None? then None else Step(size, Run(size, s, actions).value, a)
  {
    assert (actions + [a])[..|actions|] == actions;
  }

  // ----- Stray releases -----

  lemma {:induction false} CountAtMost(p: Phase -> bool, phases: seq<Phase>)
    ensures Count(p, phases) <= |phases|
  {
    if phases != [] {
      CountAtMost(p, phases[1..]);
    }
  }

  lemma {:induction false} CountFirst(p: Phase -> bool, phases: seq<Phase>, i: nat)
    requires i <= |phases| && forall j :: 0 <= j < i ==> p(phases[j])
    ensures Count(p, phases) >= i
  {
    if i > 0 {
      CountFirst(p, phases[1..], i - 1);
    }
  }

  lemma StraysSnoc(actions: seq<Action>, a: Action)
    ensures Strays(actions + [a]) == Strays(actions) + if a.StrayRelease? then 1 else 0
  {
    assert (actions + [a])[..|actions|] == actions;
  }

  /** The first `i` attempts hold a permit and the others have not begun. */
  ghost predicate Filled(s: State, attempts: nat, i: nat, counter: int) {
    && s.counter == counter && |s.phases| == attempts && i <= attempts
    && (forall j :: 0 <= j < i ==> s.phases[j].Holding?)
    && (forall j :: i <= j < attempts ==> s.phases[j].Idle?)
  }

  lemma {:induction false} StraysFirst(size: int, attempts: nat, k: nat) returns (actions: seq<Action>, s: State)
    ensures Strays(actions) == k && Run(size, Initial(attempts), actions) == Some(s) && Filled(s, attempts, 0, 0 - k)
    ensures s.leaked == 0 && (k == 0 ==> AllSucceed(actions))
  {
    if k == 0 {
      actions, s := [], Initial(attempts);
    } else {
      actions, s := StraysFirst(size, attempts, k - 1);
      RunSnoc(size, Initial(attempts), actions, StrayRelease);
      StraysSnoc(actions, StrayRelease);
      actions, s := actions + [StrayRelease], s.(counter := s.counter - 1);
    }
  }

  /** After `k` stray releases, `size + k` attempts one after the other all get a permit. */
  lemma {:induction false} PermitsInTurn(size: int, attempts: nat, k: nat, i: nat)
    returns (actions: seq<Action>, s: State)
    requires i <= attempts && i <= size + k
    ensures Strays(actions) == k && Run(size, Initial(attempts), actions) == Some(s) && Filled(s, attempts, i, i - k)
    ensures s.leaked == 0 && (k == 0 ==> AllSucceed(actions))
    decreases i
  {
    if i == 0 {
      actions, s := StraysFirst(size, attempts, k);
    } else {
      actions, s := PermitsInTurn(size, attempts, k, i - 1);
      RunSnoc(size, Initial(attempts), actions, Increment(i - 1));
      StraysSnoc(actions, Increment(i - 1));
      actions, s := actions + [Increment(i - 1)], Step(size, s, Increment(i - 1)).value;
      RunSnoc(size, Initial(attempts), actions, Decide(i - 1, true));
      StraysSnoc(actions, Decide(i - 1, true));
      actions, s := actions + [Decide(i - 1, true)], Step(size, s, Decide(i - 1, true)).value;
    }
  }

  /** No run with at most `k` stray releases has more than `m` permits held. */
  ghost predicate HoldsAtMost(size: int, attempts: nat, k: nat, m: int) {
    forall actions :: Strays(actions) <= k ==> HeldAfter(size, attempts, actions) <= m
  }

  function HeldAfter(size: int, attempts: nat, actions: seq<Action>): nat {
    var r := Run(size, Initial(attempts), actions);
    if r.None? then 0 else Granted(r.value)
  }

  /** With at most `k` stray releases the permits held can reach `size + k`, if that many attempts are made,
      and no more. */
  lemma HoldsAtMostIff(size: int, attempts: nat, k: nat, m: nat)
    requires size > 0
    ensures HoldsAtMost(size, attempts, k, m) <==> size + k <= m || attempts <= m
  {
    if size + k <= m || attempts <= m {
      forall actions | Strays(actions) <= k ensures HeldAfter(size, attempts, actions) <= m {
        SafeInEveryRun(size, attempts, actions);
        var r := Run(size, Initial(attempts), actions);
        if r.Some? {
          CountAtMost((p: Phase) => p.Holding?, r.value.phases);
        }
      }
    } else {
      var actions, s := PermitsInTurn(size, attempts, k, m + 1);
      CountFirst((p: Phase) => p.Holding?, s.phases, m + 1);
      assert HeldAfter(size, attempts, actions) > m;
    }
  }

  /** So the semaphore's own bound survives `k` stray releases exactly when there are none, or too few attempts
      to notice. */
  lemma StrayReleasesIff(size: int, attempts: nat, k: nat)
    requires size > 0
    ensures HoldsAtMost(size, attempts, k, size) <==> k == 0 || attempts <= size
  {
    HoldsAtMostIff(size, attempts, k, size);
  }

  // ----- Refusals while nobody holds a permit -----

  /** The first `k` attempts and attempt `size` are bound to back out; the attempts from `k` on hold the permits. */
  ghost predicate Draining(size: nat, s: State, attempts: nat, k: nat) {
    && k <= size < attempts == |s.phases| && s.counter == size + 1
    && (forall j :: 0 <= j < k ==> s.phases[j] == Incremented(size + 1))
    && (forall j :: k <= j < size ==> s.phases[j].Holding?)
    && s.phases[size] == Incremented(size + 1)
    && (forall j :: size < j < attempts ==> s.phases[j].Idle?)
  }

  /** Each holder in turn releases its permit and tries again, in vain. */
  lemma {:induction false} Drain(size: nat, attempts: nat, k: nat) returns (actions: seq<Action>, s: State)
    requires k <= size < attempts
    ensures Run(size, Initial(attempts), actions) == Some(s) && AllSucceed(actions) && Draining(size, s, attempts, k)
    decreases k
  {
    if k == 0 {
      actions, s := PermitsInTurn(size, attempts, 0, size);
      RunSnoc(size, Initial(attempts), actions, Increment(size));
      actions, s := actions + [Increment(size)], Step(size, s, Increment(size)).value;
    } else {
      actions, s := Drain(size, attempts, k - 1);
      RunSnoc(size, Initial(attempts), actions, Release(k - 1, true));
      actions, s := actions + [Release(k - 1, true)], Step(size, s, Release(k - 1, true)).value;
      RunSnoc(size, Initial(attempts), actions, Increment(k - 1));
      actions, s := actions + [Increment(k - 1)], Step(size, s, Increment(k - 1)).value;
    }
  }

  /** After this failure-free run nobody holds a permit or is about to get one, and attempt `i` is refused. */
  predicate RefusedWhileFree(size: int, attempts: nat, actions: seq<Action>, i: nat) {
    var r := Run(size, Initial(attempts), actions);
    && r.Some? && i < |r.value.phases| && r.value.phases[i].Idle? && Admitted(size, r.value) == 0
    && Step(size, r.value, Increment(i)).value.phases[i].count > size
  }

  lemma RefusedAfterDraining(size: nat, attempts: nat) returns (actions: seq<Action>)
    requires 0 < size < attempts
    ensures AllSucceed(actions) && RefusedWhileFree(size, attempts, actions, size - 1)
  {
    var s;
    actions, s := Drain(size, attempts, size - 1);
    RunSnoc(size, Initial(attempts), actions, Release(size - 1, true));
    actions, s := actions + [Release(size - 1, true)], Step(size, s, Release(size - 1, true)).value;
    CountNone((p: Phase) => p.Holding? || (p.Incremented? && p.count <= size), s.phases);
  }

  /** When there are no more attempts than permits, the counter never stands in anybody's way. */
  lemma FewAreNeverRefused(size: int, attempts: nat, actions: seq<Action>, i: nat)
    requires size > 0 && attempts <= size && AllSucceed(actions)
    ensures !RefusedWhileFree(size, attempts, actions, i)
  {
    SafeInEveryRun(size, attempts, actions);
    NothingLeaks(size, Initial(attempts), actions);
    var r := Run(size, Initial(attempts), actions);
    if r.Some? && i < |r.value.phases| && r.value.phases[i].Idle? {
      BusyAreNotIdle(r.value.phases, i);
    }
  }

  /** Holders and attempts in flight leave out everybody idle. */
  lemma {:induction false} BusyAreNotIdle(phases: seq<Phase>, i: nat)
    requires i < |phases| && phases[i].Idle?
    ensures Count((p: Phase) => p.Holding?, phases) + Count((p: Phase) => p.Incremented?, phases) <= |phases| - 1
  {
    if i > 0 {
      BusyAreNotIdle(phases[1..], i - 1);
    } else {
      BusyFit(phases[1..]);
    }
  }

  lemma {:induction false} BusyFit(phases: seq<Phase>)
    ensures Count((p: Phase) => p.Holding?, phases) + Count((p: Phase) => p.Incremented?, phases) <= |phases|
  {
    if phases != [] {
      BusyFit(phases[1..]);
    }
  }

  /** A refusal does not mean that permits are held: without any failure, one more attempt than permits is enough
      for a run in which an attempt is refused although nobody holds or will get a permit. */
  lemma RefusedWhileFreeIff(size: nat, attempts: nat)
    requires size > 0
    ensures (exists actions, i :: AllSucceed(actions) && RefusedWhileFree(size, attempts, actions, i))
      <==> attempts > size
  {
    if attempts > size {
      var actions := RefusedAfterDraining(size, attempts);
    } else {
      forall actions, i | AllSucceed(actions) ensures !RefusedWhileFree(size, attempts, actions, i) {
        FewAreNeverRefused(size, attempts, actions, i);
      }
    }
  }

  // ----- The methods, one caller at a time -----

  class Counter {
    var value: int

    constructor ()
      ensures value == 0
    {
      value := 0;
    }
  }

  class Distributed {
    const counter: Counter
    const size: int

    constructor (counter: Counter, size: int)
      requires size > 0
      ensures this.counter == counter && this.size == size
    {
      this.counter, this.size := counter, size;
    }

    /** The calls of one undisturbed `TryAcquire` are the steps `Increment` and `Decide` (or
        `IncrementFails`) of attempt `who`; `incOk` and `decOk` are the outcomes of the counter calls. */
    method TryAcquire(incOk: bool, decOk: bool, ghost s: State, ghost who: nat) returns (ok: bool, ghost s': State)
      requires counter.value == s.counter && who < |s.phases| && s.phases[who].Idle?
      modifies counter
      ensures counter.value == s'.counter
      ensures if incOk then Run(size, s, [Increment(who)] + [Decide(who, decOk)]) == Some(s') else s' == s
      ensures |s'.phases| == |s.phases| && (ok <==> s'.phases[who].Holding?)
      ensures ok <==> incOk && old(counter.value) < size
      ensures !ok && incOk && decOk ==> counter.value == old(counter.value)
    {
      s' := s;
      if !incOk {
        return false, s;
      }
      counter.value := counter.value + 1;
      var count := counter.value;
      RunSnoc(size, s, [], Increment(who));
      assert [] + [Increment(who)] == [Increment(who)];
      RunSnoc(size, s, [Increment(who)], Decide(who, decOk));
      s' := Step(size, Step(size, s, Increment(who)).value, Decide(who, decOk)).value;
      if count > size {
        if decOk {
          counter.value := counter.value - 1;
        }
        return false, s';
      }
      ok := true;
    }

    /** `Acquire`: one attempt a turn until one succeeds or, after the last turn, the context is done.  Before
        each attempt other clients have changed the counter, and each counter call may fail. */
    method Acquire(turns: seq<Turn>) returns (ok: bool, n: nat)
      requires turns != []
      modifies counter
      ensures 1 <= n <= |turns| && (!ok ==> n == |turns|)
      ensures forall i :: 0 <= i < n ==> (Grants(size, old(counter.value), turns, i) <==> ok && i == n - 1)
      ensures counter.value == CounterAfter(old(counter.value), turns, n) + if ok then 1 - Leak(turns[n - 1]) else 0
    {
      n := 0;
      while true
        invariant n < |turns| && counter.value == CounterAfter(old(counter.value), turns, n)
        invariant forall i :: 0 <= i < n ==> !Grants(size, old(counter.value), turns, i)
        decreases |turns| - n
      {
        var turn := turns[n];
        counter.value := counter.value + turn.others;
        ghost var s := State(counter.value, [Idle], 0);
        ghost var s';
        ok, s' := TryAcquire(turn.incOk, turn.decOk, s, 0);
        AttemptEffect(size, s, turn.incOk, turn.decOk, s');
        n := n + 1;
        if ok || n == |turns| {
          return;
        }
      }
    }
  }

  /** One turn of `Acquire`: what other clients did to the counter since the last one, and whether the increment
      and the decrement of this attempt work. */
  datatype Turn = Turn(others: int, incOk: bool, decOk: bool)

  /** A refused attempt leaves nothing behind unless its decrement fails. */
  function Leak(turn: Turn): int {
    if turn.incOk && !turn.decOk then 1 else 0
  }

  /** The counter after `n` turns without success: what the others did, and the leaks. */
  function CounterAfter(start: int, turns: seq<Turn>, n: nat): int
    requires n <= |turns|
  {
    if n == 0 then start else CounterAfter(start, turns, n - 1) + turns[n - 1].others + Leak(turns[n - 1])
  }

  /** The increment of turn `i` works and finds room, all turns before it having been refused. */
  predicate Grants(size: int, start: int, turns: seq<Turn>, i: nat)
    requires i < |turns|
  {
    turns[i].incOk && CounterAfter(start, turns, i) + turns[i].others < size
  }

  lemma AttemptEffect(size: int, s: State, incOk: bool, decOk: bool, s': State)
    requires s.phases == [Idle] && |s'.phases| == 1
    requires if incOk then Run(size, s, [Increment(0)] + [Decide(0, decOk)]) == Some(s') else s' == s
    ensures s'.counter == s.counter +
      if s'.phases[0].Holding? then 1 else if incOk && !decOk then 1 else 0
  {
    RunSnoc(size, s, [], Increment(0));
    assert [] + [Increment(0)] == [Increment(0)];
    RunSnoc(size, s, [Increment(0)], Decide(0, decOk));
  }
}
