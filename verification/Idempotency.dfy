/** The idempotency middleware of `middleware/idempotency/endpoint.go` as a protocol: any number of requests,
    interleaving at every access to the store.  All requests that carry a key carry the same one. */
module Idempotency {
  import opened Options

  /** What `next` returns: a response, or an error with its text. */
  datatype Reply<T> = Ok(response: T) | Fail(text: string)

  /** What the store keeps of a reply: the error text, and the response as JSON (nil is the empty body). */
  datatype Saved = Saved(error: string, body: string)

  datatype Answer<T> =
    | Live(reply: Reply<T>)          // `next` ran for this very request
    | ReplayedError(text: string)
    | ReplayedBody(body: string)
    | InProgress
    | StoreFailure
  {
    predicate Succeeds() {
      (Live? && reply.Ok?) || ReplayedBody?
    }
  }

  /** `skipOnError`, which requests carry the key, and `json.Marshal` (empty where it fails). */
  datatype Config<!T> = Config(skipOnError: bool, keyed: seq<bool>, marshal: T -> string)

  /** What is written down of a reply. */
  function Record<T>(marshal: T -> string, reply: Reply<T>): Saved {
    match reply
    case Ok(response) => Saved("", marshal(response))
    case Fail(text) => Saved(text, "")
  }

  /** `decodeEndpointResult`. */
  function Replay<T>(saved: Saved): Answer<T> {
    if saved.error != "" then ReplayedError(saved.error) else ReplayedBody(saved.body)
  }

  /** A replay gives back what the live request was given, but for one case: an error without a text comes
      back as a success with an empty body. */
  lemma ReplayIsFaithful<T>(marshal: T -> string, reply: Reply<T>)
    ensures var a: Answer<T> := Replay(Record(marshal, reply));
      && (a.Succeeds() <==> reply.Ok? || reply.text == "")
      && (reply.Ok? ==> a == ReplayedBody(marshal(reply.response)))
      && (reply.Fail? && reply.text != "" ==> a == ReplayedError(reply.text))
  {
  }

  // ----- The protocol -----

  datatype Point<T> =
    | Start
    | Locking                        // no result found; before the store's `SetNX`
    | Checked                        // inside `SetNX`, after `Exists` said no
    | Owning                         // has the processing lock
    | Inside                         // `next` is running under the lock
    | Saving(reply: Reply<T>)
    | Releasing(reply: Reply<T>)     // the result is written, the lock not yet deleted
    | Direct                         // will call `next` without a lock
    | InsideDirect
    | Answered(answer: Answer<T>)

  datatype State<T> = State(
    result: Option<Saved>,
    lock: Option<nat>,               // the request that took it (who it was is for the proofs only)
    points: seq<Point<T>>,
    admitted: seq<nat>,              // who took the lock, in order
    runs: seq<nat>)                  // who called `next`, in order

  datatype Sight = Clear | Blind | Broken   // `Get`: answered; KV error, read as "no result"; error

  datatype Action<T> =
    | NoKey(c: nat)
    | Get(c: nat, sight: Sight)
    | SetNX(c: nat, ok: bool)        // the store's `SetNX` as one step
    | Exists(c: nat, ok: bool)       // its first half ...
    | LockNX(c: nat, ok: bool)       // ... and its second
    | Enter(c: nat)
    | Return(c: nat, reply: Reply<T>)
    | Save(c: nat, ok: bool)
    | Release(c: nat, ok: bool)
    | ExpireResult
    | ExpireLock

  predicate At<T(==)>(g: Config<T>, s: State<T>, c: nat, p: Point<T>) {
    c < |g.keyed| == |s.points| && s.points[c] == p
  }

  function Go<T>(s: State<T>, c: nat, p: Point<T>): State<T>
    requires c < |s.points|
  {
    s.(points := s.points[c := p])
  }

  /** A store error ends the request, or is skipped. */
  function OnError<T>(g: Config<T>): Point<T> {
    if g.skipOnError then Direct else Answered(StoreFailure)
  }

  function Locked<T>(s: State<T>, c: nat): State<T>
    requires c < |s.points|
  {
    Go(s, c, Owning).(lock := Some(c), admitted := s.admitted + [c])
  }

  function Step<T>(g: Config<T>, s: State<T>, a: Action<T>): Option<State<T>> {
    match a
    case ExpireResult => Some(s.(result := None))
    case ExpireLock => Some(s.(lock := None))
    case _ =>
      if a.c >= |g.keyed| || |s.points| != |g.keyed| then None else OwnStep(g, s, a)
  }

  /** The steps of a request. */
  function OwnStep<T>(g: Config<T>, s: State<T>, a: Action<T>): Option<State<T>>
    requires !a.ExpireResult? && !a.ExpireLock? && a.c < |g.keyed| == |s.points|
  {
    var p := s.points[a.c];
    match a
    case NoKey(c) =>
      if !p.Start? || g.keyed[c] then None else Some(Go(s, c, Direct))
    case Get(c, sight) =>
      if !p.Start? || !g.keyed[c] then None
      else if sight.Broken? then Some(Go(s, c, OnError(g)))
      else if sight.Clear? && s.result.Some? then Some(Go(s, c, Answered(Replay(s.result.value))))
      else Some(Go(s, c, Locking))
    case SetNX(c, ok) =>
      if !p.Locking? then None
      else if !ok then Some(Go(s, c, OnError(g)))
      else if s.result.Some? || s.lock.Some? then Some(Go(s, c, Answered(InProgress)))
      else Some(Locked(s, c))
    case Exists(c, ok) =>
      if !p.Locking? then None
      else if !ok then Some(Go(s, c, OnError(g)))
      else if s.result.Some? then Some(Go(s, c, Answered(InProgress)))
      else Some(Go(s, c, Checked))
    case LockNX(c, ok) =>
      if !p.Checked? then None
      else if !ok then Some(Go(s, c, OnError(g)))
      else if s.lock.Some? then Some(Go(s, c, Answered(InProgress)))
      else Some(Locked(s, c))
    case Enter(c) =>
      if p.Owning? then Some(Go(s, c, Inside).(runs := s.runs + [c]))
      else if p.Direct? then Some(Go(s, c, InsideDirect).(runs := s.runs + [c]))
      else None
    case Return(c, reply) =>
      if p.Inside? then Some(Go(s, c, Saving(reply)))
      else if p.InsideDirect? then Some(Go(s, c, Answered(Live(reply))))
      else None
    case Save(c, ok) =>
      if !p.Saving? then None
      else if !ok then Some(Go(s, c, Answered(Live(p.reply))))
      else Some(Go(s, c, Releasing(p.reply)).(result := Some(Record(g.marshal, p.reply))))
    case Release(c, ok) =>
      if !p.Releasing? then None
      else Some(Go(s, c, Answered(Live(p.reply))).(lock := if ok then None else s.lock))
  }

  function Run<T>(g: Config<T>, s: State<T>, actions: seq<Action<T>>): Option<State<T>>
    decreases |actions|
  {
    if actions == [] then Some(s)
    else
      var r := Step(g, s, actions[0]);
      if r.None? then None else Run(g, r.value, actions[1..])
  }

  function Initial<T>(g: Config<T>): State<T> {
    State(None, None, seq(|g.keyed|, _ => Start), [], [])
  }

  // ----- Never two at once -----

  predicate Holding<T>(p: Point<T>) {
    p.Owning? || p.Inside? || p.Saving? || p.Releasing?
  }

  ghost predicate HolderInv<T>(g: Config<T>, s: State<T>) {
    |s.points| == |g.keyed| && forall c: nat :: c < |s.points| && Holding(s.points[c]) ==> s.lock == Some(c)
  }

  /** The lock times out only when the request that took it is over. */
  ghost predicate NoHeldLockExpires<T>(g: Config<T>, s: State<T>, actions: seq<Action<T>>)
    decreases |actions|
  {
    actions != [] && Step(g, s, actions[0]).Some? ==>
      && (actions[0].ExpireLock? ==> forall c: nat :: c < |s.points| ==> !Holding(s.points[c]))
      && NoHeldLockExpires(g, Step(g, s, actions[0]).value, actions[1..])
  }

  lemma {:induction false} HolderRun<T>(g: Config<T>, s: State<T>, actions: seq<Action<T>>)
    requires HolderInv(g, s) && NoHeldLockExpires(g, s, actions)
    ensures Run(g, s, actions).Some? ==> HolderInv(g, Run(g, s, actions).value)
    decreases |actions|
  {
    if actions != [] && Step(g, s, actions[0]).Some? {
      HolderRun(g, Step(g, s, actions[0]).value, actions[1..]);
    }
  }

  /** At any granularity, with store errors and expiring results, no two requests run `next` under the lock at
      once. */
  lemma NeverTwoAtOnce<T>(g: Config<T>, actions: seq<Action<T>>, c: nat, d: nat)
    requires NoHeldLockExpires(g, Initial(g), actions)
    ensures var r := Run(g, Initial(g), actions);
      r.Some? && At(g, r.value, c, Inside) && At(g, r.value, d, Inside) ==> c == d
  {
    HolderRun(g, Initial(g), actions);
  }

  // ----- Who is admitted -----

  predicate Unexpiring<T>(a: Action<T>) {
    !a.ExpireResult? && !a.ExpireLock?
  }

  /** The first half of `SetNX` saw no result, but by the time of the second half there is one. */
  predicate Stale<T>(g: Config<T>, s: State<T>, a: Action<T>) {
    a.LockNX? && a.ok && a.c < |s.points| && s.points[a.c].Checked? && s.lock.None? && s.result.Some?
  }

  ghost predicate StaleFree<T>(g: Config<T>, s: State<T>, actions: seq<Action<T>>)
    decreases |actions|
  {
    actions != [] && Step(g, s, actions[0]).Some? ==>
      !Stale(g, s, actions[0]) && StaleFree(g, Step(g, s, actions[0]).value, actions[1..])
  }

  /** From the first admission on there is a lock or a result. */
  ghost predicate AdmittedInv<T>(g: Config<T>, s: State<T>) {
    && |s.points| == |g.keyed|
    && (if s.admitted == [] then s.lock.None? && s.result.None? && NobodyHolds(s) else s.lock.Some? || s.result.Some?)
    && (forall c: nat :: c < |s.points| && s.points[c].Releasing? ==> s.result.Some?)
  }

  ghost predicate NobodyHolds<T>(s: State<T>) {
    forall c: nat :: c < |s.points| ==> !Holding(s.points[c])
  }

  lemma AdmittedStep<T>(g: Config<T>, s: State<T>, a: Action<T>)
    requires AdmittedInv(g, s) && Unexpiring(a) && Step(g, s, a).Some?
    ensures AdmittedInv(g, Step(g, s, a).value)
    ensures var s' := Step(g, s, a).value;
      || (s'.admitted == s.admitted && !Stale(g, s, a))
      || (s'.admitted == s.admitted + [a.c] && (s.admitted == [] <==> !Stale(g, s, a)))
  {
  }

  lemma {:induction false} AdmittedRun<T>(g: Config<T>, s: State<T>, actions: seq<Action<T>>)
    requires AdmittedInv(g, s) && (forall a :: a in actions ==> Unexpiring(a)) && Run(g, s, actions).Some?
    ensures AdmittedInv(g, Run(g, s, actions).value) && |s.admitted| <= |Run(g, s, actions).value.admitted|
    ensures |Run(g, s, actions).value.admitted| <= 1 <==> |s.admitted| <= 1 && StaleFree(g, s, actions)
    decreases |actions|
  {
    if actions != [] {
      assert actions[0] in actions;
      AdmittedStep(g, s, actions[0]);
      AdmittedRun(g, Step(g, s, actions[0]).value, actions[1..]);
    }
  }

  /** Where it goes wrong: the second admission of a run, if there is one, is the step of a request whose `Exists`
      was overtaken by the writing of the result and the deletion of the lock.  (`HalvedAtMostOnceIff` says for
      which requests such runs exist.) */
  lemma AdmittedOnceIff<T>(g: Config<T>, actions: seq<Action<T>>)
    requires forall a :: a in actions ==> Unexpiring(a)
    ensures var r := Run(g, Initial(g), actions);
      r.Some? ==> (|r.value.admitted| <= 1 <==> StaleFree(g, Initial(g), actions))
  {
    if Run(g, Initial(g), actions).Some? {
      AdmittedRun(g, Initial(g), actions);
    }
  }

  // ----- At most once -----

  /** No request calls `next` because the store failed. */
  predicate NoBypass<T>(g: Config<T>, a: Action<T>) {
    g.skipOnError ==> !(a.Get? && a.sight.Broken?) && ((a.SetNX? || a.Exists? || a.LockNX?) ==> a.ok)
  }

  /** The request has its reply: it is writing it down or has handed it on. */
  predicate Finished<T>(p: Point<T>) {
    p.Releasing? || (p.Answered? && p.answer.Live?)
  }

  function ReplyOf<T>(p: Point<T>): Reply<T>
    requires Finished(p)
  {
    if p.Releasing? then p.reply else p.answer.reply
  }

  /** Where a request can stand that was not admitted. */
  predicate Outsider<T(==)>(g: Config<T>, s: State<T>, c: nat)
    requires c < |g.keyed| == |s.points|
  {
    var p := s.points[c];
    if !g.keyed[c] then p.Start? || p.Direct? || p.InsideDirect? || (p.Answered? && p.answer.Live?)
    else
      || p.Start? || p.Locking? || p.Checked?
      || (p.Answered? && (p.answer.InProgress? || p.answer.StoreFailure?
          || (s.result.Some? && p.answer == Replay(s.result.value))))
  }

  ghost predicate WinnerInv<T>(g: Config<T>, s: State<T>) {
    && AdmittedInv(g, s) && |s.admitted| <= 1
    && (forall c: nat :: c < |s.points| && c !in s.admitted ==> Outsider(g, s, c))
    && (s.admitted != [] ==> WinnerFits(g, s, s.admitted[0]))
  }

  predicate WinnerFits<T>(g: Config<T>, s: State<T>, w: nat) {
    && w < |g.keyed| == |s.points| && g.keyed[w]
    && (Holding(s.points[w]) || Finished(s.points[w]))
    && (s.result.Some? ==> Finished(s.points[w]) && s.result.value == Record(g.marshal, ReplyOf(s.points[w])))
  }

  /** A step of the admitted request: only its `Save` changes the result, and only when there was none. */
  lemma WinnersOwnStep<T>(g: Config<T>, s: State<T>, a: Action<T>)
    requires WinnerInv(g, s) && s.admitted != [] && Unexpiring(a) && a.c == s.admitted[0] && Step(g, s, a).Some?
    ensures var s' := Step(g, s, a).value; WinnerFits(g, s', a.c) && s'.admitted == s.admitted
    ensures s.result.Some? ==> Step(g, s, a).value.result == s.result
  {
  }

  /** A step of any other request that does not admit it. */
  lemma OutsidersStep<T>(g: Config<T>, s: State<T>, a: Action<T>)
    requires AdmittedInv(g, s) && Unexpiring(a) && NoBypass(g, a) && Step(g, s, a).Some?
    requires Outsider(g, s, a.c) && Step(g, s, a).value.admitted == s.admitted
    ensures var s' := Step(g, s, a).value; Outsider(g, s', a.c) && s'.result == s.result
  {
  }

  lemma WinnerStep<T>(g: Config<T>, s: State<T>, a: Action<T>)
    requires WinnerInv(g, s) && Unexpiring(a) && NoBypass(g, a) && !Stale(g, s, a) && Step(g, s, a).Some?
    ensures WinnerInv(g, Step(g, s, a).value)
  {
    var s' := Step(g, s, a).value;
    AdmittedStep(g, s, a);
    assert forall c: nat :: c < |s.points| && c != a.c ==> s'.points[c] == s.points[c];
    if s'.admitted != s.admitted {
      assert Outsider(g, s, a.c);
      assert s'.points[a.c] == Owning && s'.result.None? && s'.admitted == [a.c];
    } else if a.c in s.admitted {
      assert s.admitted == [a.c];
      WinnersOwnStep(g, s, a);
    } else {
      OutsidersStep(g, s, a);
    }
  }

  /** The calls of `next` by requests that carry the key. */
  function KeyedRuns<T>(g: Config<T>, runs: seq<nat>): seq<nat> {
    if runs == [] then []
    else
      var c := runs[|runs| - 1];
      KeyedRuns(g, runs[..|runs| - 1]) + if c < |g.keyed| && g.keyed[c] then [c] else []
  }

  lemma KeyedRunsSnoc<T>(g: Config<T>, runs: seq<nat>, c: nat)
    ensures KeyedRuns(g, runs + [c]) == KeyedRuns(g, runs) + if c < |g.keyed| && g.keyed[c] then [c] else []
  {
    assert (runs + [c])[..|runs|] == runs;
  }

  /** The admitted request, once it has called `next`. */
  function Begun<T>(s: State<T>): seq<nat> {
    if s.admitted != [] && s.admitted[0] < |s.points| && !s.points[s.admitted[0]].Owning? then s.admitted else []
  }

  /** The log of keyed calls holds that request and nothing else. */
  ghost predicate LogInv<T>(g: Config<T>, s: State<T>) {
    KeyedRuns(g, s.runs) == Begun(s)
  }

  lemma EnterStep<T>(g: Config<T>, s: State<T>, a: Action<T>)
    requires WinnerInv(g, s) && a.Enter? && Step(g, s, a).Some?
    ensures var s' := Step(g, s, a).value; s'.runs == s.runs + [a.c]
    ensures Begun(Step(g, s, a).value) == Begun(s) + if g.keyed[a.c] then [a.c] else []
  {
    if a.c !in s.admitted {
      assert Outsider(g, s, a.c);
    } else {
      assert s.admitted == [a.c];
    }
  }

  lemma OtherStep<T>(g: Config<T>, s: State<T>, a: Action<T>)
    requires WinnerInv(g, s) && Unexpiring(a) && !a.Enter? && !Stale(g, s, a) && Step(g, s, a).Some?
    ensures var s' := Step(g, s, a).value; s'.runs == s.runs && Begun(s') == Begun(s)
  {
    AdmittedStep(g, s, a);
    assert a.c !in s.admitted ==> Outsider(g, s, a.c);
  }

  lemma LogStep<T>(g: Config<T>, s: State<T>, a: Action<T>)
    requires WinnerInv(g, s) && LogInv(g, s)
    requires Unexpiring(a) && !Stale(g, s, a) && Step(g, s, a).Some?
    ensures LogInv(g, Step(g, s, a).value)
  {
    if a.Enter? {
      EnterStep(g, s, a);
      KeyedRunsSnoc(g, s.runs, a.c);
    } else {
      OtherStep(g, s, a);
    }
  }

  lemma {:induction false} WinnerRun<T>(g: Config<T>, s: State<T>, actions: seq<Action<T>>)
    requires WinnerInv(g, s) && LogInv(g, s) && StaleFree(g, s, actions) && Run(g, s, actions).Some?
    requires forall a :: a in actions ==> Unexpiring(a) && NoBypass(g, a)
    ensures WinnerInv(g, Run(g, s, actions).value) && LogInv(g, Run(g, s, actions).value)
    decreases |actions|
  {
    if actions != [] {
      assert actions[0] in actions;
      WinnerStep(g, s, actions[0]);
      LogStep(g, s, actions[0]);
      WinnerRun(g, Step(g, s, actions[0]).value, actions[1..]);
    }
  }

  /** The store's `SetNX` is one step. */
  predicate Atomic<T>(a: Action<T>) {
    !a.Exists? && !a.LockNX?
  }

  lemma {:induction false} AtomicIsStaleFree<T>(g: Config<T>, s: State<T>, actions: seq<Action<T>>)
    requires forall a :: a in actions ==> Atomic(a)
    ensures StaleFree(g, s, actions)
    decreases |actions|
  {
    if actions != [] && Step(g, s, actions[0]).Some? {
      assert actions[0] in actions;
      AtomicIsStaleFree(g, Step(g, s, actions[0]).value, actions[1..]);
    }
  }

  /** Until somebody is admitted nobody is turned away, unless by the store's failure. */
  ghost predicate OpenInv<T>(g: Config<T>, s: State<T>) {
    && |s.points| == |g.keyed|
    && forall c: nat :: c < |g.keyed| && g.keyed[c] && s.points[c].Answered? ==>
      AnsweredOpenly(g, s, s.points[c].answer)
  }

  predicate AnsweredOpenly<T>(g: Config<T>, s: State<T>, answer: Answer<T>) {
    if answer.StoreFailure? then !g.skipOnError else s.admitted != []
  }

  lemma OpenStep<T>(g: Config<T>, s: State<T>, a: Action<T>)
    requires WinnerInv(g, s) && OpenInv(g, s)
    requires Unexpiring(a) && NoBypass(g, a) && !Stale(g, s, a) && Step(g, s, a).Some?
    ensures OpenInv(g, Step(g, s, a).value)
  {
    var s' := Step(g, s, a).value;
    AdmittedStep(g, s, a);
    assert a.c !in s.admitted ==> Outsider(g, s, a.c);
    forall c: nat | c < |g.keyed| && g.keyed[c] && s'.points[c].Answered?
      ensures AnsweredOpenly(g, s', s'.points[c].answer)
    {
      if c != a.c {
        assert AnsweredOpenly(g, s, s.points[c].answer);
      }
    }
  }

  lemma {:induction false} OpenRun<T>(g: Config<T>, s: State<T>, actions: seq<Action<T>>)
    requires WinnerInv(g, s) && OpenInv(g, s) && StaleFree(g, s, actions) && Run(g, s, actions).Some?
    requires forall a :: a in actions ==> Unexpiring(a) && NoBypass(g, a)
    ensures OpenInv(g, Run(g, s, actions).value)
    decreases |actions|
  {
    if actions != [] {
      assert actions[0] in actions;
      WinnerStep(g, s, actions[0]);
      OpenStep(g, s, actions[0]);
      OpenRun(g, Step(g, s, actions[0]).value, actions[1..]);
    }
  }

  /** What a request that carries the key may be told: that another, which was admitted, is in progress; that the
      store failed (see `ErrorsDecide`); the live reply of its own call of `next`; or a replay of the one reply. */
  predicate GoodAnswer<T(==)>(g: Config<T>, s: State<T>, c: nat)
    requires c < |s.points| && s.points[c].Answered?
  {
    match s.points[c].answer
    case InProgress => s.admitted != [] && s.admitted[0] != c
    case StoreFailure => !g.skipOnError
    case Live(reply) => KeyedRuns(g, s.runs) == [c]
    case _ =>
      && |KeyedRuns(g, s.runs)| == 1 && var w := KeyedRuns(g, s.runs)[0];
      && w < |s.points| && Finished(s.points[w])
      && s.points[c].answer == Replay(Record(g.marshal, ReplyOf(s.points[w])))
  }

  /** The promise of the middleware.  With `SetNX` as one step, nothing expiring, and store errors not
      skipped, `next` runs at most once for the key, and every request is answered accordingly. */
  lemma AtMostOnce<T>(g: Config<T>, actions: seq<Action<T>>)
    requires forall a :: a in actions ==> Unexpiring(a) && NoBypass(g, a) && Atomic(a)
    ensures var r := Run(g, Initial(g), actions);
      r.Some? ==>
        && |KeyedRuns(g, r.value.runs)| <= 1 && |r.value.points| == |g.keyed|
        && forall c: nat :: c < |g.keyed| && g.keyed[c] && r.value.points[c].Answered? ==> GoodAnswer(g, r.value, c)
  {
    var r := Run(g, Initial(g), actions);
    if r.Some? {
      AtomicIsStaleFree(g, Initial(g), actions);
      WinnerRun(g, Initial(g), actions);
      OpenRun(g, Initial(g), actions);
      forall c: nat | c < |g.keyed| && g.keyed[c] && r.value.points[c].Answered? ensures GoodAnswer(g, r.value, c) {
        WinnerAnswers(g, r.value, c);
      }
    }
  }

  lemma WinnerAnswers<T>(g: Config<T>, s: State<T>, c: nat)
    requires WinnerInv(g, s) && LogInv(g, s) && OpenInv(g, s) && c < |g.keyed| && g.keyed[c] && s.points[c].Answered?
    ensures GoodAnswer(g, s, c)
  {
    assert AnsweredOpenly(g, s, s.points[c].answer);
    if c !in s.admitted {
      assert Outsider(g, s, c);
    } else {
      assert s.admitted == [c];
    }
  }

  // ----- Each request by itself -----

  /** The request has called `next`. */
  predicate Past<T>(p: Point<T>) {
    p.Inside? || p.Saving? || p.Releasing? || p.InsideDirect? || p.Answered?
  }

  ghost predicate OnceEachInv<T>(g: Config<T>, s: State<T>) {
    && |s.points| == |g.keyed|
    && (forall i :: 0 <= i < |s.runs| ==> s.runs[i] < |s.points| && Past(s.points[s.runs[i]]))
    && (forall i, j :: 0 <= i < j < |s.runs| ==> s.runs[i] != s.runs[j])
  }

  lemma {:induction false} OnceEachRun<T>(g: Config<T>, s: State<T>, actions: seq<Action<T>>)
    requires OnceEachInv(g, s)
    ensures Run(g, s, actions).Some? ==> OnceEachInv(g, Run(g, s, actions).value)
    decreases |actions|
  {
    if actions != [] && Step(g, s, actions[0]).Some? {
      OnceEachStep(g, s, actions[0]);
      OnceEachRun(g, Step(g, s, actions[0]).value, actions[1..]);
    }
  }

  lemma OnceEachStep<T>(g: Config<T>, s: State<T>, a: Action<T>)
    requires OnceEachInv(g, s) && Step(g, s, a).Some?
    ensures OnceEachInv(g, Step(g, s, a).value)
  {
    var s' := Step(g, s, a).value;
    assert s'.runs == s.runs || (a.Enter? && s'.runs == s.runs + [a.c] && !Past(s.points[a.c]));
    forall i | 0 <= i < |s'.runs| ensures s'.runs[i] < |s'.points| && Past(s'.points[s'.runs[i]]) {
      if i < |s.runs| {
        assert s'.runs[i] == s.runs[i];
      }
    }
  }

  /** When at most one request carries the key, and none is in the log twice, the keyed part of the log has at most
      one entry. */
  lemma {:induction false} KeyedRunsOfOne<T>(g: Config<T>, runs: seq<nat>)
    requires forall i, j :: 0 <= i < j < |runs| ==> runs[i] != runs[j]
    requires SingleKey(g)
    ensures |KeyedRuns(g, runs)| <= 1
    ensures KeyedRuns(g, runs) != [] ==>
      KeyedRuns(g, runs)[0] in runs && KeyedRuns(g, runs)[0] < |g.keyed| && g.keyed[KeyedRuns(g, runs)[0]]
  {
    if runs != [] {
      KeyedRunsOfOne(g, runs[..|runs| - 1]);
    }
  }

  /** No two requests share the key. */
  predicate SingleKey<T>(g: Config<T>) {
    forall c, d :: 0 <= c < |g.keyed| && 0 <= d < |g.keyed| && g.keyed[c] && g.keyed[d] ==> c == d
  }

  /** A request calls `next` at most once, whatever fails or expires; so a key that only one request carries is
      never served twice. */
  lemma AloneAtMostOnce<T>(g: Config<T>, actions: seq<Action<T>>)
    ensures var r := Run(g, Initial(g), actions);
      r.Some? ==>
        && (forall i, j :: 0 <= i < j < |r.value.runs| ==> r.value.runs[i] != r.value.runs[j])
        && (SingleKey(g) ==> |KeyedRuns(g, r.value.runs)| <= 1)
  {
    OnceEachRun(g, Initial(g), actions);
    var r := Run(g, Initial(g), actions);
    if r.Some? && SingleKey(g) {
      KeyedRunsOfOne(g, r.value.runs);
    }
  }

  // ----- Store errors -----

  /** The store answers request `c` with an error. */
  predicate Fails<T>(a: Action<T>, c: nat) {
    ((a.Get? && a.sight.Broken?) || ((a.SetNX? || a.Exists? || a.LockNX?) && !a.ok)) && a.c == c
  }

  /** The request has been told of a store error, or runs, or has run, without the lock. */
  predicate Bypassed<T>(s: State<T>, c: nat)
    requires c < |s.points|
  {
    var p := s.points[c];
    p.Direct? || p.InsideDirect? || (p.Answered? && (p.answer.StoreFailure? || (p.answer.Live? && c !in s.admitted)))
  }

  /** Before its fate is decided a request is not admitted; holding the lock it is. */
  predicate Placed<T>(s: State<T>, c: nat)
    requires c < |s.points|
  {
    var p := s.points[c];
    && (p.Start? || p.Locking? || p.Checked? || p.Direct? || p.InsideDirect? ==> c !in s.admitted)
    && (Holding(p) ==> c in s.admitted)
  }

  /** `c` has met an error (`met`) exactly if it is bypassed, and then as the option says. */
  predicate ErrorInv<T>(g: Config<T>, s: State<T>, c: nat, met: bool) {
    && c < |g.keyed| == |s.points| && g.keyed[c] && Placed(s, c) && (met <==> Bypassed(s, c))
    && (met ==> (g.skipOnError <==> s.points[c] != Answered(StoreFailure)))
  }

  lemma ErrorStep<T>(g: Config<T>, s: State<T>, a: Action<T>, c: nat, met: bool)
    requires ErrorInv(g, s, c, met) && Step(g, s, a).Some?
    ensures ErrorInv(g, Step(g, s, a).value, c, met || Fails(a, c))
  {
    var s' := Step(g, s, a).value;
    if a.ExpireResult? || a.ExpireLock? || a.c != c {
      assert s'.points[c] == s.points[c] && (c in s'.admitted <==> c in s.admitted);
    }
  }

  lemma {:induction false} ErrorRun<T>(g: Config<T>, s: State<T>, actions: seq<Action<T>>, c: nat, met: bool)
    requires ErrorInv(g, s, c, met) && Run(g, s, actions).Some?
    ensures ErrorInv(g, Run(g, s, actions).value, c, met || exists a :: a in actions && Fails(a, c))
    decreases |actions|
  {
    if actions != [] {
      ErrorStep(g, s, actions[0], c, met);
      ErrorRun(g, Step(g, s, actions[0]).value, actions[1..], c, met || Fails(actions[0], c));
      assert forall a :: a in actions <==> a == actions[0] || a in actions[1..];
    }
  }

  /** Exactly a request that meets a store error is told so, or, if errors are skipped, is served without the lock: in
      every run, whatever expires and however `SetNX` is divided. */
  lemma ErrorsDecide<T>(g: Config<T>, actions: seq<Action<T>>, c: nat)
    requires c < |g.keyed| && g.keyed[c] && Run(g, Initial(g), actions).Some?
    ensures var s := Run(g, Initial(g), actions).value;
      && |s.points| == |g.keyed|
      && ((exists a :: a in actions && Fails(a, c)) <==> Bypassed(s, c))
      && (Bypassed(s, c) ==> (g.skipOnError <==> s.points[c] != Answered(StoreFailure)))
  {
    ErrorRun(g, Initial(g), actions, c, false);
  }

  // ----- Exactly once -----

  predicate NoError<T>(a: Action<T>) {
    !(a.Get? && a.sight.Broken?) && ((a.SetNX? || a.Exists? || a.LockNX?) ==> a.ok)
  }

  /** When the store answers every request, and some request with the key has been answered, one call of
      `next` was made for it: requests cannot all turn each other away. */
  lemma ExactlyOnce<T>(g: Config<T>, actions: seq<Action<T>>, c: nat)
    requires forall a :: a in actions ==> Unexpiring(a) && NoError(a) && Atomic(a)
    requires c < |g.keyed| && g.keyed[c]
    ensures var r := Run(g, Initial(g), actions);
      r.Some? && |r.value.points| == |g.keyed| && (forall d: nat :: d < |g.keyed| ==> r.value.points[d].Answered?) ==>
        |KeyedRuns(g, r.value.runs)| == 1
  {
    var r := Run(g, Initial(g), actions);
    if r.Some? && |r.value.points| == |g.keyed| && (forall d: nat :: d < |g.keyed| ==> r.value.points[d].Answered?) {
      AtomicIsStaleFree(g, Initial(g), actions);
      WinnerRun(g, Initial(g), actions);
      assert forall a :: a in actions ==> NoBypass(g, a) && !Fails(a, c);
      OpenRun(g, Initial(g), actions);
      ErrorsDecide(g, actions, c);
      assert r.value.points[c].Answered? && AnsweredOpenly(g, r.value, r.value.points[c].answer);
    }
  }

  // ----- Where it fails -----

  lemma RunOne<T>(g: Config<T>, s: State<T>, a: Action<T>)
    ensures Run(g, s, [a]) == Step(g, s, a)
  {
    assert [a][1..] == [];
  }

  lemma {:induction false} RunConcat<T>(g: Config<T>, s: State<T>, first: seq<Action<T>>, next: seq<Action<T>>)
    requires Run(g, s, first).Some?
    ensures Run(g, s, first + next) == Run(g, Run(g, s, first).value, next)
    decreases |first|
  {
    if first == [] {
      assert first + next == next;
    } else {
      assert (first + next)[1..] == first[1..] + next;
      RunConcat(g, Step(g, s, first[0]).value, first[1..], next);
    }
  }

  lemma RunSnoc<T>(g: Config<T>, s: State<T>, actions: seq<Action<T>>, a: Action<T>)
    requires Run(g, s, actions).Some?
    ensures Run(g, s, actions + [a]) == Step(g, Run(g, s, actions).value, a)
  {
    RunConcat(g, s, actions, [a]);
    RunOne(g, Run(g, s, actions).value, a);
  }

  lemma Play<T>(g: Config<T>, actions: seq<Action<T>>, s: State<T>, a: Action<T>)
    returns (longer: seq<Action<T>>, s': State<T>)
    requires Run(g, Initial(g), actions) == Some(s) && Step(g, s, a).Some?
    requires forall b :: b in actions ==> Unexpiring(b)
    requires Unexpiring(a)
    ensures longer == actions + [a] && s' == Step(g, s, a).value && Run(g, Initial(g), longer) == Some(s')
    ensures forall b :: b in longer ==> Unexpiring(b)
  {
    RunSnoc(g, Initial(g), actions, a);
    longer, s' := actions + [a], Step(g, s, a).value;
  }

  /** The two requests are at `p` and `q`, and this is in the store and in the log. */
  predicate Race<T(==)>(g: Config<T>, s: State<T>, c: nat, d: nat, p: Point<T>, q: Point<T>, lock: Option<nat>,
      runs: seq<nat>) {
    && c < |g.keyed| == |s.points| && d < |g.keyed| && c != d && g.keyed[c] && g.keyed[d]
    && s.points[c] == p && s.points[d] == q && s.lock == lock && s.runs == runs
  }

  lemma BothMeetErrors<T>(g: Config<T>, c: nat, d: nat) returns (actions: seq<Action<T>>, s: State<T>)
    requires g.skipOnError && c < |g.keyed| && d < |g.keyed| && c != d && g.keyed[c] && g.keyed[d]
    ensures Run(g, Initial(g), actions) == Some(s) && forall a :: a in actions ==> Unexpiring(a) && Atomic(a)
    ensures Race(g, s, c, d, Direct, Direct, None, [])
  {
    actions, s := Play(g, [], Initial(g), Get(c, Broken));
    actions, s := Play(g, actions, s, Get(d, Broken));
  }

  /** With errors skipped, two requests that both meet a store error both run, at once if need be. */
  lemma SkippedErrorsRunTwice<T>(g: Config<T>, c: nat, d: nat) returns (actions: seq<Action<T>>)
    requires g.skipOnError && c < |g.keyed| && d < |g.keyed| && c != d && g.keyed[c] && g.keyed[d]
    ensures forall a :: a in actions ==> Unexpiring(a) && Atomic(a)
    ensures var r := Run(g, Initial(g), actions); r.Some? && KeyedRuns(g, r.value.runs) == [c, d]
  {
    var s;
    actions, s := BothMeetErrors(g, c, d);
    actions, s := Play(g, actions, s, Enter(c));
    actions, s := Play(g, actions, s, Enter(d));
    KeyedRunsOfTwo(g, c, d);
  }

  lemma KeyedRunsOfTwo<T>(g: Config<T>, c: nat, d: nat)
    requires c < |g.keyed| && d < |g.keyed| && g.keyed[c] && g.keyed[d]
    ensures KeyedRuns(g, [c] + [d]) == [c, d]
  {
    KeyedRunsSnoc(g, [], c);
    assert [] + [c] == [c];
    KeyedRunsSnoc(g, [c], d);
  }

  ghost predicate AlwaysAtMostOnce<T(!new)>(g: Config<T>) {
    forall actions: seq<Action<T>> :: (forall a :: a in actions ==> Unexpiring(a) && Atomic(a)) ==>
      Run(g, Initial(g), actions).Some? ==> |KeyedRuns(g, Run(g, Initial(g), actions).value.runs)| <= 1
  }

  /** The promise holds exactly if store errors are not skipped, or no two requests share the key. */
  lemma AtMostOnceIff<T(!new)>(g: Config<T>)
    ensures AlwaysAtMostOnce(g) <==> !g.skipOnError || SingleKey(g)
  {
    if !g.skipOnError || SingleKey(g) {
      forall actions: seq<Action<T>> | forall a :: a in actions ==> Unexpiring(a) && Atomic(a)
        ensures Run(g, Initial(g), actions).Some? ==> |KeyedRuns(g, Run(g, Initial(g), actions).value.runs)| <= 1
      {
        if SingleKey(g) {
          AloneAtMostOnce(g, actions);
        } else {
          AtMostOnce(g, actions);
        }
      }
    } else {
      var c, d :| 0 <= c < |g.keyed| && 0 <= d < |g.keyed| && g.keyed[c] && g.keyed[d] && c != d;
      var actions := SkippedErrorsRunTwice(g, c, d);
    }
  }

  /** Both requests have found no result; then `c` goes through the whole middleware, and `d` gets its lock. */
  lemma RaceBegins<T>(g: Config<T>, c: nat, d: nat) returns (actions: seq<Action<T>>, s: State<T>)
    requires c < |g.keyed| && d < |g.keyed| && c != d && g.keyed[c] && g.keyed[d]
    ensures Run(g, Initial(g), actions) == Some(s) && forall a :: a in actions ==> Unexpiring(a) && NoError(a)
    ensures Race(g, s, c, d, Checked, Checked, None, [])
  {
    actions, s := Play(g, [], Initial(g), Get(c, Clear));
    actions, s := Play(g, actions, s, Get(d, Clear));
    actions, s := Play(g, actions, s, Exists(c, true));
    actions, s := Play(g, actions, s, Exists(d, true));
  }

  lemma RaceRuns<T>(g: Config<T>, actions: seq<Action<T>>, s: State<T>, c: nat, d: nat)
    returns (longer: seq<Action<T>>, s': State<T>)
    requires Run(g, Initial(g), actions) == Some(s) && forall a :: a in actions ==> Unexpiring(a) && NoError(a)
    requires Race(g, s, c, d, Checked, Checked, None, [])
    ensures Run(g, Initial(g), longer) == Some(s') && forall a :: a in longer ==> Unexpiring(a) && NoError(a)
    ensures Race(g, s', c, d, Saving(Fail("")), Checked, Some(c), [c])
  {
    longer, s' := Play(g, actions, s, LockNX(c, true));
    longer, s' := Play(g, longer, s', Enter(c));
    longer, s' := Play(g, longer, s', Return(c, Fail("")));
  }

  lemma RaceEnds<T>(g: Config<T>, actions: seq<Action<T>>, s: State<T>, c: nat, d: nat)
    returns (longer: seq<Action<T>>, s': State<T>)
    requires Run(g, Initial(g), actions) == Some(s) && forall a :: a in actions ==> Unexpiring(a) && NoError(a)
    requires Race(g, s, c, d, Saving(Fail("")), Checked, Some(c), [c])
    ensures Run(g, Initial(g), longer) == Some(s') && forall a :: a in longer ==> Unexpiring(a) && NoError(a)
    ensures Race(g, s', c, d, Answered(Live(Fail(""))), Checked, None, [c])
  {
    longer, s' := Play(g, actions, s, Save(c, true));
    longer, s' := Play(g, longer, s', Release(c, true));
  }

  /** With the store's `SetNX` in its two halves, and nothing expiring or failing, `next` can run twice. */
  lemma HalvedSetNXRunsTwice<T>(g: Config<T>, c: nat, d: nat) returns (actions: seq<Action<T>>)
    requires c < |g.keyed| && d < |g.keyed| && c != d && g.keyed[c] && g.keyed[d]
    ensures forall a :: a in actions ==> Unexpiring(a) && NoError(a)
    ensures var r := Run(g, Initial(g), actions); r.Some? && KeyedRuns(g, r.value.runs) == [c, d]
  {
    var s;
    actions, s := RaceBegins(g, c, d);
    actions, s := RaceRuns(g, actions, s, c, d);
    actions, s := RaceEnds(g, actions, s, c, d);
    actions, s := Play(g, actions, s, LockNX(d, true));
    actions, s := Play(g, actions, s, Enter(d));
    KeyedRunsOfTwo(g, c, d);
  }

  /** At the granularity of single key-value calls, in every run in which nothing fails or expires. */
  ghost predicate HalvedAtMostOnce<T(!new)>(g: Config<T>) {
    forall actions: seq<Action<T>> :: (forall a :: a in actions ==> Unexpiring(a) && NoError(a)) ==>
      Run(g, Initial(g), actions).Some? ==> |KeyedRuns(g, Run(g, Initial(g), actions).value.runs)| <= 1
  }

  /** Even then the promise holds only where it is not needed: for a key that a single request carries. */
  lemma HalvedAtMostOnceIff<T(!new)>(g: Config<T>)
    ensures HalvedAtMostOnce(g) <==> SingleKey(g)
  {
    if SingleKey(g) {
      forall actions: seq<Action<T>> | forall a :: a in actions ==> Unexpiring(a) && NoError(a)
        ensures Run(g, Initial(g), actions).Some? ==> |KeyedRuns(g, Run(g, Initial(g), actions).value.runs)| <= 1
      {
        AloneAtMostOnce(g, actions);
      }
    } else {
      var c, d :| 0 <= c < |g.keyed| && 0 <= d < |g.keyed| && g.keyed[c] && g.keyed[d] && c != d;
      var actions := HalvedSetNXRunsTwice(g, c, d);
    }
  }
}
