/** `FixedWindow` of `middleware/ratelimit/ratelimit.go`.  Times are integers (nanoseconds) and calls come in time
    order; limits, window lengths and requests may have any sign, as in the source. */
module FixedWindows {
  datatype Window = Window(count: int, start: int)
  datatype Request = Request(time: int, n: int)

  function Positive(n: int): nat {
    if n > 0 then n else 0
  }

  /** A new window starts when the current one is over. */
  function Roll(window: int, w: Window, now: int): Window {
    if now - w.start >= window then Window(0, now) else w
  }

  predicate Admits(limit: int, window: int, w: Window, r: Request) {
    Roll(window, w, r.time).count + r.n <= limit
  }

  function Serve(limit: int, window: int, w: Window, r: Request): Window {
    var w' := Roll(window, w, r.time);
    if Admits(limit, window, w, r) then w'.(count := w'.count + r.n) else w'
  }

  class FixedWindow {
    const limit: int
    const window: int
    var count: int
    var windowStart: int

    ghost function State(): Window
      reads this
    {
      Window(count, windowStart)
    }

    constructor (limit: int, window: int, now: int)
      ensures this.limit == limit && this.window == window && State() == Window(0, now)
    {
      this.limit, this.window, count, windowStart := limit, window, 0, now;
    }

    method AllowN(now: int, n: int) returns (ok: bool)
      modifies this
      ensures ok == Admits(limit, window, old(State()), Request(now, n))
      ensures State() == Serve(limit, window, old(State()), Request(now, n))
    {
      if now - windowStart >= window {
        windowStart := now;
        count := 0;
      }
      if count + n <= limit {
        count := count + n;
        return true;
      }
      ok := false;
    }
  }

  // ----- Runs -----

  /** Calls come in time order, not before `clock`. */
  ghost predicate Ordered(clock: int, rs: seq<Request>)
    decreases |rs|
  {
    rs == [] || (clock <= rs[0].time && Ordered(rs[0].time, rs[1..]))
  }

  ghost predicate NonNegative(rs: seq<Request>) {
    forall r :: r in rs ==> r.n >= 0
  }

  /** The units a call hands out if it falls into the closed interval. */
  function Grant(limit: int, window: int, w: Window, r: Request, t1: int, t2: int): nat {
    if Admits(limit, window, w, r) && t1 <= r.time <= t2 then Positive(r.n) else 0
  }

  /** Units handed out in the closed interval by a whole run. */
  function HandedOut(limit: int, window: int, w: Window, rs: seq<Request>, t1: int, t2: int): nat
    decreases |rs|
  {
    if rs == [] then 0
    else
      Grant(limit, window, w, rs[0], t1, t2)
      + HandedOut(limit, window, Serve(limit, window, w, rs[0]), rs[1..], t1, t2)
  }

  /** The count is within the limit and the window has begun. */
  predicate InRange(limit: int, w: Window, clock: int) {
    0 <= w.count <= Positive(limit) && w.start <= clock
  }

  lemma ServeInRange(limit: int, window: int, w: Window, clock: int, r: Request)
    requires InRange(limit, w, clock) && clock <= r.time && r.n >= 0
    ensures InRange(limit, Serve(limit, window, w, r), r.time)
  {
  }

  lemma {:induction false} NothingLater(limit: int, window: int, w: Window, clock: int, rs: seq<Request>,
      t1: int, t2: int)
    requires Ordered(clock, rs) && t2 < clock
    ensures HandedOut(limit, window, w, rs, t1, t2) == 0
    decreases |rs|
  {
    if rs != [] {
      NothingLater(limit, window, Serve(limit, window, w, rs[0]), rs[0].time, rs[1..], t1, t2);
    }
  }

  /** Until the current window ends, no more is handed out than its count leaves of the limit. */
  lemma {:induction false} OneWindow(limit: int, window: int, w: Window, clock: int, rs: seq<Request>,
      t1: int, t2: int)
    requires window > 0 && NonNegative(rs) && Ordered(clock, rs) && InRange(limit, w, clock)
    requires t2 < w.start + window
    ensures HandedOut(limit, window, w, rs, t1, t2) <= Positive(limit) - w.count
    decreases |rs|
  {
    if rs != [] {
      var r := rs[0];
      assert r in rs;
      if r.time > t2 {
        NothingLater(limit, window, Serve(limit, window, w, r), r.time, rs[1..], t1, t2);
      } else {
        ServeInRange(limit, window, w, clock, r);
        OneWindow(limit, window, Serve(limit, window, w, r), r.time, rs[1..], t1, t2);
      }
    }
  }

  /** Until the window after the current one must have ended, there is one more limit to hand out. */
  lemma {:induction false} TwoWindows(limit: int, window: int, w: Window, clock: int, rs: seq<Request>,
      t1: int, t2: int)
    requires window > 0 && NonNegative(rs) && Ordered(clock, rs) && InRange(limit, w, clock)
    requires t2 < w.start + 2 * window
    ensures HandedOut(limit, window, w, rs, t1, t2) <= 2 * Positive(limit) - w.count
    decreases |rs|
  {
    if rs != [] {
      var r := rs[0];
      assert r in rs;
      var w' := Serve(limit, window, w, r);
      ServeInRange(limit, window, w, clock, r);
      if r.time > t2 {
        NothingLater(limit, window, w', r.time, rs[1..], t1, t2);
      } else if r.time - w.start >= window {
        OneWindow(limit, window, w', r.time, rs[1..], t1, t2);
      } else {
        TwoWindows(limit, window, w', r.time, rs[1..], t1, t2);
      }
    }
  }

  /** A closed interval as long as the window meets at most two windows that hand out anything: in every run without
      negative requests it holds at most twice the limit. */
  lemma {:induction false} NeverMoreThanTwiceLimit(limit: int, window: int, w: Window, clock: int, rs: seq<Request>,
      t: int)
    requires window > 0 && NonNegative(rs) && Ordered(clock, rs) && InRange(limit, w, clock)
    ensures HandedOut(limit, window, w, rs, t, t + window) <= 2 * Positive(limit)
    decreases |rs|
  {
    if t < w.start + window {
      TwoWindows(limit, window, w, clock, rs, t, t + window);
    } else if rs != [] {
      var r := rs[0];
      assert r in rs;
      var w' := Serve(limit, window, w, r);
      ServeInRange(limit, window, w, clock, r);
      if r.time < t {
        NeverMoreThanTwiceLimit(limit, window, w', r.time, rs[1..], t);
      } else {
        TwoWindows(limit, window, w', r.time, rs[1..], t, t + window);
      }
    }
  }

  // ----- Exactly which calls are admitted -----

  /** The window and the count after the first `i` calls. */
  function After(limit: int, window: int, w: Window, rs: seq<Request>, i: nat): Window
    requires i <= |rs|
  {
    if i == 0 then w else Serve(limit, window, After(limit, window, w, rs, i - 1), rs[i - 1])
  }

  function Answer(limit: int, window: int, w: Window, rs: seq<Request>, i: nat): bool
    requires i < |rs|
  {
    Admits(limit, window, After(limit, window, w, rs, i), rs[i])
  }

  /** The net units granted by calls `j` to `i - 1` of `rs`, when `a` says which were granted. */
  function Granted(rs: seq<Request>, a: seq<bool>, j: nat, i: nat): int
    requires i <= |rs| == |a|
  {
    if i <= j then 0 else Granted(rs, a, j, i - 1) + if a[i - 1] then rs[i - 1].n else 0
  }

  /** The call that opened the window in which call `i` falls, or -1 for the window that began at `start`. */
  function Opener(rs: seq<Request>, start: int, window: int, i: nat): (o: int)
    requires i < |rs|
    ensures -1 <= o <= i
  {
    var before := if i == 0 then -1 else Opener(rs, start, window, i - 1);
    if rs[i].time - OpenedAt(rs, start, before) >= window then i else before
  }

  function OpenedAt(rs: seq<Request>, start: int, o: int): int
    requires -1 <= o < |rs|
  {
    if o == -1 then start else rs[o].time
  }

  /** Every call falls into a window that opened less than a window's length before it, by a call that came no
      earlier than the end of the window before; from there on, up to the call, it is the window of every call. */
  lemma {:induction false} OpenerIs(rs: seq<Request>, start: int, window: int, i: nat)
    requires i < |rs|
    ensures var o := Opener(rs, start, window, i);
      && (o < i || window > 0 ==> rs[i].time - OpenedAt(rs, start, o) < window)
      && (forall k :: 0 <= k <= i && o <= k ==> Opener(rs, start, window, k) == o)
      && (o >= 0 ==>
          var before := if o == 0 then -1 else Opener(rs, start, window, o - 1);
          rs[o].time - OpenedAt(rs, start, before) >= window)
  {
    if i > 0 {
      OpenerIs(rs, start, window, i - 1);
    }
  }

  /** The units granted in its window before call `i` leave room for it. */
  predicate Justified(limit: int, window: int, w: Window, rs: seq<Request>, a: seq<bool>, i: nat)
    requires i < |rs| == |a|
  {
    var o := Opener(rs, w.start, window, i);
    (if o == -1 then w.count + Granted(rs, a, 0, i) else Granted(rs, a, o, i)) + rs[i].n <= limit
  }

  /** Call `i` decides on the units granted in its window. */
  lemma {:induction false} DecidesOnItsWindow(limit: int, window: int, w: Window, rs: seq<Request>, a: seq<bool>,
                                              i: nat)
    requires i < |rs| == |a| && forall k :: 0 <= k < i ==> a[k] == Answer(limit, window, w, rs, k)
    ensures var o := Opener(rs, w.start, window, i);
      Roll(window, After(limit, window, w, rs, i), rs[i].time) ==
        Window(if o == -1 then w.count + Granted(rs, a, 0, i) else Granted(rs, a, o, i), OpenedAt(rs, w.start, o))
  {
    if i > 0 {
      DecidesOnItsWindow(limit, window, w, rs, a, i - 1);
    }
  }

  /** A call is admitted exactly when the units granted in its window leave room for it: no other answers will do,
      whatever the limit, the window, its count and the requests. */
  lemma AdmittedExactly(limit: int, window: int, w: Window, rs: seq<Request>, a: seq<bool>)
    requires |a| == |rs|
    ensures (forall i :: 0 <= i < |rs| ==> a[i] == Answer(limit, window, w, rs, i)) <==>
      forall i :: 0 <= i < |rs| ==> (a[i] <==> Justified(limit, window, w, rs, a, i))
  {
    if forall i :: 0 <= i < |rs| ==> a[i] == Answer(limit, window, w, rs, i) {
      forall i | 0 <= i < |rs| ensures a[i] <==> Justified(limit, window, w, rs, a, i) {
        DecidesOnItsWindow(limit, window, w, rs, a, i);
      }
    }
    if forall i :: 0 <= i < |rs| ==> (a[i] <==> Justified(limit, window, w, rs, a, i)) {
      OneJustification(limit, window, w, rs, a, |rs|);
    }
  }

  lemma {:induction false} OneJustification(limit: int, window: int, w: Window, rs: seq<Request>, a: seq<bool>, m: nat)
    requires m <= |rs| == |a|
    requires forall i :: 0 <= i < |rs| ==> (a[i] <==> Justified(limit, window, w, rs, a, i))
    ensures forall i :: 0 <= i < m ==> a[i] == Answer(limit, window, w, rs, i)
  {
    if m > 0 {
      OneJustification(limit, window, w, rs, a, m - 1);
      DecidesOnItsWindow(limit, window, w, rs, a, m - 1);
    }
  }

  // ----- Exactly when the bound holds -----

  lemma HandedOutCons(limit: int, window: int, w: Window, r: Request, rest: seq<Request>, t1: int, t2: int)
    ensures HandedOut(limit, window, w, [r] + rest, t1, t2) ==
      Grant(limit, window, w, r, t1, t2) + HandedOut(limit, window, Serve(limit, window, w, r), rest, t1, t2)
  {
    assert ([r] + rest)[1..] == rest;
  }

  lemma OrderedCons(clock: int, r: Request, rest: seq<Request>)
    ensures Ordered(clock, [r] + rest) <==> clock <= r.time && Ordered(r.time, rest)
  {
    assert ([r] + rest)[1..] == rest;
  }

  /** The bound is reached: a full limit just before a boundary and another right after it. */
  lemma BoundaryBurst(limit: int, window: int, start: int)
    requires window > 0
    ensures var n, t := Positive(limit), start + window - 1;
      var rs := [Request(t, n)] + ([Request(t + 1, n)] + []);
      && NonNegative(rs) && Ordered(start, rs)
      && HandedOut(limit, window, Window(0, start), rs, t, t + window) == 2 * n
  {
    var n, t := Positive(limit), start + window - 1;
    var r, r', w := Request(t, n), Request(t + 1, n), Window(0, start);
    var w' := Serve(limit, window, w, r);
    OrderedCons(t, r', []);
    OrderedCons(start, r, [r'] + []);
    HandedOutCons(limit, window, w', r', [], t, t + window);
    HandedOutCons(limit, window, w, r, [r'] + [], t, t + window);
  }

  /** Whatever the limit, one negative request breaks the bound of a window that lasts: it makes room that the next
      request takes at the same instant. */
  lemma NegativeRequestMakesRoom(limit: int, window: int, t: int)
    requires window > 0
    ensures var rs := [Request(t, limit - 2 * Positive(limit) - 1)] + ([Request(t, 2 * Positive(limit) + 1)] + []);
      Ordered(t, rs) && HandedOut(limit, window, Window(0, t), rs, t, t + window) == 2 * Positive(limit) + 1
  {
    var take := 2 * Positive(limit) + 1;
    var give, ask, w := Request(t, limit - take), Request(t, take), Window(0, t);
    OrderedCons(t, ask, []);
    OrderedCons(t, give, [ask] + []);
    HandedOutCons(limit, window, Serve(limit, window, w, give), ask, [], t, t + window);
    HandedOutCons(limit, window, w, give, [ask] + [], t, t + window);
  }

  /** Without a window's length every call starts a new window, so three calls at one instant hand out three limits. */
  lemma NoWindowNoLimit(limit: nat, window: int, t: int)
    requires window <= 0
    ensures var r := Request(t, limit); var rs := [r] + ([r] + ([r] + []));
      NonNegative(rs) && Ordered(t, rs) && HandedOut(limit, window, Window(0, t), rs, t, t) == 3 * limit
  {
    var r, w, w' := Request(t, limit), Window(0, t), Window(limit, t);
    OrderedCons(t, r, []);
    OrderedCons(t, r, [r] + []);
    OrderedCons(t, r, [r] + ([r] + []));
    HandedOutCons(limit, window, w', r, [], t, t);
    HandedOutCons(limit, window, w', r, [r] + [], t, t);
    HandedOutCons(limit, window, w, r, [r] + ([r] + []), t, t);
  }

  /** Without a window's length and without a limit above zero nothing is ever handed out. */
  lemma {:induction false} NoLimitNothing(limit: int, window: int, w: Window, clock: int, rs: seq<Request>,
      t1: int, t2: int)
    requires window <= 0 && limit <= 0 && Ordered(clock, rs) && w.start <= clock
    ensures HandedOut(limit, window, w, rs, t1, t2) == 0
    decreases |rs|
  {
    if rs != [] {
      NoLimitNothing(limit, window, Serve(limit, window, w, rs[0]), rs[0].time, rs[1..], t1, t2);
    }
  }

  /** From a new limiter, the closed interval at `t` that is as long as the window (an instant, if the window has no
      length) holds at most twice the limit. */
  predicate WithinTwiceLimit(limit: int, window: int, start: int, rs: seq<Request>, t: int) {
    HandedOut(limit, window, Window(0, start), rs, t, t + Positive(window)) <= 2 * Positive(limit)
  }

  /** So does every such interval of every run.  `negatives` says whether requests may be negative. */
  ghost predicate TwiceLimitBounds(limit: int, window: int, negatives: bool) {
    forall start, rs, t :: Ordered(start, rs) && (negatives || NonNegative(rs)) ==>
      WithinTwiceLimit(limit, window, start, rs, t)
  }

  /** The bound holds exactly if no request is negative, for windows that last; and exactly if the limit lets
      nothing through, for those that do not. */
  lemma TwiceLimitIff(limit: int, window: int, negatives: bool)
    ensures TwiceLimitBounds(limit, window, negatives) <==> if window > 0 then !negatives else limit <= 0
  {
    if window > 0 && negatives {
      NegativeRequestMakesRoom(limit, window, 0);
      var rs := [Request(0, limit - 2 * Positive(limit) - 1)] + ([Request(0, 2 * Positive(limit) + 1)] + []);
      assert !WithinTwiceLimit(limit, window, 0, rs, 0);
    } else if window <= 0 && limit > 0 {
      NoWindowNoLimit(limit, window, 0);
      var r := Request(0, limit);
      assert !WithinTwiceLimit(limit, window, 0, [r] + ([r] + ([r] + [])), 0);
    } else {
      forall start, rs, t | Ordered(start, rs) && (negatives || NonNegative(rs))
        ensures WithinTwiceLimit(limit, window, start, rs, t)
      {
        if window > 0 {
          NeverMoreThanTwiceLimit(limit, window, Window(0, start), start, rs, t);
        } else {
          NoLimitNothing(limit, window, Window(0, start), start, rs, t, t + Positive(window));
        }
      }
    }
  }
}
