/** `SlidingWindow` of `middleware/ratelimit/ratelimit.go`.  Times are integers (nanoseconds) and calls come in time
    order; window lengths and requests may have any sign. */
module SlidingWindows {
  function Positive(n: int): nat {
    if n > 0 then n else 0
  }

  /** How many of the times lie in the closed interval. */
  function CountIn(log: seq<int>, t1: int, t2: int): nat {
    if log == [] then 0 else CountIn(log[..|log| - 1], t1, t2) + if t1 <= log[|log| - 1] <= t2 then 1 else 0
  }

  function Repeat(x: int, n: nat): (s: seq<int>)
    ensures |s| == n && forall i :: 0 <= i < n ==> s[i] == x
  {
    if n == 0 then [] else Repeat(x, n - 1) + [x]
  }

  ghost predicate Ascending(log: seq<int>) {
    forall i, j :: 0 <= i < j < |log| ==> log[i] <= log[j]
  }

  /** Any `limit + 1` consecutive admissions span more than a window. */
  ghost predicate Spread(log: seq<int>, limit: nat, window: int) {
    forall i :: 0 <= i && i + limit < |log| ==> SpreadAt(log, limit, window, i)
  }

  predicate SpreadAt(log: seq<int>, limit: nat, window: int, i: int)
    requires 0 <= i && i + limit < |log|
  {
    log[i + limit] - log[i] > window
  }

  lemma {:induction false} CountZero(log: seq<int>, t1: int, t2: int)
    requires forall i :: 0 <= i < |log| ==> !(t1 <= log[i] <= t2)
    ensures CountIn(log, t1, t2) == 0
  {
    if log != [] {
      CountZero(log[..|log| - 1], t1, t2);
    }
  }

  lemma {:induction false} CountSplit(a: seq<int>, b: seq<int>, t1: int, t2: int)
    ensures CountIn(a + b, t1, t2) == CountIn(a, t1, t2) + CountIn(b, t1, t2)
  {
    if b == [] {
      assert a + b == a;
    } else {
      assert (a + b)[..|a + b| - 1] == a + b[..|b| - 1];
      CountSplit(a, b[..|b| - 1], t1, t2);
    }
  }

  lemma {:induction false} CountAll(log: seq<int>, t1: int, t2: int)
    requires forall i :: 0 <= i < |log| ==> t1 <= log[i] <= t2
    ensures CountIn(log, t1, t2) == |log|
  {
    if log != [] {
      CountAll(log[..|log| - 1], t1, t2);
    }
  }

  lemma {:induction false} CountAtMostLength(log: seq<int>, t1: int, t2: int)
    ensures CountIn(log, t1, t2) <= |log|
  {
    if log != [] {
      CountAtMostLength(log[..|log| - 1], t1, t2);
    }
  }

  lemma PrefixKeeps(log: seq<int>, limit: nat, window: int, n: nat)
    requires Ascending(log) && Spread(log, limit, window) && n <= |log|
    ensures Ascending(log[..n]) && Spread(log[..n], limit, window)
  {
    forall i | 0 <= i && i + limit < n ensures SpreadAt(log[..n], limit, window, i) {
      assert SpreadAt(log, limit, window, i);
    }
  }

  /** All but the last `limit` entries lie before an interval of the window's length that reaches the last one. */
  lemma EarlyEntries(log: seq<int>, limit: nat, window: int, t: int, i: nat)
    requires Ascending(log) && Spread(log, limit, window)
    requires i < |log| - limit && log[|log| - 1] <= t + window
    ensures log[i] < t
  {
    var k := |log| - limit - 1;
    assert SpreadAt(log, limit, window, k);
    assert i < k ==> log[i] <= log[k];
  }

  /** Only the last `limit` entries can be within a window's length of the last one. */
  lemma OnlyTheLastCount(log: seq<int>, limit: nat, window: int, t: int)
    requires Ascending(log) && Spread(log, limit, window)
    requires |log| > limit && log[|log| - 1] <= t + window
    ensures CountIn(log, t, t + window) <= limit
  {
    var early, late := log[..|log| - limit], log[|log| - limit..];
    forall i | 0 <= i < |early| ensures !(t <= early[i] <= t + window) {
      EarlyEntries(log, limit, window, t, i);
    }
    CountZero(early, t, t + window);
    CountAtMostLength(late, t, t + window);
    CountSplit(early, late, t, t + window);
    assert log == early + late;
  }

  /** A log that is spread out has at most `limit` entries in any closed interval of the window's length. */
  lemma {:induction false} SpreadBoundsEveryInterval(log: seq<int>, limit: nat, window: int, t: int)
    requires Ascending(log) && Spread(log, limit, window)
    ensures CountIn(log, t, t + window) <= limit
  {
    var n := |log| - 1;
    if |log| <= limit {
      CountAtMostLength(log, t, t + window);
    } else if log[n] > t + window {
      PrefixKeeps(log, limit, window, n);
      SpreadBoundsEveryInterval(log[..n], limit, window, t);
    } else {
      OnlyTheLastCount(log, limit, window, t);
    }
  }

  /** The last entries of the log are exactly those within a window before `clock`. */
  ghost predicate Recent(log: seq<int>, recent: seq<int>, window: int, clock: int) {
    && |recent| <= |log| && recent == log[|log| - |recent|..]
    && (forall i :: 0 <= i < |log| - |recent| ==> log[i] < clock - window)
    && (forall i :: 0 <= i < |recent| ==> clock - window <= recent[i] <= clock)
  }

  /** Dropping the expired prefix of ascending timestamps drops all that is expired. */
  lemma DropExpired(log: seq<int>, recent: seq<int>, window: int, clock: int, now: int, i: nat)
    requires Ascending(log) && Recent(log, recent, window, clock) && clock <= now && i <= |recent|
    requires forall j :: 0 <= j < i ==> recent[j] < now - window
    requires i < |recent| ==> recent[i] >= now - window
    ensures Recent(log, recent[i..], window, now)
  {
    var base := |log| - |recent|;
    assert recent[i..] == log[base + i..];
    forall j | 0 <= j < base + i ensures log[j] < now - window {
      if j >= base {
        assert log[j] == recent[j - base];
      }
    }
    forall j | 0 <= j < |recent[i..]| ensures now - window <= recent[i..][j] <= now {
      assert recent[i..][j] == recent[i + j] && recent[i + j] == log[base + i + j] && recent[i] == log[base + i];
    }
  }

  lemma RecentIsCounted(log: seq<int>, recent: seq<int>, window: int, now: int)
    requires Recent(log, recent, window, now)
    ensures CountIn(log, now - window, now) == |recent|
  {
    var before := log[..|log| - |recent|];
    assert log == before + recent;
    CountSplit(before, recent, now - window, now);
    CountZero(before, now - window, now);
    CountAll(recent, now - window, now);
  }

  /** Admitting `n` units now keeps the log spread out if they fit beside the recent ones. */
  lemma AdmitKeeps(log: seq<int>, recent: seq<int>, window: int, limit: nat, now: int, n: nat)
    requires Ascending(log) && Spread(log, limit, window) && Recent(log, recent, window, now) && window >= 0
    requires n > 0 ==> |recent| + n <= limit
    ensures Ascending(log + Repeat(now, n)) && Spread(log + Repeat(now, n), limit, window)
    ensures Recent(log + Repeat(now, n), recent + Repeat(now, n), window, now)
  {
    var log', base := log + Repeat(now, n), |log| - |recent|;
    forall i | 0 <= i < |log| ensures log[i] <= now {
      if i >= base {
        assert log[i] == recent[i - base];
      }
    }
    forall i | 0 <= i && i + limit < |log'| ensures SpreadAt(log', limit, window, i) {
      if i + limit < |log| {
        assert SpreadAt(log, limit, window, i);
      } else {
        assert i < base && log[i] < now - window;
      }
    }
    assert recent + Repeat(now, n) == log'[base..];
  }

  // ----- The limiter -----

  datatype Request = Request(time: int, n: int)

  /** What `cleanup` leaves: the expired prefix is gone. */
  function Kept(timestamps: seq<int>, cutoff: int): seq<int> {
    if timestamps != [] && timestamps[0] < cutoff then Kept(timestamps[1..], cutoff) else timestamps
  }

  predicate Admits(limit: int, window: int, timestamps: seq<int>, r: Request) {
    |Kept(timestamps, r.time - window)| + r.n <= limit
  }

  /** The units a call admits, one timestamp each. */
  function Units(limit: int, window: int, timestamps: seq<int>, r: Request): seq<int> {
    if Admits(limit, window, timestamps, r) then Repeat(r.time, Positive(r.n)) else []
  }

  function Serve(limit: int, window: int, timestamps: seq<int>, r: Request): seq<int> {
    Kept(timestamps, r.time - window) + Units(limit, window, timestamps, r)
  }

  lemma {:induction false} KeptFrom(timestamps: seq<int>, cutoff: int, i: nat)
    requires i <= |timestamps| && (forall j :: 0 <= j < i ==> timestamps[j] < cutoff)
    requires i < |timestamps| ==> timestamps[i] >= cutoff
    ensures Kept(timestamps, cutoff) == timestamps[i..]
  {
    if i > 0 {
      KeptFrom(timestamps[1..], cutoff, i - 1);
    }
  }

  lemma {:induction false} KeptIsSuffix(timestamps: seq<int>, cutoff: int) returns (i: nat)
    ensures i <= |timestamps| && (forall j :: 0 <= j < i ==> timestamps[j] < cutoff)
    ensures i < |timestamps| ==> timestamps[i] >= cutoff
    ensures Kept(timestamps, cutoff) == timestamps[i..]
  {
    if timestamps != [] && timestamps[0] < cutoff {
      var k := KeptIsSuffix(timestamps[1..], cutoff);
      i := k + 1;
      forall j | 0 <= j < i ensures timestamps[j] < cutoff {
        assert j > 0 ==> timestamps[j] == timestamps[1..][j - 1];
      }
    } else {
      i := 0;
    }
  }

  /** The stored timestamps are exactly the admissions of the window before `clock`, and the log of all admissions is
      spread out. */
  ghost predicate Tracks(limit: int, window: int, log: seq<int>, timestamps: seq<int>, clock: int) {
    window >= 0 && Ascending(log) && Spread(log, Positive(limit), window) && Recent(log, timestamps, window, clock)
  }

  /** After `cleanup` the timestamps are exactly the admissions of the window that ends now. */
  lemma KeptIsRecent(log: seq<int>, timestamps: seq<int>, window: int, clock: int, now: int)
    requires Ascending(log) && Recent(log, timestamps, window, clock) && clock <= now
    ensures Recent(log, Kept(timestamps, now - window), window, now)
    ensures CountIn(log, now - window, now) == |Kept(timestamps, now - window)|
  {
    var i := KeptIsSuffix(timestamps, now - window);
    DropExpired(log, timestamps, window, clock, now, i);
    RecentIsCounted(log, timestamps[i..], window, now);
  }

  /** A call decides on exactly the admissions of the window that ends with it. */
  lemma DecidesOnRecent(limit: int, window: int, log: seq<int>, timestamps: seq<int>, clock: int, r: Request)
    requires Tracks(limit, window, log, timestamps, clock) && clock <= r.time
    ensures Admits(limit, window, timestamps, r) <==> CountIn(log, r.time - window, r.time) + r.n <= limit
  {
    KeptIsRecent(log, timestamps, window, clock, r.time);
  }

  lemma KeptTracks(limit: int, window: int, log: seq<int>, timestamps: seq<int>, clock: int, now: int)
    requires Tracks(limit, window, log, timestamps, clock) && clock <= now
    ensures Tracks(limit, window, log, Kept(timestamps, now - window), now)
  {
    KeptIsRecent(log, timestamps, window, clock, now);
  }

  lemma UnitsTrack(limit: int, window: int, log: seq<int>, kept: seq<int>, now: int, n: nat)
    requires Tracks(limit, window, log, kept, now) && (n > 0 ==> |kept| + n <= limit)
    ensures Tracks(limit, window, log + Repeat(now, n), kept + Repeat(now, n), now)
  {
    AdmitKeeps(log, kept, window, Positive(limit), now, n);
  }

  /** Whatever it decides, a call keeps track of the admissions. */
  lemma ServeTracks(limit: int, window: int, log: seq<int>, timestamps: seq<int>, clock: int, r: Request)
    requires Tracks(limit, window, log, timestamps, clock) && clock <= r.time
    ensures var log', timestamps' := log + Units(limit, window, timestamps, r), Serve(limit, window, timestamps, r);
      Tracks(limit, window, log', timestamps', r.time)
  {
    var n := if Admits(limit, window, timestamps, r) then Positive(r.n) else 0;
    assert Units(limit, window, timestamps, r) == Repeat(r.time, n);
    KeptTracks(limit, window, log, timestamps, clock, r.time);
    UnitsTrack(limit, window, log, Kept(timestamps, r.time - window), r.time, n);
  }

  class SlidingWindow {
    const limit: int
    const window: int
    var timestamps: seq<int>
    /** Every admission so far, one entry per unit, and the time of the last call. */
    ghost var log: seq<int>
    ghost var clock: int

    ghost predicate Valid()
      reads this
    {
      Tracks(limit, window, log, timestamps, clock)
    }

    /** A negative limit would panic in `make`. */
    constructor (limit: int, window: int, now: int)
      requires limit >= 0
      ensures this.limit == limit && this.window == window && timestamps == [] && log == [] && clock == now
      ensures window >= 0 ==> Valid()
    {
      this.limit, this.window, timestamps, log, clock := limit, window, [], [], now;
    }

    method Cleanup(now: int)
      modifies this`timestamps
      ensures timestamps == Kept(old(timestamps), now - window)
    {
      var cutoff, i := now - window, 0;
      while i < |timestamps| && timestamps[i] < cutoff
        invariant 0 <= i <= |timestamps|
        invariant forall j :: 0 <= j < i ==> timestamps[j] < cutoff
      {
        i := i + 1;
      }
      KeptFrom(timestamps, cutoff, i);
      if i > 0 {
        timestamps := timestamps[i..];
      }
    }

    /** Admitted exactly when, with it, at most `limit` units fall into the window that ends now. */
    method AllowN(now: int, n: int) returns (ok: bool)
      modifies this
      ensures ok == Admits(limit, window, old(timestamps), Request(now, n))
      ensures timestamps == Serve(limit, window, old(timestamps), Request(now, n))
      ensures log == old(log) + (if ok then Repeat(now, Positive(n)) else []) && clock == now
      ensures old(Valid()) && old(clock) <= now ==>
        Valid() && (ok <==> CountIn(old(log), now - window, now) + n <= limit)
    {
      ghost var was := timestamps;
      if Valid() && clock <= now {
        DecidesOnRecent(limit, window, log, timestamps, clock, Request(now, n));
        ServeTracks(limit, window, log, timestamps, clock, Request(now, n));
      }
      Cleanup(now);
      log, clock := log + Units(limit, window, was, Request(now, n)), now;
      if |timestamps| + n <= limit {
        Append(now, n);
        return true;
      }
      ok := false;
    }

    /** The loop of `AllowN`. */
    method Append(now: int, n: int)
      modifies this`timestamps
      ensures timestamps == old(timestamps) + Repeat(now, Positive(n))
    {
      ghost var kept := timestamps;
      var i := 0;
      while i < n
        invariant 0 <= i <= Positive(n) && timestamps == kept + Repeat(now, i)
      {
        timestamps := timestamps + [now];
        i := i + 1;
      }
    }

    /** In every run, whatever the calls: no closed interval of the window's length holds more than `limit` units. */
    lemma NeverMoreThanLimit(t: int)
      requires Valid()
      ensures CountIn(log, t, t + window) <= Positive(limit)
    {
      SpreadBoundsEveryInterval(log, Positive(limit), window, t);
    }
  }

  // ----- Exactly which calls are admitted -----

  /** Calls come in time order, not before `clock`. */
  ghost predicate Ordered(clock: int, rs: seq<Request>)
    decreases |rs|
  {
    rs == [] || (clock <= rs[0].time && Ordered(rs[0].time, rs[1..]))
  }

  lemma {:induction false} OrderedUpTo(clock: int, rs: seq<Request>, i: nat)
    requires Ordered(clock, rs) && i < |rs|
    ensures clock <= rs[0].time <= rs[i].time
    decreases i
  {
    if i > 0 {
      OrderedUpTo(rs[0].time, rs[1..], i - 1);
    }
  }

  function Answers(limit: int, window: int, timestamps: seq<int>, rs: seq<Request>): (a: seq<bool>)
    ensures |a| == |rs|
    decreases |rs|
  {
    if rs == [] then []
    else
      [Admits(limit, window, timestamps, rs[0])]
      + Answers(limit, window, Serve(limit, window, timestamps, rs[0]), rs[1..])
  }

  /** The units granted by calls `j` to `i - 1` of `rs` at or after `cutoff`, when `a` says which were granted. */
  function Granted(rs: seq<Request>, a: seq<bool>, cutoff: int, j: nat, i: nat): nat
    requires i <= |rs| == |a|
  {
    if i <= j then 0
    else
      var r := rs[i - 1];
      Granted(rs, a, cutoff, j, i - 1) + if a[i - 1] && r.time >= cutoff && r.n > 0 then r.n else 0
  }

  lemma {:induction false} GrantedFromHead(rs: seq<Request>, a: seq<bool>, cutoff: int, i: nat)
    requires i < |rs| == |a|
    ensures Granted(rs, a, cutoff, 0, i + 1) ==
      (if a[0] && rs[0].time >= cutoff && rs[0].n > 0 then rs[0].n else 0) + Granted(rs[1..], a[1..], cutoff, 0, i)
  {
    if i > 0 {
      GrantedFromHead(rs, a, cutoff, i - 1);
    }
  }

  lemma {:induction false} GrantedSame(rs: seq<Request>, a: seq<bool>, a': seq<bool>, cutoff: int, i: nat)
    requires i <= |rs| == |a| == |a'| && forall k :: 0 <= k < i ==> a[k] == a'[k]
    ensures Granted(rs, a, cutoff, 0, i) == Granted(rs, a', cutoff, 0, i)
  {
    if i > 0 {
      GrantedSame(rs, a, a', cutoff, i - 1);
    }
  }

  /** What stored timestamps always are. */
  ghost predicate Stored(timestamps: seq<int>, clock: int) {
    Ascending(timestamps) && forall i :: 0 <= i < |timestamps| ==> timestamps[i] <= clock
  }

  /** `cleanup` leaves what counts from its cutoff on. */
  lemma KeptCount(timestamps: seq<int>, cutoff: int, t1: int, t2: int)
    requires Stored(timestamps, t2) && cutoff <= t1
    ensures CountIn(Kept(timestamps, cutoff), t1, t2) == CountIn(timestamps, t1, t2)
    ensures |Kept(timestamps, cutoff)| == CountIn(timestamps, cutoff, t2)
  {
    var i := KeptIsSuffix(timestamps, cutoff);
    var gone, kept := timestamps[..i], timestamps[i..];
    assert timestamps == gone + kept;
    CountSplit(gone, kept, t1, t2);
    CountSplit(gone, kept, cutoff, t2);
    CountZero(gone, t1, t2);
    CountZero(gone, cutoff, t2);
    CountAll(kept, cutoff, t2);
  }

  lemma KeptStored(timestamps: seq<int>, cutoff: int, clock: int)
    requires Stored(timestamps, clock)
    ensures Stored(Kept(timestamps, cutoff), clock)
  {
    var i := KeptIsSuffix(timestamps, cutoff);
    assert forall k :: 0 <= k < |timestamps| - i ==> timestamps[i..][k] == timestamps[i + k];
  }

  lemma RepeatCount(kept: seq<int>, now: int, n: nat, t1: int, t2: int)
    requires Stored(kept, now) && now <= t2
    ensures Stored(kept + Repeat(now, n), now)
    ensures CountIn(kept + Repeat(now, n), t1, t2) == CountIn(kept, t1, t2) + if now >= t1 then n else 0
  {
    CountSplit(kept, Repeat(now, n), t1, t2);
    if now >= t1 {
      CountAll(Repeat(now, n), t1, t2);
    } else {
      CountZero(Repeat(now, n), t1, t2);
    }
  }

  /** A call adds the units it grants to what counts, and nothing else. */
  lemma ServeCount(limit: int, window: int, timestamps: seq<int>, r: Request, t1: int, t2: int)
    requires Stored(timestamps, r.time) && r.time - window <= t1 && r.time <= t2
    ensures Stored(Serve(limit, window, timestamps, r), r.time)
    ensures CountIn(Serve(limit, window, timestamps, r), t1, t2) == CountIn(timestamps, t1, t2)
      + if Admits(limit, window, timestamps, r) && r.time >= t1 && r.n > 0 then r.n else 0
  {
    var cutoff, n := r.time - window, if Admits(limit, window, timestamps, r) then Positive(r.n) else 0;
    KeptCount(timestamps, cutoff, t1, t2);
    KeptStored(timestamps, cutoff, r.time);
    RepeatCount(Kept(timestamps, cutoff), r.time, n, t1, t2);
    assert Serve(limit, window, timestamps, r) == Kept(timestamps, cutoff) + Repeat(r.time, n);
  }

  /** With it, at most `limit` units count: those stored at the start and those granted since, each if it is not older
      than the window. */
  predicate Justified(limit: int, window: int, timestamps: seq<int>, rs: seq<Request>, a: seq<bool>, i: nat)
    requires i < |rs| == |a|
  {
    var t := rs[i].time;
    CountIn(timestamps, t - window, t) + Granted(rs, a, t - window, 0, i) + rs[i].n <= limit
  }

  lemma {:induction false} AnswersAreJustified(limit: int, window: int, timestamps: seq<int>, clock: int,
                                               rs: seq<Request>, i: nat)
    requires Stored(timestamps, clock) && Ordered(clock, rs) && i < |rs|
    ensures var a := Answers(limit, window, timestamps, rs);
      a[i] <==> Justified(limit, window, timestamps, rs, a, i)
    decreases i
  {
    var a, t := Answers(limit, window, timestamps, rs), rs[i].time;
    OrderedUpTo(clock, rs, i);
    if i == 0 {
      KeptCount(timestamps, t - window, t - window, t);
    } else {
      var ts := Serve(limit, window, timestamps, rs[0]);
      assert a[1..] == Answers(limit, window, ts, rs[1..]);
      ServeCount(limit, window, timestamps, rs[0], t - window, t);
      AnswersAreJustified(limit, window, ts, rs[0].time, rs[1..], i - 1);
      GrantedFromHead(rs, a, t - window, i - 1);
    }
  }

  /** A call is admitted exactly when it is justified by the calls granted before it: no other answers will do, for any
      limit and window, in every run of calls in time order. */
  lemma AdmittedExactly(limit: int, window: int, timestamps: seq<int>, clock: int, rs: seq<Request>, a: seq<bool>)
    requires Stored(timestamps, clock) && Ordered(clock, rs) && |a| == |rs|
    ensures a == Answers(limit, window, timestamps, rs) <==>
      forall i :: 0 <= i < |rs| ==> (a[i] <==> Justified(limit, window, timestamps, rs, a, i))
  {
    var a' := Answers(limit, window, timestamps, rs);
    forall i | 0 <= i < |rs| ensures a'[i] <==> Justified(limit, window, timestamps, rs, a', i) {
      AnswersAreJustified(limit, window, timestamps, clock, rs, i);
    }
    if forall i :: 0 <= i < |rs| ==> (a[i] <==> Justified(limit, window, timestamps, rs, a, i)) {
      OneJustification(limit, window, timestamps, rs, a, a', |rs|);
      assert a == a';
    }
  }

  lemma {:induction false} OneJustification(limit: int, window: int, timestamps: seq<int>, rs: seq<Request>,
                                            a: seq<bool>, a': seq<bool>, m: nat)
    requires m <= |rs| == |a| == |a'|
    requires forall i :: 0 <= i < |rs| ==> (a[i] <==> Justified(limit, window, timestamps, rs, a, i))
    requires forall i :: 0 <= i < |rs| ==> (a'[i] <==> Justified(limit, window, timestamps, rs, a', i))
    ensures forall i :: 0 <= i < m ==> a[i] == a'[i]
  {
    if m > 0 {
      OneJustification(limit, window, timestamps, rs, a, a', m - 1);
      JustifiedSame(limit, window, timestamps, rs, a, a', m - 1);
    }
  }

  lemma JustifiedSame(limit: int, window: int, timestamps: seq<int>, rs: seq<Request>, a: seq<bool>, a': seq<bool>,
                      i: nat)
    requires i < |rs| == |a| == |a'| && forall k :: 0 <= k < i ==> a[k] == a'[k]
    ensures Justified(limit, window, timestamps, rs, a, i) == Justified(limit, window, timestamps, rs, a', i)
  {
    GrantedSame(rs, a, a', rs[i].time - window, i);
  }

  /** From a new limiter: refused exactly when the units granted since the window began, and the units asked for, exceed
      the limit. */
  lemma NewLimiterAdmitsExactly(limit: int, window: int, start: int, rs: seq<Request>, a: seq<bool>)
    requires Ordered(start, rs) && |a| == |rs|
    ensures a == Answers(limit, window, [], rs) <==>
      forall i :: 0 <= i < |rs| ==> (a[i] <==> Granted(rs, a, rs[i].time - window, 0, i) + rs[i].n <= limit)
  {
    AdmittedExactly(limit, window, [], start, rs, a);
    assert forall i :: 0 <= i < |rs| ==>
      (Justified(limit, window, [], rs, a, i) <==> Granted(rs, a, rs[i].time - window, 0, i) + rs[i].n <= limit);
  }

  // ----- Exactly when the bound holds -----

  /** Everything a run admits. */
  function Admissions(limit: int, window: int, timestamps: seq<int>, rs: seq<Request>): seq<int>
    decreases |rs|
  {
    if rs == [] then []
    else
      Units(limit, window, timestamps, rs[0])
      + Admissions(limit, window, Serve(limit, window, timestamps, rs[0]), rs[1..])
  }

  lemma FirstAdmission(limit: int, window: int, timestamps: seq<int>, rs: seq<Request>, t1: int, t2: int)
    requires rs != [] && rs[0].time <= t2
    ensures CountIn(Admissions(limit, window, timestamps, rs), t1, t2) ==
      CountIn(Admissions(limit, window, Serve(limit, window, timestamps, rs[0]), rs[1..]), t1, t2)
      + if Admits(limit, window, timestamps, rs[0]) && rs[0].time >= t1 && rs[0].n > 0 then rs[0].n else 0
  {
    var r, units := rs[0], Units(limit, window, timestamps, rs[0]);
    var n := if Admits(limit, window, timestamps, r) then Positive(r.n) else 0;
    assert [] + Repeat(r.time, n) == units;
    RepeatCount([], r.time, n, t1, t2);
    CountSplit(units, Admissions(limit, window, Serve(limit, window, timestamps, r), rs[1..]), t1, t2);
  }

  /** They are the units of the calls that were granted, at the times of those calls. */
  lemma {:induction false} AdmissionsAreGranted(limit: int, window: int, timestamps: seq<int>, rs: seq<Request>,
                                                a: seq<bool>, t1: int, t2: int)
    requires a == Answers(limit, window, timestamps, rs) && forall i :: 0 <= i < |rs| ==> rs[i].time <= t2
    ensures CountIn(Admissions(limit, window, timestamps, rs), t1, t2) == Granted(rs, a, t1, 0, |rs|)
    decreases |rs|
  {
    if rs != [] {
      FirstAdmission(limit, window, timestamps, rs, t1, t2);
      AdmissionsAreGranted(limit, window, Serve(limit, window, timestamps, rs[0]), rs[1..], a[1..], t1, t2);
      GrantedFromHead(rs, a, t1, |rs| - 1);
    }
  }

  /** Before and after a run the log is tracked. */
  lemma {:induction false} RunTracks(limit: int, window: int, log: seq<int>, timestamps: seq<int>, clock: int,
      rs: seq<Request>) returns (timestamps': seq<int>, clock': int)
    requires Tracks(limit, window, log, timestamps, clock) && Ordered(clock, rs)
    ensures Tracks(limit, window, log + Admissions(limit, window, timestamps, rs), timestamps', clock')
    decreases |rs|
  {
    if rs == [] {
      timestamps', clock' := timestamps, clock;
      assert log + Admissions(limit, window, timestamps, rs) == log;
    } else {
      ServeTracks(limit, window, log, timestamps, clock, rs[0]);
      var units, ts := Units(limit, window, timestamps, rs[0]), Serve(limit, window, timestamps, rs[0]);
      timestamps', clock' := RunTracks(limit, window, log + units, ts, rs[0].time, rs[1..]);
      Regroup(log, units, Admissions(limit, window, ts, rs[1..]));
    }
  }

  lemma Regroup(a: seq<int>, b: seq<int>, c: seq<int>)
    ensures (a + b) + c == a + (b + c)
  {
  }

  lemma NewTracks(limit: int, window: int, start: int)
    requires window >= 0
    ensures Tracks(limit, window, [], [], start)
  {
  }

  lemma TracksBounds(limit: nat, window: int, log: seq<int>, timestamps: seq<int>, clock: int, t: int)
    requires Tracks(limit, window, log, timestamps, clock)
    ensures CountIn(log, t, t + window) <= limit
  {
    SpreadBoundsEveryInterval(log, limit, window, t);
  }

  /** In every run from here, every closed interval as long as the window holds at most `limit` admissions. */
  lemma RunWithinLimit(limit: nat, window: int, log: seq<int>, timestamps: seq<int>, clock: int, rs: seq<Request>,
      t: int)
    requires Tracks(limit, window, log, timestamps, clock) && Ordered(clock, rs)
    ensures CountIn(log + Admissions(limit, window, timestamps, rs), t, t + window) <= limit
  {
    var ts, end := RunTracks(limit, window, log, timestamps, clock, rs);
    TracksBounds(limit, window, log + Admissions(limit, window, timestamps, rs), ts, end, t);
  }

  lemma NothingBefore(s: seq<int>, before: seq<int>, t1: int, t2: int)
    requires before == []
    ensures CountIn(before + s, t1, t2) == CountIn(s, t1, t2)
  {
    assert before + s == s;
  }

  lemma NewWithinLimit(limit: nat, window: int, start: int, rs: seq<Request>, t: int)
    requires window >= 0 && Ordered(start, rs)
    ensures WithinLimit(limit, window, rs, t)
  {
    NewTracks(limit, window, start);
    RunWithinLimit(limit, window, [], [], start, rs, t);
    NothingBefore(Admissions(limit, window, [], rs), [], t, t + window);
  }

  /** With a limit of zero nothing is ever admitted. */
  lemma {:induction false} NoLimitNothing(window: int, timestamps: seq<int>, rs: seq<Request>)
    ensures Admissions(0, window, timestamps, rs) == []
    decreases |rs|
  {
    if rs != [] {
      NoLimitNothing(window, Serve(0, window, timestamps, rs[0]), rs[1..]);
    }
  }

  /** A negative window forgets every admission at the next call, so two calls at one instant admit two limits. */
  lemma NegativeWindowForgets(limit: nat, window: int, t: int)
    requires window < 0
    ensures var r := Request(t, limit); var rs := [r] + ([r] + []);
      Ordered(t, rs) && CountIn(Admissions(limit, window, [], rs), t, t) == 2 * limit
  {
    var r, first := Request(t, limit), Repeat(t, limit);
    assert ([r] + ([r] + []))[1..] == [r] + [] && ([r] + [])[1..] == [];
    KeptFrom(first, t - window, limit);
    assert [] + first == first && first[limit..] == [] && first + [] == first;
    assert Admissions(limit, window, first, [r] + []) == first;
    CountAll(first, t, t);
    CountSplit(first, first, t, t);
  }

  /** In every run from a new limiter, a closed interval as long as the window (an instant, if the length is negative)
      holds at most `limit` admissions. */
  ghost predicate LimitBounds(limit: nat, window: int) {
    forall start, rs, t :: Ordered(start, rs) ==> WithinLimit(limit, window, rs, t)
  }

  predicate WithinLimit(limit: nat, window: int, rs: seq<Request>, t: int) {
    CountIn(Admissions(limit, window, [], rs), t, t + Positive(window)) <= limit
  }

  /** For windows that are not negative, whatever the requests; for negative ones only if nothing is admitted. */
  lemma LimitIff(limit: nat, window: int)
    ensures LimitBounds(limit, window) <==> window >= 0 || limit == 0
  {
    if window < 0 && limit > 0 {
      NegativeWindowForgets(limit, window, 0);
      var r := Request(0, limit);
      assert !WithinLimit(limit, window, [r] + ([r] + []), 0);
    } else {
      forall start, rs, t | Ordered(start, rs) ensures WithinLimit(limit, window, rs, t) {
        if window >= 0 {
          NewWithinLimit(limit, window, start, rs, t);
        } else {
          NoLimitNothing(window, [], rs);
        }
      }
    }
  }
}
