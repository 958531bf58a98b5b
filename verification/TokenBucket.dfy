/** `TokenBucket` of `middleware/ratelimit/ratelimit.go`.  Time is in seconds and, like the token count,
    a real number; calls come in time order. */
module TokenBuckets {
  datatype Config = Config(rate: real, capacity: real)
  datatype Bucket = Bucket(tokens: real, lastUpdate: real)
  datatype Request = Request(time: real, n: int)

  /** What the constructor is meant to be called with. */
  predicate Sensible(c: Config) {
    c.rate >= 0.0 && c.capacity >= 0.0
  }

  /** The tokens generated in `dt` seconds. */
  function Supply(c: Config, dt: real): real {
    dt * c.rate
  }

  function Refill(c: Config, b: Bucket, now: real): Bucket {
    var t := b.tokens + Supply(c, now - b.lastUpdate);
    Bucket(if t > c.capacity then c.capacity else t, now)
  }

  predicate Admits(c: Config, b: Bucket, r: Request) {
    Refill(c, b, r.time).tokens >= r.n as real
  }

  function Serve(c: Config, b: Bucket, r: Request): Bucket {
    var b' := Refill(c, b, r.time);
    if Admits(c, b, r) then b'.(tokens := b'.tokens - r.n as real) else b'
  }

  class TokenBucket {
    const config: Config
    var tokens: real
    var lastUpdate: real

    ghost function State(): Bucket
      reads this
    {
      Bucket(tokens, lastUpdate)
    }

    constructor (rate: real, capacity: real, now: real)
      ensures config == Config(rate, capacity) && State() == Bucket(capacity, now)
    {
      config, tokens, lastUpdate := Config(rate, capacity), capacity, now;
    }

    method AllowN(now: real, n: int) returns (ok: bool)
      modifies this
      ensures ok == Admits(config, old(State()), Request(now, n))
      ensures State() == Serve(config, old(State()), Request(now, n))
    {
      var elapsed := now - lastUpdate;
      tokens := tokens + Supply(config, elapsed);
      if tokens > config.capacity {
        tokens := config.capacity;
      }
      lastUpdate := now;
      if tokens >= n as real {
        tokens := tokens - n as real;
        return true;
      }
      ok := false;
    }
  }

  // ----- Runs -----

  /** Calls come in time order, after the bucket's last update.  What they ask for may be negative. */
  ghost predicate Ordered(b: Bucket, rs: seq<Request>)
    decreases |rs|
  {
    rs == [] || (b.lastUpdate <= rs[0].time && Ordered(Bucket(b.tokens, rs[0].time), rs[1..]))
  }

  ghost predicate InRange(c: Config, b: Bucket) {
    0.0 <= b.tokens <= c.capacity
  }

  function Answers(c: Config, b: Bucket, rs: seq<Request>): (a: seq<bool>)
    ensures |a| == |rs|
    decreases |rs|
  {
    if rs == [] then [] else [Admits(c, b, rs[0])] + Answers(c, Serve(c, b, rs[0]), rs[1..])
  }

  /** Units admitted by calls made between `t1` and `t2`; an admitted negative request takes units back. */
  function Admitted(c: Config, b: Bucket, rs: seq<Request>, t1: real, t2: real): int
    decreases |rs|
  {
    if rs == [] then 0
    else
      (if Admits(c, b, rs[0]) && t1 <= rs[0].time <= t2 then rs[0].n else 0)
      + Admitted(c, Serve(c, b, rs[0]), rs[1..], t1, t2)
  }

  lemma SupplyIsNonNegative(c: Config, dt: real)
    requires Sensible(c) && dt >= 0.0
    ensures Supply(c, dt) >= 0.0
  {
  }

  /** The rate is what one second supplies, and supplies add up. */
  lemma SupplyAdds(c: Config, t: real, u: real, v: real)
    ensures Supply(c, v - t) == Supply(c, u - t) + Supply(c, v - u) && Supply(c, 1.0) == c.rate
  {
  }

  /** A decision is made on a token count in range, whatever was granted before; the count after it is never
      negative, and in range if the request asked for something. */
  lemma ServeInRange(c: Config, b: Bucket, r: Request)
    requires Sensible(c) && b.tokens >= 0.0 && b.lastUpdate <= r.time
    ensures InRange(c, Refill(c, b, r.time)) && Serve(c, b, r).tokens >= 0.0
    ensures r.n >= 0 ==> InRange(c, Serve(c, b, r))
  {
    SupplyIsNonNegative(c, r.time - b.lastUpdate);
  }

  /** The order of the rest of a run does not depend on the token count. */
  lemma OrderedRest(c: Config, b: Bucket, rs: seq<Request>)
    requires rs != [] && Ordered(b, rs)
    ensures Ordered(Serve(c, b, rs[0]), rs[1..])
  {
    OrderedAnyTokens(Bucket(b.tokens, rs[0].time), Serve(c, b, rs[0]), rs[1..]);
  }

  lemma {:induction false} OrderedAnyTokens(b: Bucket, b': Bucket, rs: seq<Request>)
    requires b.lastUpdate == b'.lastUpdate && Ordered(b, rs)
    ensures Ordered(b', rs)
    decreases |rs|
  {
    if rs != [] {
      OrderedAnyTokens(Bucket(b.tokens, rs[0].time), Bucket(b'.tokens, rs[0].time), rs[1..]);
    }
  }

  /** From inside the interval on, the tokens at hand and those still to come pay for everything. */
  lemma {:induction false} AdmittedFromInside(c: Config, b: Bucket, rs: seq<Request>, t1: real, t2: real)
    requires Sensible(c) && b.tokens >= 0.0 && Ordered(b, rs) && t1 <= b.lastUpdate
    ensures Admitted(c, b, rs, t1, t2) as real <=
              if b.lastUpdate <= t2 then b.tokens + Supply(c, t2 - b.lastUpdate) else 0.0
    decreases |rs|
  {
    if rs == [] {
      if b.lastUpdate <= t2 {
        SupplyIsNonNegative(c, t2 - b.lastUpdate);
      }
    } else {
      var r := rs[0];
      OrderedRest(c, b, rs);
      ServeInRange(c, b, r);
      AdmittedFromInside(c, Serve(c, b, r), rs[1..], t1, t2);
      if r.time <= t2 {
        SupplyAdds(c, b.lastUpdate, r.time, t2);
      } else if b.lastUpdate <= t2 {
        SupplyIsNonNegative(c, t2 - b.lastUpdate);
      }
    }
  }

  /** In every run, the units admitted in any interval, net of those taken back, are at most the capacity plus
      what the rate supplies during the interval. */
  lemma {:induction false} AdmittedInInterval(c: Config, b: Bucket, rs: seq<Request>, t1: real, t2: real)
    requires Sensible(c) && b.tokens >= 0.0 && Ordered(b, rs) && t1 <= t2
    ensures Admitted(c, b, rs, t1, t2) as real <= c.capacity + Supply(c, t2 - t1)
    decreases |rs|
  {
    SupplyIsNonNegative(c, t2 - t1);
    if rs != [] {
      var r := rs[0];
      OrderedRest(c, b, rs);
      ServeInRange(c, b, r);
      if r.time < t1 {
        AdmittedInInterval(c, Serve(c, b, r), rs[1..], t1, t2);
      } else {
        AdmittedFromInside(c, Serve(c, b, r), rs[1..], t1, t2);
        if r.time <= t2 {
          SupplyIsNonNegative(c, r.time - t1);
          SupplyAdds(c, t1, r.time, t2);
        }
      }
    }
  }

  /** Every decision is made on a token count in `[0, capacity]`; without negative requests the count never
      leaves that range at all. */
  lemma {:induction false} TokensStayInRange(c: Config, b: Bucket, rs: seq<Request>, now: real)
    requires Sensible(c) && b.tokens >= 0.0 && Ordered(b, rs) && After(c, b, rs).lastUpdate <= now
    ensures After(c, b, rs).tokens >= 0.0 && InRange(c, Refill(c, After(c, b, rs), now))
    ensures InRange(c, b) && (forall r :: r in rs ==> r.n >= 0) ==> InRange(c, After(c, b, rs))
    decreases |rs|
  {
    if rs == [] {
      SupplyIsNonNegative(c, now - b.lastUpdate);
    } else {
      OrderedRest(c, b, rs);
      ServeInRange(c, b, rs[0]);
      TokensStayInRange(c, Serve(c, b, rs[0]), rs[1..], now);
      assert rs[0] in rs;
    }
  }

  function After(c: Config, b: Bucket, rs: seq<Request>): Bucket
    decreases |rs|
  {
    if rs == [] then b else After(c, Serve(c, b, rs[0]), rs[1..])
  }

  /** Two refills make one. */
  lemma RefillTwice(c: Config, b: Bucket, t: real, u: real)
    requires Sensible(c) && b.lastUpdate <= t <= u
    ensures Refill(c, Refill(c, b, t), u) == Refill(c, b, u)
  {
    SupplyIsNonNegative(c, u - t);
    SupplyAdds(c, b.lastUpdate, t, u);
  }

  lemma RefillIsInvisible(c: Config, b: Bucket, t: real, rs: seq<Request>)
    requires Sensible(c) && b.lastUpdate <= t && Ordered(Bucket(b.tokens, t), rs)
    ensures Answers(c, Refill(c, b, t), rs) == Answers(c, b, rs)
  {
    if rs != [] {
      RefillTwice(c, b, t, rs[0].time);
    }
  }

  lemma AnswersCons(c: Config, b: Bucket, r: Request, rest: seq<Request>)
    ensures Answers(c, b, [r] + rest) == [Admits(c, b, r)] + Answers(c, Serve(c, b, r), rest)
  {
    assert ([r] + rest)[1..] == rest;
  }

  lemma DropAfterHead<T>(s: seq<T>, i: nat)
    requires 0 < i < |s|
    ensures s[..i] + s[i + 1..] == [s[0]] + (s[1..][..i - 1] + s[1..][i..])
  {
  }

  /** Leaving a denied call out of a run changes no other answer. */
  lemma {:induction false} DeniedCallsLeaveNoTrace(c: Config, b: Bucket, rs: seq<Request>, i: nat)
    requires Sensible(c) && Ordered(b, rs) && i < |rs| && !Answers(c, b, rs)[i]
    ensures Answers(c, b, rs[..i] + rs[i + 1..]) == Answers(c, b, rs)[..i] + Answers(c, b, rs)[i + 1..]
    decreases i
  {
    var a := Answers(c, b, rs);
    assert [rs[0]] + rs[1..] == rs;
    AnswersCons(c, b, rs[0], rs[1..]);
    if i == 0 {
      RefillIsInvisible(c, b, rs[0].time, rs[1..]);
      assert rs[..0] + rs[1..] == rs[1..] && a[..0] + a[1..] == a[1..];
    } else {
      OrderedRest(c, b, rs);
      DeniedCallsLeaveNoTrace(c, Serve(c, b, rs[0]), rs[1..], i - 1);
      DropAfterHead(rs, i);
      DropAfterHead(a, i);
      AnswersCons(c, b, rs[0], rs[1..][..i - 1] + rs[1..][i..]);
    }
  }

  /** The waiting time `WaitN` computes is enough, if nobody else calls, exactly for requests that fit
      into the bucket at all. */
  lemma ComputedWaitIsEnough(c: Config, b: Bucket, n: int, wait: real)
    requires Sensible(c) && c.rate > 0.0 && InRange(c, b) && b.tokens < n as real
    requires wait >= (n as real - b.tokens) / c.rate
    ensures Admits(c, b, Request(b.lastUpdate + wait, n)) <==> n as real <= c.capacity
  {
    var needed := n as real - b.tokens;
    assert needed / c.rate * c.rate == needed;
    assert wait * c.rate >= needed / c.rate * c.rate;
  }

  // ----- Exactly which calls are admitted -----

  /** The net units granted by calls `j` to `i - 1` of `rs`, when `a` says which were granted. */
  function Granted(rs: seq<Request>, a: seq<bool>, j: nat, i: nat): int
    requires i <= |rs| == |a|
  {
    if i <= j then 0 else Granted(rs, a, j, i - 1) + if a[i - 1] then rs[i - 1].n else 0
  }

  lemma {:induction false} GrantedRest(rs: seq<Request>, a: seq<bool>, j: nat, i: nat)
    requires i < |rs| == |a|
    ensures Granted(rs[1..], a[1..], j, i) == Granted(rs, a, j + 1, i + 1)
  {
    if i > j {
      GrantedRest(rs, a, j, i - 1);
    }
  }

  lemma {:induction false} GrantedFromHead(rs: seq<Request>, a: seq<bool>, i: nat)
    requires 1 <= i <= |rs| == |a|
    ensures Granted(rs, a, 0, i) == (if a[0] then rs[0].n else 0) + Granted(rs, a, 1, i)
  {
    if i > 1 {
      GrantedFromHead(rs, a, i - 1);
    }
  }

  lemma {:induction false} GrantedSame(rs: seq<Request>, a: seq<bool>, a': seq<bool>, j: nat, i: nat)
    requires i <= |rs| == |a| == |a'| && forall k :: 0 <= k < i ==> a[k] == a'[k]
    ensures Granted(rs, a, j, i) == Granted(rs, a', j, i)
  {
    if i > j {
      GrantedSame(rs, a, a', j, i - 1);
    }
  }

  /** What is granted from call `j` on, and call `i` on top, fits into a full bucket and what flows in between them. */
  predicate Fits(c: Config, rs: seq<Request>, a: seq<bool>, j: nat, i: nat)
    requires j <= i < |rs| == |a|
  {
    (Granted(rs, a, j, i) + rs[i].n) as real <= c.capacity + Supply(c, rs[i].time - rs[j].time)
  }

  /** The bucket at the start and what flows in since then pay for all that is granted and for call `i`. */
  predicate StartPays(c: Config, b: Bucket, rs: seq<Request>, a: seq<bool>, i: nat)
    requires i < |rs| == |a|
  {
    (Granted(rs, a, 0, i) + rs[i].n) as real <= b.tokens + Supply(c, rs[i].time - b.lastUpdate)
  }

  /** Call `i` fits, counting from every call up to itself, and counting from the bucket at the start. */
  ghost predicate Justified(c: Config, b: Bucket, rs: seq<Request>, a: seq<bool>, i: nat)
    requires i < |rs| == |a|
  {
    StartPays(c, b, rs, a, i) && forall j :: 0 <= j <= i ==> Fits(c, rs, a, j, i)
  }

  lemma FitsRest(c: Config, rs: seq<Request>, a: seq<bool>, j: nat, i: nat)
    requires j <= i && i + 1 < |rs| == |a|
    ensures Fits(c, rs[1..], a[1..], j, i) <==> Fits(c, rs, a, j + 1, i + 1)
  {
    GrantedRest(rs, a, j, i);
  }

  /** The tokens that one call leaves, refilled and bounded, pay for `due` exactly when a full bucket pays for it
      together with what the call took, and when the bucket before the call does. */
  lemma OneCallAhead(c: Config, b: Bucket, r: Request, due: real, later: real)
    ensures var spent := if Admits(c, b, r) then r.n as real else 0.0;
      due <= Serve(c, b, r).tokens + Supply(c, later - r.time) <==>
        && spent + due <= c.capacity + Supply(c, later - r.time)
        && spent + due <= b.tokens + Supply(c, later - b.lastUpdate)
  {
    SupplyAdds(c, b.lastUpdate, r.time, later);
  }

  lemma HeadJustifies(c: Config, b: Bucket, rs: seq<Request>, a: seq<bool>, i: nat)
    requires i + 1 < |rs| == |a| && a[0] == Admits(c, b, rs[0])
    ensures Justified(c, Serve(c, b, rs[0]), rs[1..], a[1..], i) <==> Justified(c, b, rs, a, i + 1)
  {
    GrantedFromHead(rs, a, i + 1);
    GrantedRest(rs, a, 0, i);
    OneCallAhead(c, b, rs[0], (Granted(rs, a, 1, i + 1) + rs[i + 1].n) as real, rs[i + 1].time);
    assert StartPays(c, Serve(c, b, rs[0]), rs[1..], a[1..], i) <==>
      StartPays(c, b, rs, a, i + 1) && Fits(c, rs, a, 0, i + 1);
    var n := i + 1;
    if Justified(c, Serve(c, b, rs[0]), rs[1..], a[1..], i) {
      forall j | 0 <= j <= n ensures Fits(c, rs, a, j, n) {
        if j > 0 {
          FitsRest(c, rs, a, j - 1, i);
        }
      }
    }
    if Justified(c, b, rs, a, n) {
      forall j | 0 <= j <= i ensures Fits(c, rs[1..], a[1..], j, i) {
        FitsRest(c, rs, a, j, i);
      }
    }
  }

  lemma {:induction false} AnswersAreJustified(c: Config, b: Bucket, rs: seq<Request>, i: nat)
    requires i < |rs|
    ensures Answers(c, b, rs)[i] <==> Justified(c, b, rs, Answers(c, b, rs), i)
    decreases i
  {
    var a := Answers(c, b, rs);
    if i == 0 {
      assert Supply(c, rs[0].time - rs[0].time) == 0.0;
      assert Fits(c, rs, a, 0, 0) <==> rs[0].n as real <= c.capacity;
    } else {
      assert a[1..] == Answers(c, Serve(c, b, rs[0]), rs[1..]);
      AnswersAreJustified(c, Serve(c, b, rs[0]), rs[1..], i - 1);
      HeadJustifies(c, b, rs, a, i - 1);
    }
  }

  /** A call is admitted exactly when it is justified by the calls granted before it: no other answers will do, for
      any configuration, any bucket and any requests, in time order or not. */
  lemma AdmittedExactly(c: Config, b: Bucket, rs: seq<Request>, a: seq<bool>)
    requires |a| == |rs|
    ensures a == Answers(c, b, rs) <==> forall i :: 0 <= i < |rs| ==> (a[i] <==> Justified(c, b, rs, a, i))
  {
    var a' := Answers(c, b, rs);
    if a == a' {
      forall i | 0 <= i < |rs| ensures a[i] <==> Justified(c, b, rs, a, i) {
        AnswersAreJustified(c, b, rs, i);
      }
    } else if forall i :: 0 <= i < |rs| ==> (a[i] <==> Justified(c, b, rs, a, i)) {
      OneJustification(c, b, rs, a, |rs|);
      assert false;
    }
  }

  lemma {:induction false} OneJustification(c: Config, b: Bucket, rs: seq<Request>, a: seq<bool>, m: nat)
    requires m <= |rs| == |a| && forall i :: 0 <= i < |rs| ==> (a[i] <==> Justified(c, b, rs, a, i))
    ensures forall i :: 0 <= i < m ==> a[i] == Answers(c, b, rs)[i]
  {
    if m > 0 {
      var i, a' := m - 1, Answers(c, b, rs);
      OneJustification(c, b, rs, a, i);
      AnswersAreJustified(c, b, rs, i);
      forall j: nat | j <= i ensures Granted(rs, a, j, i) == Granted(rs, a', j, i) {
        GrantedSame(rs, a, a', j, i);
      }
      assert StartPays(c, b, rs, a, i) == StartPays(c, b, rs, a', i);
      assert forall j: nat :: j <= i ==> Fits(c, rs, a, j, i) == Fits(c, rs, a', j, i);
    }
  }

  /** The same for a new bucket, where only the calls count: the interval bound of `AdmittedInInterval` is the only
      thing that ever refuses a call. */
  lemma NewBucketAdmitsExactly(c: Config, start: real, rs: seq<Request>, a: seq<bool>)
    requires Sensible(c) && |a| == |rs| && (rs != [] ==> start <= rs[0].time)
    ensures a == Answers(c, Bucket(c.capacity, start), rs) <==>
      forall i :: 0 <= i < |rs| ==> (a[i] <==> forall j :: 0 <= j <= i ==> Fits(c, rs, a, j, i))
  {
    var b := Bucket(c.capacity, start);
    AdmittedExactly(c, b, rs, a);
    forall i | 0 <= i < |rs| && Fits(c, rs, a, 0, i) ensures StartPays(c, b, rs, a, i) {
      StartPaysMore(c, start, rs, a, i);
    }
    assert forall i :: 0 <= i < |rs| ==>
      (Justified(c, b, rs, a, i) <==> forall j :: 0 <= j <= i ==> Fits(c, rs, a, j, i));
  }

  lemma StartPaysMore(c: Config, start: real, rs: seq<Request>, a: seq<bool>, i: nat)
    requires Sensible(c) && i < |rs| == |a| && start <= rs[0].time && Fits(c, rs, a, 0, i)
    ensures StartPays(c, Bucket(c.capacity, start), rs, a, i)
  {
    SupplyAdds(c, start, rs[0].time, rs[i].time);
    SupplyIsNonNegative(c, rs[0].time - start);
  }

  // ----- Units handed out, not netted -----

  /** Units handed out by calls made between `t1` and `t2`; what negative requests take back is not deducted. */
  function HandedOut(c: Config, b: Bucket, rs: seq<Request>, t1: real, t2: real): int
    decreases |rs|
  {
    if rs == [] then 0
    else
      (if Admits(c, b, rs[0]) && t1 <= rs[0].time <= t2 && rs[0].n > 0 then rs[0].n else 0)
      + HandedOut(c, Serve(c, b, rs[0]), rs[1..], t1, t2)
  }

  /** When nobody gives units back, both counts agree. */
  lemma {:induction false} HandedOutIsAdmitted(c: Config, b: Bucket, rs: seq<Request>, t1: real, t2: real)
    requires forall r :: r in rs ==> r.n >= 0
    ensures HandedOut(c, b, rs, t1, t2) == Admitted(c, b, rs, t1, t2)
    decreases |rs|
  {
    if rs != [] {
      assert rs[0] in rs;
      HandedOutIsAdmitted(c, Serve(c, b, rs[0]), rs[1..], t1, t2);
    }
  }

  /** A bucket that never holds a whole token hands out nothing. */
  lemma {:induction false} SmallBucketsHandOutNothing(c: Config, b: Bucket, rs: seq<Request>, t1: real, t2: real)
    requires c.capacity < 1.0
    ensures HandedOut(c, b, rs, t1, t2) == 0
    decreases |rs|
  {
    if rs != [] {
      SmallBucketsHandOutNothing(c, Serve(c, b, rs[0]), rs[1..], t1, t2);
    }
  }

  /** The bound on the units handed out, in every interval of every run from a new bucket. */
  ghost predicate HandsOutWithinBound(c: Config) {
    forall start: real, rs, t1: real, t2: real :: Ordered(Bucket(c.capacity, start), rs) && t1 <= t2 ==>
      HandedOut(c, Bucket(c.capacity, start), rs, t1, t2) as real <= c.capacity + Supply(c, t2 - t1)
  }

  /** Asking for all whole tokens, giving them back, and asking again. */
  function AskAgain(n: int, t: real): seq<Request> {
    [Request(t, n), Request(t, -n), Request(t, n)]
  }

  lemma HandedOutCons(c: Config, b: Bucket, r: Request, rest: seq<Request>, t1: real, t2: real)
    ensures HandedOut(c, b, [r] + rest, t1, t2) ==
      (if Admits(c, b, r) && t1 <= r.time <= t2 && r.n > 0 then r.n else 0)
      + HandedOut(c, Serve(c, b, r), rest, t1, t2)
  {
    assert ([r] + rest)[1..] == rest;
  }

  lemma OrderedCons(b: Bucket, r: Request, rest: seq<Request>)
    ensures Ordered(b, [r] + rest) <==> b.lastUpdate <= r.time && Ordered(Bucket(b.tokens, r.time), rest)
  {
    assert ([r] + rest)[1..] == rest;
  }

  lemma AskAgainHandsOutTwice(c: Config, n: int, t: real)
    requires Sensible(c) && 0 < n && n as real <= c.capacity
    ensures Ordered(Bucket(c.capacity, t), AskAgain(n, t))
    ensures HandedOut(c, Bucket(c.capacity, t), AskAgain(n, t), t, t) == 2 * n
  {
    var b, low, ask, give := Bucket(c.capacity, t), Bucket(c.capacity - n as real, t), Request(t, n), Request(t, -n);
    assert Supply(c, t - t) == 0.0;
    assert Serve(c, b, ask) == low && Serve(c, low, give) == b && Admits(c, b, ask) && Admits(c, low, give);
    assert AskAgain(n, t) == [ask] + ([give] + ([ask] + []));
    HandedOutCons(c, b, ask, [give] + ([ask] + []), t, t);
    HandedOutCons(c, low, give, [ask] + [], t, t);
    HandedOutCons(c, b, ask, [], t, t);
    OrderedCons(b, ask, []);
    OrderedCons(b, give, [ask] + []);
    OrderedCons(b, ask, [give] + ([ask] + []));
  }

  /** Since negative requests are accepted, the same bound on the units handed out holds exactly for buckets
      too small to hand out anything. */
  lemma HandsOutWithinBoundIff(c: Config)
    requires Sensible(c)
    ensures HandsOutWithinBound(c) <==> c.capacity < 1.0
  {
    if c.capacity < 1.0 {
      forall start: real, rs, t1: real, t2: real | Ordered(Bucket(c.capacity, start), rs) && t1 <= t2
        ensures HandedOut(c, Bucket(c.capacity, start), rs, t1, t2) as real <= c.capacity + Supply(c, t2 - t1)
      {
        SmallBucketsHandOutNothing(c, Bucket(c.capacity, start), rs, t1, t2);
        SupplyIsNonNegative(c, t2 - t1);
      }
    } else {
      var n := c.capacity.Floor;
      AskAgainHandsOutTwice(c, n, 0.0);
      assert Supply(c, 0.0 - 0.0) == 0.0;
      assert (2 * n) as real > c.capacity;
    }
  }
}
