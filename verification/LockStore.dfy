/** The distributed lock of `storage/lock/redis.go` over the cache cell of `storage/cache/memory.go`, and why
    an undisturbed `TryLock` or `Unlock` is a run of the scheduler protocol's steps.  Times are integers. */
module LockStore {
  import opened Options
  import P = SchedulerProtocol

  /** A cached value; without a deadline it never expires. */
  datatype Item = Item(value: string, deadline: Option<int>) {
    predicate Expired(now: int) {
      deadline.Some? && now > deadline.value
    }
  }

  predicate Live(data: map<string, Item>, key: string, now: int) {
    key in data && !data[key].Expired(now)
  }

  function NewItem(value: string, ttl: int, now: int): Item {
    Item(value, if ttl > 0 then Some(now + ttl) else None)
  }

  class MemoryCache {
    var data: map<string, Item>

    constructor ()
      ensures data == map[]
    {
      data := map[];
    }

    method SetNX(key: string, value: string, ttl: int, now: int) returns (ok: bool)
      modifies this
      ensures ok <==> !Live(old(data), key, now)
      ensures data == if ok then old(data)[key := NewItem(value, ttl, now)] else old(data)
    {
      if key in data && !data[key].Expired(now) {
        return false;
      }
      var deadline := None;
      if ttl > 0 {
        deadline := Some(now + ttl);
      }
      data := data[key := Item(value, deadline)];
      ok := true;
    }

    /** Deletes the value if it is the caller's, expired or not. */
    method Unlock(key: string, value: string) returns (ok: bool)
      modifies this
      ensures ok <==> key in old(data) && old(data)[key].value == value
      ensures data == if ok then old(data) - {key} else old(data)
    {
      if key !in data {
        return false;
      }
      if data[key].value != value {
        return false;
      }
      data := data - {key};
      ok := true;
    }
  }

  class RedisLock {
    const cache: MemoryCache
    const prefix: string
    const owner: string
    var held: set<string>

    constructor (cache: MemoryCache, prefix: string, owner: string)
      ensures this.cache == cache && this.prefix == prefix && this.owner == owner && held == {}
    {
      this.cache, this.prefix, this.owner, held := cache, prefix, owner, {};
    }

    ghost function Contents(): View
      reads this, cache
    {
      View(cache.data, prefix, owner, held)
    }

    /** `fails` says that the call to the cache comes back with an error. */
    method TryLock(key: string, ttl: int, now: int, fails: bool) returns (ok: bool, failed: bool)
      modifies this, cache
      ensures failed == fails && (ok <==> !fails && !Live(old(cache.data), prefix + key, now))
      ensures Contents() == if ok then old(Contents()).Taken(key, ttl, now) else old(Contents())
    {
      if fails {
        return false, true;
      }
      ok := cache.SetNX(prefix + key, owner, ttl, now);
      failed := false;
      if ok {
        held := held + {key};
      }
    }

    /** `ErrLockNotHeld` says that the mark or the lock itself is missing; after another error the mark stays. */
    method Unlock(key: string, fails: bool) returns (r: Answer)
      modifies this, cache
      ensures r == (if key !in old(held) then NotHeld else if fails then Failed
                    else if old(Contents()).Owns(key) then Released else NotHeld)
      ensures Contents() == if key in old(held) && !fails then old(Contents()).Returned(key) else old(Contents())
    {
      if key !in held {
        return NotHeld;
      }
      if fails {
        return Failed;
      }
      var ok := cache.Unlock(prefix + key, owner);
      if !ok {
        held := held - {key};
        return NotHeld;
      }
      held := held - {key};
      r := Released;
    }
  }

  datatype Answer = Released | NotHeld | Failed

  /** The shared cache as one lock instance sees it. */
  datatype View = View(data: map<string, Item>, prefix: string, owner: string, held: set<string>) {
    predicate Owns(key: string) {
      prefix + key in data && data[prefix + key].value == owner
    }

    function Taken(key: string, ttl: int, now: int): View {
      this.(data := data[prefix + key := NewItem(owner, ttl, now)], held := held + {key})
    }

    function Returned(key: string): View {
      this.(data := if Owns(key) then data - {prefix + key} else data, held := held - {key})
    }
  }

  // ----- Round trips -----

  /** Taking a free lock and giving it back leaves nothing; in between nobody else gets it while it lasts. */
  lemma TakeAndReturn(v: View, key: string, ttl: int, now: int)
    ensures v.Taken(key, ttl, now).Owns(key)
    ensures v.Taken(key, ttl, now).Returned(key) == v.(data := v.data - {v.prefix + key}, held := v.held - {key})
    ensures forall later :: now <= later ==>
      (Live(v.Taken(key, ttl, now).data, v.prefix + key, later) <==> ttl <= 0 || later <= now + ttl)
  {
    var k := v.prefix + key;
    assert v.data[k := NewItem(v.owner, ttl, now)] - {k} == v.data - {k};
  }

  // ----- The methods as protocol steps -----

  /** The view says of instance `i` at time `now` what the protocol state says. */
  ghost predicate Reflects(v: View, g: P.Config, s: P.State, i: nat, now: int) {
    && P.ValidConfig(g) && |s.points| == |g.calls| && i < |g.instances| && g.instances[i].owner == v.owner
    && (forall n :: n in s.store <==> Live(v.data, v.prefix + n, now))
    && (forall n :: n in s.store ==> s.store[n].owner == v.data[v.prefix + n].value)
    && (forall n :: (i, n) in s.held <==> n in v.held)
  }

  /** Only call `c` moves; locks of others may run out. */
  ghost predicate OnlyCall(actions: seq<P.Action>, c: nat) {
    forall i :: 0 <= i < |actions| ==> actions[i].Expire? || actions[i].c == c
  }

  lemma PrefixApart(prefix: string, key: string)
    ensures forall n: string :: prefix + n == prefix + key ==> n == key
  {
    forall n: string | prefix + n == prefix + key ensures n == key {
      assert (prefix + n)[|prefix|..] == n && (prefix + key)[|prefix|..] == key;
    }
  }

  lemma TryLockIsItsSteps(v: View, g: P.Config, s: P.State, c: nat, ttl: int, now: int, fails: bool)
    returns (actions: seq<P.Action>, s': P.State)
    requires P.ValidConfig(g) && c < |g.calls| && Reflects(v, g, s, g.calls[c].instance, now)
    requires P.At(g, s, c, P.WantLock)
    ensures var key := P.JobOf(g, c).name;
      var ok := !fails && !Live(v.data, v.prefix + key, now);
      && P.Run(g, s, actions) == Some(s') && OnlyCall(actions, c)
      && s'.points == s.points[c := if ok then P.Hooks else P.Finishing] && s'.running == s.running
      && Reflects(if ok then v.Taken(key, ttl, now) else v, g, s', g.calls[c].instance, now)
  {
    PrefixApart(v.prefix, P.JobOf(g, c).name);
    P.RunOne(g, s, P.TryLock(c, !fails));
    actions, s' := [P.TryLock(c, !fails)], P.Step(g, s, P.TryLock(c, !fails)).value;
    if !fails && P.JobOf(g, c).name !in s.store {
      P.RunSnoc(g, s, actions, P.SetHeld(c));
      actions, s' := actions + [P.SetHeld(c)], P.Step(g, s', P.SetHeld(c)).value;
      assert s'.points == s.points[c := P.Hooks];
    }
  }

  lemma UnlockIsItsSteps(v: View, g: P.Config, s: P.State, c: nat, now: int, fails: bool)
    returns (actions: seq<P.Action>, s': P.State)
    requires P.ValidConfig(g) && c < |g.calls| && Reflects(v, g, s, g.calls[c].instance, now)
    requires P.At(g, s, c, P.Leaving)
    ensures var key := P.JobOf(g, c).name;
      && P.Run(g, s, actions) == Some(s') && OnlyCall(actions, c)
      && s'.points == s.points[c := P.Finishing] && s'.running == s.running
      && Reflects(if key in v.held && !fails then v.Returned(key) else v, g, s', g.calls[c].instance, now)
  {
    P.RunOne(g, s, P.CheckHeld(c));
    actions, s' := [P.CheckHeld(c)], P.Step(g, s, P.CheckHeld(c)).value;
    if P.JobOf(g, c).name in v.held {
      var more, t;
      if fails {
        P.RunOne(g, s', P.StoreUnlock(c, false));
        more, t := [P.StoreUnlock(c, false)], P.Step(g, s', P.StoreUnlock(c, false)).value;
      } else {
        more, t := ReturnSteps(v, g, s', c, now);
      }
      P.RunConcat(g, s, actions, more);
      actions, s' := actions + more, t;
      assert s'.points == s.points[c := P.Finishing];
    }
  }

  lemma ReturnSteps(v: View, g: P.Config, s: P.State, c: nat, now: int) returns (actions: seq<P.Action>, s': P.State)
    requires P.ValidConfig(g) && c < |g.calls| && Reflects(v, g, s, g.calls[c].instance, now)
    requires P.At(g, s, c, P.Unlocking)
    ensures P.Run(g, s, actions) == Some(s') && OnlyCall(actions, c)
    ensures s'.points == s.points[c := P.Finishing] && s'.running == s.running
    ensures Reflects(v.Returned(P.JobOf(g, c).name), g, s', g.calls[c].instance, now)
  {
    PrefixApart(v.prefix, P.JobOf(g, c).name);
    P.RunOne(g, s, P.StoreUnlock(c, true));
    actions, s' := [P.StoreUnlock(c, true)], P.Step(g, s, P.StoreUnlock(c, true)).value;
    P.RunSnoc(g, s, actions, P.ClearHeld(c));
    actions, s' := actions + [P.ClearHeld(c)], P.Step(g, s', P.ClearHeld(c)).value;
    assert s'.points == s.points[c := P.Finishing];
  }

  /** Waiting is a run in which the locks whose time is over expire. */
  lemma TimePasses(v: View, g: P.Config, s: P.State, i: nat, now: int, later: int)
    returns (actions: seq<P.Action>, s': P.State)
    requires Reflects(v, g, s, i, now) && now <= later
    ensures P.Run(g, s, actions) == Some(s') && (forall j :: 0 <= j < |actions| ==> actions[j].Expire?)
    ensures Reflects(v, g, s', i, later) && s' == s.(store := s'.store)
  {
    var lapsed := set n | n in s.store && !Live(v.data, v.prefix + n, later);
    actions, s' := Lapse(g, s, lapsed);
  }

  lemma {:induction false} Lapse(g: P.Config, s: P.State, lapsed: set<string>)
      returns (actions: seq<P.Action>, s': P.State)
    requires P.ValidConfig(g)
    ensures P.Run(g, s, actions) == Some(s') && (forall j :: 0 <= j < |actions| ==> actions[j].Expire?)
    ensures s' == s.(store := s.store - lapsed)
    decreases |lapsed|
  {
    if lapsed == {} {
      actions, s' := [], s;
      assert s.store - lapsed == s.store;
    } else {
      var n :| n in lapsed;
      actions, s' := Lapse(g, s, lapsed - {n});
      P.RunSnoc(g, s, actions, P.Expire(n));
      actions, s' := actions + [P.Expire(n)], P.Step(g, s', P.Expire(n)).value;
      assert s.store - (lapsed - {n}) - {n} == s.store - lapsed;
    }
  }
}
