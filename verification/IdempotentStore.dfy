/** The store of `middleware/idempotency/store.go` over a key-value map, and the middleware of
    `middleware/idempotency/endpoint.go` as the code that one request runs when nobody else moves.  Any
    key-value call may fail; times to live are left to the protocol. */
module IdempotentStores {
  import opened Idempotency
  import opened Options

  /** `Result` to and from JSON. */
  datatype Codec = Codec(encode: Saved -> string, decode: string -> Option<Saved>)

  /** What is encoded comes back; JSON is never the empty string. */
  ghost predicate Faithful(codec: Codec) {
    forall saved :: codec.decode(codec.encode(saved)) == Some(saved) && codec.encode(saved) != ""
  }

  function ResultKey(prefix: string, key: string): string {
    prefix + key
  }

  function LockKey(prefix: string, key: string): string {
    prefix + "lock:" + key
  }

  /** Which of the key-value calls of one request come back with an error; `check` is the one to `Exists`. */
  datatype Faults = Faults(get: bool, check: bool, lock: bool, write: bool, del: bool)

  /** What the store knows of a key.  An empty text counts as no result for `Get`, but as one for `SetNX`. */
  datatype Cell = Empty | Taken | Blank | Unreadable | Holds(saved: Saved)

  function CellOf(kv: map<string, string>, prefix: string, codec: Codec, key: string): Cell {
    var k := ResultKey(prefix, key);
    if k in kv then
      if kv[k] == "" then Blank
      else
        var saved := codec.decode(kv[k]);
        if saved.Some? then Holds(saved.value) else Unreadable
    else if LockKey(prefix, key) in kv then Taken
    else Empty
  }

  class IdempotentStore {
    const prefix: string
    const codec: Codec
    var kv: map<string, string>

    constructor (prefix: string, codec: Codec)
      ensures this.prefix == prefix && this.codec == codec && kv == map[]
    {
      this.prefix, this.codec, kv := prefix, codec, map[];
    }

    /** `ok` is false when the stored text cannot be decoded; a failing read counts as no result. */
    method Get(key: string, fails: bool) returns (ok: bool, result: Option<Saved>)
      ensures fails || prefix + key !in kv || kv[prefix + key] == "" ==> ok && result == None
      ensures !fails && prefix + key in kv && kv[prefix + key] != "" ==>
        result == codec.decode(kv[prefix + key]) && (ok <==> result.Some?)
      ensures match CellOf(kv, prefix, codec, key)
        case Unreadable => ok == fails && result == None
        case Holds(saved) => ok && result == if fails then None else Some(saved)
        case _ => ok && result == None
    {
      var fullKey := prefix + key;
      if fails || fullKey !in kv || kv[fullKey] == "" {
        return true, None;
      }
      result := codec.decode(kv[fullKey]);
      ok := result.Some?;
    }

    /** When the write fails the lock stays; when the deletion fails, which is ignored, it stays as well. */
    method Set(key: string, result: Saved, writeFails: bool, delFails: bool) returns (failed: bool)
      modifies this
      ensures failed == writeFails
      ensures kv == if writeFails then old(kv)
        else old(kv)[ResultKey(prefix, key) := codec.encode(result)] - if delFails then {} else {LockKey(prefix, key)}
    {
      var fullKey := prefix + key;
      var lockKey := prefix + "lock:" + key;
      if writeFails {
        return true;
      }
      kv := kv[fullKey := codec.encode(result)];
      if !delFails {
        kv := kv - {lockKey};
      }
      failed := false;
    }

    method SetNX(key: string, existsFails: bool, lockFails: bool) returns (locked: bool, failed: bool)
      modifies this
      ensures failed <==> existsFails || (lockFails && ResultKey(prefix, key) !in old(kv))
      ensures locked <==> !failed && ResultKey(prefix, key) !in old(kv) && LockKey(prefix, key) !in old(kv)
      ensures kv == if locked then old(kv)[LockKey(prefix, key) := "1"] else old(kv)
    {
      var fullKey := prefix + key;
      var lockKey := prefix + "lock:" + key;
      if existsFails {
        return false, true;
      }
      if fullKey in kv {
        return false, false;
      }
      if lockFails {
        return false, true;
      }
      if lockKey in kv {
        return false, false;
      }
      kv := kv[lockKey := "1"];
      locked, failed := true, false;
    }
  }

  /** What one request is told. */
  function Reaction<T>(cell: Cell, skipOnError: bool, key: string, f: Faults, reply: Reply<T>): Answer<T> {
    if key == "" then Live(reply)
    else if cell.Holds? && !f.get then Replay(cell.saved)
    else if Errs(cell, f) then if skipOnError then Live(reply) else StoreFailure
    else if cell.Empty? then Live(reply)
    else InProgress
  }

  /** Does the middleware see a store error before it calls `next`? */
  predicate Errs(cell: Cell, f: Faults) {
    || (cell.Unreadable? && !f.get)
    || f.check
    || (f.lock && (cell.Empty? || cell.Taken?))
  }

  function Written(kv: map<string, string>, prefix: string, codec: Codec, key: string,
      saved: Saved): map<string, string> {
    kv[ResultKey(prefix, key) := codec.encode(saved)] - {LockKey(prefix, key)}
  }

  /** The store after an admitted request: the result without the lock, or whatever a fault leaves of that. */
  function Stored(kv: map<string, string>, prefix: string, codec: Codec, key: string, saved: Saved,
      f: Faults): map<string, string> {
    var locked := kv[LockKey(prefix, key) := "1"];
    if f.write then locked
    else if f.del then locked[ResultKey(prefix, key) := codec.encode(saved)]
    else Written(kv, prefix, codec, key, saved)
  }

  class Endpoint<!T> {
    const store: IdempotentStore
    const skipOnError: bool
    const marshal: T -> string
    /** How often `next` was called. */
    var calls: nat

    constructor (store: IdempotentStore, skipOnError: bool, marshal: T -> string)
      ensures this.store == store && this.skipOnError == skipOnError && this.marshal == marshal && calls == 0
    {
      this.store, this.skipOnError, this.marshal, calls := store, skipOnError, marshal, 0;
    }

    method Next(reply: Reply<T>) returns (r: Reply<T>)
      modifies this
      ensures r == reply && calls == old(calls) + 1
    {
      calls := calls + 1;
      r := reply;
    }

    /** One request; `reply` is what `next` will say if it is called. */
    method Handle(key: string, reply: Reply<T>, f: Faults) returns (answer: Answer<T>)
      modifies this, store
      ensures var cell := CellOf(old(store.kv), store.prefix, store.codec, key);
        && answer == Reaction(cell, skipOnError, key, f, reply)
        && store.kv == if key != "" && cell.Empty? && !Errs(cell, f)
             then Stored(old(store.kv), store.prefix, store.codec, key, Record(marshal, reply), f) else old(store.kv)
      ensures calls == old(calls) + if answer.Live? then 1 else 0
    {
      if key == "" {
        var r := Next(reply);
        return Live(r);
      }
      var ok, result := store.Get(key, f.get);
      if !ok {
        if skipOnError {
          var r := Next(reply);
          return Live(r);
        }
        return StoreFailure;
      }
      if result.Some? {
        return Replay(result.value);
      }
      StoredBySet(store.kv, store.prefix, store.codec, key, Record(marshal, reply), f);
      var locked, failed := store.SetNX(key, f.check, f.lock);
      if failed {
        if skipOnError {
          var r := Next(reply);
          return Live(r);
        }
        return StoreFailure;
      }
      if !locked {
        return InProgress;
      }
      var r := Next(reply);
      var saved;
      match r {
        case Ok(response) => saved := Saved("", marshal(response));
        case Fail(text) => saved := Saved(text, "");
      }
      var notSaved := store.Set(key, saved, f.write, f.del);
      answer := Live(r);
    }
  }

  /** Taking the lock and then writing the result is what `Stored` says. */
  lemma StoredBySet(kv: map<string, string>, prefix: string, codec: Codec, key: string, saved: Saved, f: Faults)
    ensures var locked, k, l := kv[LockKey(prefix, key) := "1"], ResultKey(prefix, key), LockKey(prefix, key);
      k != l && locked[k := codec.encode(saved)] - {l} == kv[k := codec.encode(saved)] - {l}
  {
    assert |LockKey(prefix, key)| != |ResultKey(prefix, key)|;
  }

  // ----- Replay -----

  /** Writing a result makes the key hold it: the key's own lock is never where its result is. */
  lemma WrittenIsHeld(kv: map<string, string>, prefix: string, codec: Codec, key: string, saved: Saved)
    requires Faithful(codec)
    ensures CellOf(Written(kv, prefix, codec, key, saved), prefix, codec, key) == Holds(saved)
  {
    assert |LockKey(prefix, key)| != |ResultKey(prefix, key)|;
  }

  /** The second of two requests with one key, the store working, is a replay of the first, whatever its own
      `next` would have said: a success exactly when the first succeeded or failed without a text. */
  lemma SecondIsReplay<T>(kv: map<string, string>, prefix: string, codec: Codec, skipOnError: bool,
      marshal: T -> string, key: string, first: Reply<T>, f: Faults, second: Reply<T>, f': Faults)
    requires Faithful(codec) && key != "" && !f.write && !f'.get
    ensures var kv' := Stored(kv, prefix, codec, key, Record(marshal, first), f);
      var answer := Reaction(CellOf(kv', prefix, codec, key), skipOnError, key, f', second);
      && !answer.Live? && (answer.Succeeds() <==> first.Ok? || first.text == "")
      && (first.Ok? ==> answer == ReplayedBody(marshal(first.response)))
  {
    WrittenIsHeld(kv, prefix, codec, key, Record(marshal, first));
    StoredBySet(kv, prefix, codec, key, Record(marshal, first), f);
    ReplayIsFaithful(marshal, first);
  }

  /** A result that cannot be written leaves the key locked: until the lock runs out, nobody gets an answer. */
  lemma UnsavedStaysTaken(kv: map<string, string>, prefix: string, codec: Codec, key: string, saved: Saved, f: Faults)
    requires CellOf(kv, prefix, codec, key).Empty? && f.write
    ensures CellOf(Stored(kv, prefix, codec, key, saved, f), prefix, codec, key) == Taken
  {
    assert |LockKey(prefix, key)| != |ResultKey(prefix, key)|;
  }

  // ----- Different keys -----

  /** Neither key is the other one's lock. */
  predicate Apart(key: string, other: string) {
    key != other && key != "lock:" + other && other != "lock:" + key
  }

  lemma SamePrefix(prefix: string, a: string, b: string)
    ensures prefix + a == prefix + b <==> a == b
  {
    assert (prefix + a)[|prefix|..] == a && (prefix + b)[|prefix|..] == b;
  }

  lemma ApartCells(prefix: string, key: string, other: string)
    requires Apart(key, other)
    ensures {ResultKey(prefix, key), LockKey(prefix, key)} !! {ResultKey(prefix, other), LockKey(prefix, other)}
  {
    SamePrefix(prefix, key, other);
    SamePrefix(prefix, key, "lock:" + other);
    SamePrefix(prefix, "lock:" + key, other);
    SamePrefix(prefix, "lock:" + key, "lock:" + other);
    SamePrefix("lock:", key, other);
    assert LockKey(prefix, key) == prefix + ("lock:" + key) && LockKey(prefix, other) == prefix + ("lock:" + other);
  }

  /** Writing the result of one key changes nothing for another. */
  ghost predicate Undisturbed(prefix: string, codec: Codec, key: string, other: string) {
    forall kv, saved ::
      CellOf(Written(kv, prefix, codec, key, saved), prefix, codec, other) == CellOf(kv, prefix, codec, other)
  }

  /** A key `lock:x` and the key `x` share a place in the store, under every prefix; no other two keys do. */
  lemma UndisturbedIff(prefix: string, codec: Codec, key: string, other: string)
    requires Faithful(codec)
    ensures Undisturbed(prefix, codec, key, other) <==> Apart(key, other)
  {
    var saved := Saved("", "");
    if Apart(key, other) {
      ApartCells(prefix, key, other);
    } else if key == other {
      WrittenIsHeld(map[], prefix, codec, key, saved);
      assert CellOf(map[], prefix, codec, key) == Empty;
    } else if key == "lock:" + other {
      ResultLooksLikeLock(prefix, codec, other, saved);
    } else {
      LockDeletesResult(prefix, codec, key, saved);
    }
  }

  /** A result for `lock:x` makes every request for `x` look in progress. */
  lemma ResultLooksLikeLock(prefix: string, codec: Codec, other: string, saved: Saved)
    ensures CellOf(map[], prefix, codec, other) == Empty
    ensures CellOf(Written(map[], prefix, codec, "lock:" + other, saved), prefix, codec, other) == Taken
  {
    var key := "lock:" + other;
    assert ResultKey(prefix, key) == LockKey(prefix, other);
    assert |LockKey(prefix, key)| > |LockKey(prefix, other)| > |ResultKey(prefix, other)|;
  }

  /** Writing the result of `x` deletes a result for `lock:x`. */
  lemma LockDeletesResult(prefix: string, codec: Codec, key: string, saved: Saved)
    requires Faithful(codec)
    ensures var other := "lock:" + key;
      var kv := map[ResultKey(prefix, other) := codec.encode(saved)];
      && CellOf(kv, prefix, codec, other) == Holds(saved)
      && CellOf(Written(kv, prefix, codec, key, saved), prefix, codec, other) == Empty
  {
    var other := "lock:" + key;
    assert ResultKey(prefix, other) == LockKey(prefix, key);
    assert |LockKey(prefix, other)| > |LockKey(prefix, key)| > |ResultKey(prefix, key)|;
  }

  // ----- The methods as protocol steps -----

  /** The store says of the key what the protocol state says.  A text that is empty or cannot be decoded stands for
      some result; what `Get` makes of it is up to the step that reads it. */
  ghost predicate Reflects<T>(kv: map<string, string>, prefix: string, codec: Codec, key: string, s: State<T>) {
    && (s.lock.Some? <==> LockKey(prefix, key) in kv)
    && (s.result.Some? <==> ResultKey(prefix, key) in kv)
    && (var cell := CellOf(kv, prefix, codec, key); cell.Holds? ==> s.result == Some(cell.saved))
  }

  /** What `Get` makes of a cell: a failing read and an empty text count as no result; a text that cannot be decoded
      is an error. */
  function Seen(cell: Cell, f: Faults): Sight {
    if f.get || cell.Blank? then Blind else if cell.Unreadable? then Broken else Clear
  }

  lemma StoredReflects<T>(kv: map<string, string>, prefix: string, codec: Codec, key: string, s: State<T>,
      saved: Saved, f: Faults)
    requires Faithful(codec) && CellOf(kv, prefix, codec, key).Empty?
    requires if f.write then s.result.None? && s.lock.Some? else s.result == Some(saved) && (s.lock.Some? <==> f.del)
    ensures Reflects(Stored(kv, prefix, codec, key, saved, f), prefix, codec, key, s)
  {
    assert |LockKey(prefix, key)| != |ResultKey(prefix, key)|;
    assert codec.decode(codec.encode(saved)) == Some(saved);
  }

  lemma EntersScript<T>(g: Config<T>, s: State<T>, c: nat, reply: Reply<T>)
      returns (actions: seq<Action<T>>, s': State<T>)
    requires c < |g.keyed| == |s.points| && (s.points[c] == Direct || s.points[c] == Owning)
    ensures Run(g, s, actions) == Some(s') && OwnSteps(actions, c) && s'.lock == s.lock && s'.result == s.result
    ensures s'.points == s.points[c := if s.points[c] == Direct then Answered(Live(reply)) else Saving(reply)]
  {
    RunOne(g, s, Enter(c));
    var t := Step(g, s, Enter(c)).value;
    RunSnoc(g, s, [Enter(c)], Return(c, reply));
    actions, s' := [Enter(c)] + [Return(c, reply)], Step(g, t, Return(c, reply)).value;
    assert s'.points == s.points[c := s'.points[c]];
  }

  lemma SavesScript<T>(g: Config<T>, s: State<T>, c: nat, reply: Reply<T>, f: Faults)
    returns (actions: seq<Action<T>>, s': State<T>)
    requires c < |g.keyed| == |s.points| && s.points[c] == Saving(reply)
    ensures Run(g, s, actions) == Some(s') && OwnSteps(actions, c)
    ensures s'.points == s.points[c := Answered(Live(reply))]
    ensures s'.result == if f.write then s.result else Some(Record(g.marshal, reply))
    ensures s'.lock == if f.write || f.del then s.lock else None
  {
    RunOne(g, s, Save(c, !f.write));
    actions, s' := [Save(c, !f.write)], Step(g, s, Save(c, !f.write)).value;
    if !f.write {
      RunSnoc(g, s, actions, Release(c, !f.del));
      actions, s' := actions + [Release(c, !f.del)], Step(g, s', Release(c, !f.del)).value;
      assert s'.points == s.points[c := Answered(Live(reply))];
    }
  }

  /** Steps of request `c` alone, with the store's `SetNX` in one. */
  ghost predicate OwnSteps<T>(actions: seq<Action<T>>, c: nat) {
    forall a :: a in actions ==> Unexpiring(a) && a.c == c && Atomic(a)
  }

  /** The request takes the lock. */
  predicate Admits<T>(s: State<T>, f: Faults) {
    s.result.None? && s.lock.None? && !f.check && !f.lock
  }

  /** What the result and the lock are after an admitted request. */
  predicate Leaves<T(==)>(s: State<T>, f: Faults, saved: Saved) {
    && s.result == (if f.write then None else Some(saved))
    && (s.lock.Some? <==> f.write || f.del)
  }

  lemma AdmittedScript<T>(g: Config<T>, s: State<T>, c: nat, reply: Reply<T>, f: Faults)
      returns (actions: seq<Action<T>>, s': State<T>)
    requires c < |g.keyed| == |s.points| && s.points[c] == Owning && s.result.None? && s.lock.Some?
    ensures Run(g, s, actions) == Some(s') && OwnSteps(actions, c)
    ensures s'.points == s.points[c := Answered(Live(reply))] && Leaves(s', f, Record(g.marshal, reply))
  {
    var t, more;
    actions, t := EntersScript(g, s, c, reply);
    more, s' := SavesScript(g, t, c, reply, f);
    RunConcat(g, s, actions, more);
    actions := actions + more;
  }

  /** A keyed request that has seen no result. */
  function ToldLocking<T>(skipOnError: bool, s: State<T>, f: Faults, reply: Reply<T>): Answer<T> {
    if f.check || (s.result.None? && f.lock) then if skipOnError then Live(reply) else StoreFailure
    else if s.result.Some? || s.lock.Some? then InProgress
    else Live(reply)
  }

  lemma LockingScript<T>(g: Config<T>, s: State<T>, c: nat, reply: Reply<T>, f: Faults)
      returns (actions: seq<Action<T>>, s': State<T>)
    requires c < |g.keyed| == |s.points| && s.points[c] == Locking
    ensures Run(g, s, actions) == Some(s') && OwnSteps(actions, c)
    ensures s'.points == s.points[c := Answered(ToldLocking(g.skipOnError, s, f, reply))]
    ensures if Admits(s, f) then Leaves(s', f, Record(g.marshal, reply)) else s'.lock == s.lock && s'.result == s.result
  {
    var ok := !(f.check || (s.result.None? && f.lock));
    RunOne(g, s, SetNX(c, ok));
    actions, s' := [SetNX(c, ok)], Step(g, s, SetNX(c, ok)).value;
    if Admits(s, f) || (!ok && g.skipOnError) {
      var more, t;
      if ok {
        more, t := AdmittedScript(g, s', c, reply, f);
      } else {
        more, t := EntersScript(g, s', c, reply);
      }
      RunConcat(g, s, actions, more);
      actions, s' := actions + more, t;
      assert s'.points == s.points[c := Answered(Live(reply))];
    }
  }

  /** What a request is told when nobody disturbs it. */
  function Told<T>(skipOnError: bool, s: State<T>, keyed: bool, sight: Sight, f: Faults, reply: Reply<T>): Answer<T> {
    if !keyed then Live(reply)
    else if sight.Broken? then if skipOnError then Live(reply) else StoreFailure
    else if s.result.Some? && sight.Clear? then Replay(s.result.value)
    else ToldLocking(skipOnError, s, f, reply)
  }

  lemma RequestScript<T>(g: Config<T>, s: State<T>, c: nat, reply: Reply<T>, sight: Sight, f: Faults)
      returns (actions: seq<Action<T>>, s': State<T>)
    requires c < |g.keyed| == |s.points| && s.points[c] == Start
    ensures Run(g, s, actions) == Some(s') && OwnSteps(actions, c)
    ensures s'.points == s.points[c := Answered(Told(g.skipOnError, s, g.keyed[c], sight, f, reply))]
    ensures if g.keyed[c] && !sight.Broken? && Admits(s, f) then Leaves(s', f, Record(g.marshal, reply))
      else s'.lock == s.lock && s'.result == s.result
  {
    var first: Action<T> := if g.keyed[c] then Get(c, sight) else NoKey(c);
    RunOne(g, s, first);
    actions, s' := [first], Step(g, s, first).value;
    if !s'.points[c].Answered? {
      var more, t;
      if s'.points[c].Locking? {
        more, t := LockingScript(g, s', c, reply, f);
      } else {
        more, t := EntersScript(g, s', c, reply);
      }
      RunConcat(g, s, actions, more);
      actions, s' := actions + more, t;
    }
  }

  /** What `Handle` promises is what the protocol allows: an undisturbed request is a run of its own steps,
      with the answer and the store that `Handle` arrives at, whatever the cell holds and whichever calls fail. */
  lemma HandleIsARun<T>(kv: map<string, string>, prefix: string, codec: Codec, key: string, g: Config<T>, s: State<T>,
      c: nat, reply: Reply<T>, f: Faults) returns (actions: seq<Action<T>>, s': State<T>)
    requires Faithful(codec) && Reflects(kv, prefix, codec, key, s)
    requires c < |g.keyed| == |s.points| && s.points[c] == Start && (g.keyed[c] <==> key != "")
    ensures Run(g, s, actions) == Some(s') && OwnSteps(actions, c)
    ensures var cell := CellOf(kv, prefix, codec, key);
      && s'.points == s.points[c := Answered(Reaction(cell, g.skipOnError, key, f, reply))]
      && Reflects(if key != "" && cell.Empty? && !Errs(cell, f)
           then Stored(kv, prefix, codec, key, Record(g.marshal, reply), f) else kv, prefix, codec, key, s')
  {
    var sight := Seen(CellOf(kv, prefix, codec, key), f);
    actions, s' := RequestScript(g, s, c, reply, sight, f);
    if g.keyed[c] && Admits(s, f) {
      StoredReflects(kv, prefix, codec, key, s', Record(g.marshal, reply), f);
    }
  }
}
