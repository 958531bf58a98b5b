/** What an LRU cache holds, told from the history of its operations: which keys, in which order, and with
    which values. */
module RecencyHistory {
  import opened Options
  import opened RecencyList

  // ----- One operation -----

  /** Inserting `k` pushes out `q`, the last key of a full list. */
  predicate PushedOut<K(==), V>(s: seq<(K, V)>, capacity: int, k: K, q: K) {
    Peek(s, k) == None && |s| >= capacity && s != [] && s[|s| - 1].0 == q
  }

  lemma {:induction false} PeekButLast<K, V>(s: seq<(K, V)>, q: K)
    requires DistinctKeys(s) && s != []
    ensures Peek(s[..|s| - 1], q) == if s[|s| - 1].0 == q then None else Peek(s, q)
  {
    if |s| > 1 {
      PeekButLast(s[1..], q);
      assert s[..|s| - 1][1..] == s[1..][..|s| - 2];
    }
  }

  lemma PeekFront<K, V>(s: seq<(K, V)>, k: K, v: V, q: K)
    ensures Peek([(k, v)] + s, q) == if k == q then Some(v) else Peek(s, q)
  {
    assert ([(k, v)] + s)[1..] == s;
  }

  lemma HeldAfterMove<K, V>(s: seq<(K, V)>, k: K, v: V, q: K)
    requires DistinctKeys(s)
    ensures Peek([(k, v)] + Without(s, k), q) == if q == k then Some(v) else Peek(s, q)
  {
    WithoutKeys(s, k, q);
    PeekFront(Without(s, k), k, v, q);
  }

  lemma HeldAfterInsert<K, V>(s: seq<(K, V)>, capacity: int, k: K, v: V, q: K)
    requires DistinctKeys(s) && Peek(s, k) == None
    ensures Peek([(k, v)] + Evict(s, capacity), q) ==
      if q == k then Some(v) else if PushedOut(s, capacity, k, q) then None else Peek(s, q)
  {
    PeekFront(Evict(s, capacity), k, v, q);
    if s != [] {
      PeekButLast(s, q);
    }
  }

  /** The value held for any key `q` after an operation: nothing but a write of `q` changes it, and nothing but a
      removal, a `Clear` or an insertion into a full cache ends it. */
  lemma HeldAfter<K, V>(s: seq<(K, V)>, capacity: int, op: Op<K, V>, q: K)
    requires DistinctKeys(s)
    ensures Peek(Apply(s, capacity, op), q) ==
      if op.ClearOp? then None
      else if op.GetOp? then Peek(s, q)
      else if op.RemoveOp? then if q == op.key then None else Peek(s, q)
      else if q == op.key then Some(if op.PutOp? then op.value else Peek(s, q).GetOr(op.value))
      else if PushedOut(s, capacity, op.key, q) then None
      else Peek(s, q)
  {
    match op
    case ClearOp =>
    case RemoveOp(k) => WithoutKeys(s, k, q);
    case GetOp(k) =>
      if Peek(s, k).Some? {
        HeldAfterMove(s, k, Peek(s, k).value, q);
      }
    case PutOp(k, v) =>
      if Peek(s, k).Some? {
        HeldAfterMove(s, k, v, q);
      } else {
        HeldAfterInsert(s, capacity, k, v, q);
      }
    case GetOrPutOp(k, v) =>
      if Peek(s, k).Some? {
        HeldAfterMove(s, k, Peek(s, k).value, q);
      } else {
        HeldAfterInsert(s, capacity, k, v, q);
      }
  }

  // ----- Values -----

  /** The last value written for `q`: by a `Put`, or by a `GetOrPut` that did not find it. */
  function LastWrite<K(==), V>(ops: seq<Op<K, V>>, capacity: int, q: K): Option<V> {
    if ops == [] then None
    else
      var before, op := ops[..|ops| - 1], ops[|ops| - 1];
      if op.PutOp? && op.key == q then Some(op.value)
      else if op.GetOrPutOp? && op.key == q && Peek(Run(before, capacity), q) == None then Some(op.value)
      else LastWrite(before, capacity, q)
  }

  /** Every key held has the value last written for it, in every run. */
  lemma {:induction false} HoldsLastWrite<K, V>(ops: seq<Op<K, V>>, capacity: int, q: K)
    requires capacity >= 1 && Peek(Run(ops, capacity), q).Some?
    ensures Peek(Run(ops, capacity), q) == LastWrite(ops, capacity, q)
  {
    if ops != [] {
      var before, op := ops[..|ops| - 1], ops[|ops| - 1];
      var s := Run(before, capacity);
      RunIsBounded(before, capacity);
      HeldAfter(s, capacity, op, q);
      if Peek(s, q).Some? {
        HoldsLastWrite(before, capacity, q);
      }
    }
  }

  // ----- Order and eviction -----

  /** The index of the last operation on key `q`, or -1. */
  function LastNamed<K(==), V>(ops: seq<Op<K, V>>, q: K): int {
    if ops == [] then -1
    else
      var op := ops[|ops| - 1];
      if !op.ClearOp? && op.key == q then |ops| - 1 else LastNamed(ops[..|ops| - 1], q)
  }

  /** The keys held, each last named after the next one. */
  ghost predicate ByLastUse<K(!new), V(!new)>(ops: seq<Op<K, V>>, s: seq<(K, V)>) {
    forall i, j :: 0 <= i < j < |s| ==> LastNamed(ops, s[i].0) > LastNamed(ops, s[j].0)
  }

  lemma {:induction false} NamedBefore<K, V>(ops: seq<Op<K, V>>, q: K)
    ensures -1 <= LastNamed(ops, q) < |ops|
    ensures LastNamed(ops, q) >= 0 ==> var op := ops[LastNamed(ops, q)]; !op.ClearOp? && op.key == q
    ensures forall j :: LastNamed(ops, q) < j < |ops| && !ops[j].ClearOp? ==> ops[j].key != q
  {
    if ops != [] {
      NamedBefore(ops[..|ops| - 1], q);
    }
  }

  /** Entries of other keys than the one used last keep their order; its own goes to the front. */
  lemma StillByLastUse<K(!new), V(!new)>(ops: seq<Op<K, V>>, t: seq<(K, V)>, k: K, v: V)
    requires ops != [] && !ops[|ops| - 1].ClearOp? && ops[|ops| - 1].key == k
    requires ByLastUse(ops[..|ops| - 1], t) && forall i :: 0 <= i < |t| ==> t[i].0 != k
    ensures ByLastUse(ops, t) && ByLastUse(ops, [(k, v)] + t)
  {
    var before, s := ops[..|ops| - 1], [(k, v)] + t;
    forall i, j | 0 <= i < j < |s| ensures LastNamed(ops, s[i].0) > LastNamed(ops, s[j].0) {
      NamedBefore(before, s[j].0);
      assert s[j] == t[j - 1];
      if i > 0 {
        assert s[i] == t[i - 1];
      }
    }
  }

  lemma {:induction false} WhereHeld<K, V>(s: seq<(K, V)>, k: K) returns (i: nat)
    requires Peek(s, k).Some?
    ensures i < |s| && s[i].0 == k
  {
    if s[0].0 == k {
      i := 0;
    } else {
      i := WhereHeld(s[1..], k);
      i := i + 1;
    }
  }

  lemma NotHeld<K, V>(s: seq<(K, V)>, k: K)
    requires DistinctKeys(s) && Peek(s, k) == None
    ensures Without(s, k) == s && forall i :: 0 <= i < |s| ==> s[i].0 != k
  {
    forall i | 0 <= i < |s| ensures s[i].0 != k {
      PeekAt(s, i);
    }
    WithoutMissing(s, k);
  }

  lemma WithoutByLastUse<K(!new), V(!new)>(ops: seq<Op<K, V>>, s: seq<(K, V)>, k: K)
    requires DistinctKeys(s) && ByLastUse(ops, s)
    ensures ByLastUse(ops, Without(s, k)) && forall i :: 0 <= i < |Without(s, k)| ==> Without(s, k)[i].0 != k
  {
    if Peek(s, k).Some? {
      var i := WhereHeld(s, k);
      WithoutAt(s, i);
    } else {
      NotHeld(s, k);
    }
  }

  lemma ApplyByLastUse<K(!new), V(!new)>(ops: seq<Op<K, V>>, s: seq<(K, V)>, capacity: int)
    requires ops != [] && DistinctKeys(s) && ByLastUse(ops[..|ops| - 1], s)
    ensures ByLastUse(ops, Apply(s, capacity, ops[|ops| - 1]))
  {
    var op := ops[|ops| - 1];
    if op.ClearOp? {
    } else if Peek(s, op.key).Some? {
      WithoutByLastUse(ops[..|ops| - 1], s, op.key);
      StillByLastUse(ops, Without(s, op.key), op.key, if op.PutOp? then op.value else Peek(s, op.key).value);
    } else {
      MissByLastUse(ops, s, capacity);
    }
  }

  lemma MissByLastUse<K(!new), V(!new)>(ops: seq<Op<K, V>>, s: seq<(K, V)>, capacity: int)
    requires ops != [] && DistinctKeys(s) && ByLastUse(ops[..|ops| - 1], s)
    requires !ops[|ops| - 1].ClearOp? && Peek(s, ops[|ops| - 1].key) == None
    ensures ByLastUse(ops, Apply(s, capacity, ops[|ops| - 1]))
  {
    var op := ops[|ops| - 1];
    NotHeld(s, op.key);
    if op.PutOp? || op.GetOrPutOp? {
      StillByLastUse(ops, Evict(s, capacity), op.key, op.value);
    } else if s != [] {
      StillByLastUse(ops, s, op.key, s[0].1);
    }
  }

  /** Keys are held in the order of their last use, latest first, in every run. */
  lemma {:induction false} HeldInOrderOfUse<K(!new), V(!new)>(ops: seq<Op<K, V>>, capacity: int)
    requires capacity >= 1
    ensures ByLastUse(ops, Run(ops, capacity))
  {
    if ops != [] {
      HeldInOrderOfUse(ops[..|ops| - 1], capacity);
      RunIsBounded(ops[..|ops| - 1], capacity);
      ApplyByLastUse(ops, Run(ops[..|ops| - 1], capacity), capacity);
    }
  }

  /** A `Put` or `GetOrPut` of a key that is not held loses a key exactly when the cache is full, and then just the
      one whose last use lies furthest back. */
  lemma EvictsLeastRecentlyUsed<K(!new), V(!new)>(ops: seq<Op<K, V>>, capacity: int, op: Op<K, V>, q: K)
    requires capacity >= 1 && (op.PutOp? || op.GetOrPutOp?) && Peek(Run(ops, capacity), op.key) == None
    requires Peek(Run(ops, capacity), q).Some?
    ensures Peek(Run(ops + [op], capacity), q) == None <==>
      && |Run(ops, capacity)| == capacity
      && forall p :: Peek(Run(ops, capacity), p).Some? && p != q ==> LastNamed(ops, p) > LastNamed(ops, q)
  {
    var s := Run(ops, capacity);
    RunSnoc(ops, op, capacity);
    RunIsBounded(ops, capacity);
    HeldInOrderOfUse(ops, capacity);
    HeldAfter(s, capacity, op, q);
    var last := s[|s| - 1].0;
    PeekAt(s, |s| - 1);
    forall p | Peek(s, p).Some? && p != last ensures LastNamed(ops, p) > LastNamed(ops, last) {
      var i := WhereHeld(s, p);
    }
  }
}
