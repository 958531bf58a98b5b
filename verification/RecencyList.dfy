/** An LRU cache as a mathematical object: its entries with distinct keys, most recently used first. */
module RecencyList {
  import opened Options

  ghost predicate DistinctKeys<K, V>(s: seq<(K, V)>) {
    forall i, j :: 0 <= i < j < |s| ==> s[i].0 != s[j].0
  }

  function Without<K(==), V>(s: seq<(K, V)>, k: K): (r: seq<(K, V)>)
  {
    if s == [] then [] else if s[0].0 == k then Without(s[1..], k) else [s[0]] + Without(s[1..], k)
  }

  function Peek<K(==), V>(s: seq<(K, V)>, k: K): Option<V> {
    if s == [] then None else if s[0].0 == k then Some(s[0].1) else Peek(s[1..], k)
  }

  /** Room for one more: a full list loses its last, least recently used, entry. */
  function Evict<K, V>(s: seq<(K, V)>, capacity: int): seq<(K, V)> {
    if |s| >= capacity && s != [] then s[..|s| - 1] else s
  }

  function Get<K(==), V>(s: seq<(K, V)>, k: K): seq<(K, V)> {
    var v := Peek(s, k);
    if v.Some? then [(k, v.value)] + Without(s, k) else s
  }

  function Put<K(==), V>(s: seq<(K, V)>, capacity: int, k: K, v: V): seq<(K, V)> {
    if Peek(s, k).Some? then [(k, v)] + Without(s, k) else [(k, v)] + Evict(s, capacity)
  }

  function GetOrPut<K(==), V>(s: seq<(K, V)>, capacity: int, k: K, loaded: V): seq<(K, V)> {
    if Peek(s, k).Some? then Get(s, k) else [(k, loaded)] + Evict(s, capacity)
  }

  function Resize<K, V>(s: seq<(K, V)>, capacity: int): seq<(K, V)>
    requires capacity >= 0
  {
    if |s| > capacity then s[..capacity] else s
  }

  function Keys<K, V>(s: seq<(K, V)>): (r: seq<K>)
    ensures |r| == |s| && forall i :: 0 <= i < |s| ==> r[i] == s[i].0
  {
    if s == [] then [] else [s[0].0] + Keys(s[1..])
  }

  // ----- Facts about a known position -----

  /** Taking out the key at position `i` of a list with distinct keys. */
  lemma {:induction false} WithoutAt<K, V>(s: seq<(K, V)>, i: nat)
    requires DistinctKeys(s) && i < |s|
    ensures Without(s, s[i].0) == s[..i] + s[i + 1..]
    ensures Peek(s, s[i].0) == Some(s[i].1)
  {
    if i == 0 {
      WithoutMissing(s[1..], s[0].0);
    } else {
      WithoutAt(s[1..], i - 1);
      assert s[1..][i - 1] == s[i];
      assert [s[0]] + (s[1..][..i - 1] + s[1..][i..]) == s[..i] + s[i + 1..];
    }
  }

  lemma {:induction false} WithoutMissing<K, V>(s: seq<(K, V)>, k: K)
    requires forall i :: 0 <= i < |s| ==> s[i].0 != k
    ensures Without(s, k) == s && Peek(s, k) == None
  {
    if s != [] {
      WithoutMissing(s[1..], k);
    }
  }

  // ----- What the operations keep -----

  lemma {:induction false} WithoutKeys<K, V>(s: seq<(K, V)>, k: K, x: K)
    requires DistinctKeys(s)
    ensures DistinctKeys(Without(s, k)) && |Without(s, k)| == |s| - if Peek(s, k).Some? then 1 else 0
    ensures Peek(Without(s, k), x) == if x == k then None else Peek(s, x)
    ensures forall i :: 0 <= i < |Without(s, k)| ==> Without(s, k)[i].0 != k && Peek(s, Without(s, k)[i].0).Some?
  {
    if s != [] {
      WithoutKeys(s[1..], k, x);
      if s[0].0 == k {
        WithoutMissing(s[1..], k);
      } else {
        assert forall i :: 0 <= i < |Without(s[1..], k)| ==> Without(s[1..], k)[i].0 != s[0].0 by {
          WithoutMissing(s[1..], s[0].0);
        }
      }
    }
  }

  // ----- Runs -----

  datatype Op<K, V> =
    GetOp(key: K) | PutOp(key: K, value: V) | GetOrPutOp(key: K, value: V) | RemoveOp(key: K) | ClearOp

  function Apply<K(==), V>(s: seq<(K, V)>, capacity: int, op: Op<K, V>): seq<(K, V)> {
    match op
    case GetOp(k) => Get(s, k)
    case PutOp(k, v) => Put(s, capacity, k, v)
    case GetOrPutOp(k, v) => GetOrPut(s, capacity, k, v)
    case RemoveOp(k) => Without(s, k)
    case ClearOp => []
  }

  function Run<K(==), V>(ops: seq<Op<K, V>>, capacity: int): seq<(K, V)> {
    if ops == [] then [] else Apply(Run(ops[..|ops| - 1], capacity), capacity, ops[|ops| - 1])
  }

  lemma EvictKeepsKeys<K, V>(s: seq<(K, V)>, capacity: int, k: K)
    requires DistinctKeys(s) && Peek(s, k) == None
    ensures DistinctKeys(Evict(s, capacity))
    ensures forall i :: 0 <= i < |Evict(s, capacity)| ==> Evict(s, capacity)[i].0 != k
  {
    forall i | 0 <= i < |s| ensures s[i].0 != k {
      PeekAt(s, i);
    }
  }

  lemma PeekAt<K, V>(s: seq<(K, V)>, i: nat)
    requires DistinctKeys(s) && i < |s|
    ensures Peek(s, s[i].0) == Some(s[i].1)
  {
    WithoutAt(s, i);
  }

  /** No key twice and never more entries than the capacity, in every run. */
  lemma {:induction false} RunIsBounded<K, V>(ops: seq<Op<K, V>>, capacity: int)
    requires capacity >= 1
    ensures DistinctKeys(Run(ops, capacity)) && |Run(ops, capacity)| <= capacity
  {
    if ops != [] {
      RunIsBounded(ops[..|ops| - 1], capacity);
      ApplyIsBounded(Run(ops[..|ops| - 1], capacity), capacity, ops[|ops| - 1]);
    }
  }

  lemma ApplyIsBounded<K, V>(s: seq<(K, V)>, capacity: int, op: Op<K, V>)
    requires capacity >= 1 && DistinctKeys(s) && |s| <= capacity
    ensures DistinctKeys(Apply(s, capacity, op)) && |Apply(s, capacity, op)| <= capacity
  {
    if !op.ClearOp? {
      WithoutKeys(s, op.key, op.key);
      if Peek(s, op.key) == None {
        EvictKeepsKeys(s, capacity, op.key);
      }
    }
  }

  // ----- Inclusion between capacities -----

  function Minus<K(==)>(ks: seq<K>, k: K): seq<K> {
    if ks == [] then [] else if ks[0] == k then Minus(ks[1..], k) else [ks[0]] + Minus(ks[1..], k)
  }

  /** The effect on the key order of using a key that is loaded when missing. */
  function Use<K(==)>(ks: seq<K>, capacity: int, k: K): seq<K> {
    if k in ks then [k] + Minus(ks, k)
    else [k] + if |ks| >= capacity && ks != [] then ks[..|ks| - 1] else ks
  }

  lemma {:induction false} KeysOfWithout<K, V>(s: seq<(K, V)>, k: K)
    ensures Keys(Without(s, k)) == Minus(Keys(s), k)
    ensures Peek(s, k).Some? <==> k in Keys(s)
  {
    if s != [] {
      KeysOfWithout(s[1..], k);
      assert Keys(s)[1..] == Keys(s[1..]);
      if s[0].0 != k {
        assert Without(s, k)[1..] == Without(s[1..], k);
      }
    }
  }

  lemma KeysOfInsert<K, V>(s: seq<(K, V)>, capacity: int, k: K, v: V)
    requires k !in Keys(s)
    ensures Keys([(k, v)] + Evict(s, capacity)) == Use(Keys(s), capacity, k)
  {
    var e := Evict(s, capacity);
    assert ([(k, v)] + e)[1..] == e;
    assert Keys(e) == if |s| >= capacity && s != [] then Keys(s)[..|s| - 1] else Keys(s);
  }

  lemma KeysOfMove<K, V>(s: seq<(K, V)>, capacity: int, k: K, v: V)
    requires k in Keys(s)
    ensures Keys([(k, v)] + Without(s, k)) == Use(Keys(s), capacity, k)
  {
    KeysOfWithout(s, k);
    assert ([(k, v)] + Without(s, k))[1..] == Without(s, k);
  }

  lemma KeysOfApply<K, V>(s: seq<(K, V)>, capacity: int, op: Op<K, V>)
    requires !op.GetOp?
    ensures Keys(Apply(s, capacity, op)) ==
      if op.ClearOp? then [] else if op.RemoveOp? then Minus(Keys(s), op.key) else Use(Keys(s), capacity, op.key)
  {
    if !op.ClearOp? {
      KeysOfWithout(s, op.key);
      if op.PutOp? || op.GetOrPutOp? {
        if op.key in Keys(s) {
          KeysOfMove(s, capacity, op.key, if op.PutOp? then op.value else Peek(s, op.key).value);
        } else {
          KeysOfInsert(s, capacity, op.key, op.value);
        }
      }
    }
  }

  lemma {:induction false} MinusMissing<K>(ks: seq<K>, k: K)
    requires k !in ks
    ensures Minus(ks, k) == ks
  {
    if ks != [] {
      MinusMissing(ks[1..], k);
    }
  }

  lemma {:induction false} MinusPrefix<K>(a: seq<K>, b: seq<K>, k: K)
    requires a <= b
    ensures Minus(a, k) <= Minus(b, k)
  {
    if a != [] {
      MinusPrefix(a[1..], b[1..], k);
    }
  }

  lemma UsePrefix<K>(a: seq<K>, c1: int, b: seq<K>, c2: int, k: K)
    requires a <= b && |a| <= c1 <= c2 && |b| <= c2
    ensures Use(a, c1, k) <= Use(b, c2, k)
  {
    MinusPrefix(a, b, k);
    if k !in a {
      MinusMissing(a, k);
    } else {
      assert k in b;
    }
  }

  /** At every moment the smaller of two caches that serve the same requests holds a prefix of what the
      larger one holds, in the same order.  `GetOp` is excluded: see `InclusionWithGetIff`. */
  lemma {:induction false} Inclusion<K, V>(ops: seq<Op<K, V>>, c1: int, c2: int)
    requires 1 <= c1 <= c2
    requires forall i :: 0 <= i < |ops| ==> !ops[i].GetOp?
    ensures Keys(Run(ops, c1)) <= Keys(Run(ops, c2))
  {
    if ops != [] {
      var before, op := ops[..|ops| - 1], ops[|ops| - 1];
      Inclusion(before, c1, c2);
      RunIsBounded(before, c1);
      RunIsBounded(before, c2);
      var a, b := Run(before, c1), Run(before, c2);
      KeysOfApply(a, c1, op);
      KeysOfApply(b, c2, op);
      if op.PutOp? || op.GetOrPutOp? {
        UsePrefix(Keys(a), c1, Keys(b), c2, op.key);
      } else if op.RemoveOp? {
        MinusPrefix(Keys(a), Keys(b), op.key);
      }
    }
  }

  lemma KeysOfGet<K, V>(s: seq<(K, V)>, k: K)
    ensures Keys(Get(s, k)) == if k in Keys(s) then [k] + Minus(Keys(s), k) else Keys(s)
    ensures Peek(s, k).Some? <==> k in Keys(s)
  {
    KeysOfWithout(s, k);
    if k in Keys(s) {
      KeysOfMove(s, 1, k, Peek(s, k).value);
    }
  }

  /** The same question about the key orders alone. */
  lemma GetPrefix<K>(a: seq<K>, b: seq<K>, k: K)
    requires a <= b
    ensures var a' := if k in a then [k] + Minus(a, k) else a;
      var b' := if k in b then [k] + Minus(b, k) else b;
      a' <= b' <==> (k in a || k !in b || a == [])
  {
    MinusPrefix(a, b, k);
    if k !in a && k in b && a != [] {
      assert a[0] != k && ([k] + Minus(b, k))[0] == k;
    }
  }

  /** A plain `Get` does not load on a miss.  It keeps the inclusion exactly when the smaller cache holds
      the key, or the larger one does not, or the smaller one is empty. */
  lemma GetAndInclusion<K, V>(a: seq<(K, V)>, b: seq<(K, V)>, k: K)
    requires Keys(a) <= Keys(b)
    ensures Keys(Get(a, k)) <= Keys(Get(b, k)) <==> (Peek(a, k).Some? || Peek(b, k) == None || a == [])
  {
    KeysOfGet(a, k);
    KeysOfGet(b, k);
    GetPrefix(Keys(a), Keys(b), k);
  }

  /** Puts the keys `0` to `n - 1`, in this order. */
  function Fill(n: nat): seq<Op<int, int>> {
    if n == 0 then [] else Fill(n - 1) + [PutOp(n - 1, 0)]
  }

  lemma RunSnoc<K, V>(ops: seq<Op<K, V>>, op: Op<K, V>, capacity: int)
    ensures Run(ops + [op], capacity) == Apply(Run(ops, capacity), capacity, op)
  {
    assert (ops + [op])[..|ops|] == ops;
  }

  /** The last of the keys below `n` that fit, latest first. */
  ghost predicate Latest(s: seq<(int, int)>, n: nat, capacity: int) {
    |s| == (if n < capacity then n else capacity) && forall i :: 0 <= i < |s| ==> s[i].0 == n - 1 - i
  }

  lemma PutLatest(s: seq<(int, int)>, n: nat, capacity: int)
    requires capacity >= 1 && Latest(s, n, capacity)
    ensures Latest(Put(s, capacity, n, 0), n + 1, capacity)
  {
    WithoutMissing(s, n);
    var e := Evict(s, capacity);
    assert forall i :: 0 <= i < |e| ==> e[i] == s[i];
    assert Put(s, capacity, n, 0) == [(n, 0)] + e;
  }

  lemma {:induction false} FillHoldsLatest(n: nat, capacity: int)
    requires capacity >= 1
    ensures Latest(Run(Fill(n), capacity), n, capacity)
  {
    if n > 0 {
      FillHoldsLatest(n - 1, capacity);
      RunSnoc(Fill(n - 1), PutOp(n - 1, 0), capacity);
      PutLatest(Run(Fill(n - 1), capacity), n - 1, capacity);
    }
  }

  lemma FillHoldsFirst(n: nat, capacity: int)
    requires capacity >= 1 && n >= 1
    ensures Run(Fill(n), capacity) != []
    ensures Peek(Run(Fill(n), capacity), 0).Some? <==> n <= capacity
  {
    FillHoldsLatest(n, capacity);
    RunIsBounded(Fill(n), capacity);
    var s := Run(Fill(n), capacity);
    if n <= capacity {
      PeekAt(s, n - 1);
    } else {
      WithoutMissing(s, 0);
    }
  }

  lemma {:induction false} FillIsPuts(n: nat)
    ensures forall i :: 0 <= i < |Fill(n)| ==> !Fill(n)[i].GetOp?
  {
    if n > 0 {
      FillIsPuts(n - 1);
    }
  }

  /** For any two different capacities there is a run on which it does break: one key more than the smaller cache
      holds, and then a `Get` of the first. */
  lemma GetBreaksInclusion(c1: int, c2: int)
    requires 1 <= c1 < c2
    ensures !PrefixAfter(Fill(c1 + 1) + [GetOp(0)], c1, c2)
  {
    var n := c1 + 1;
    RunSnoc(Fill(n), GetOp(0), c1);
    RunSnoc(Fill(n), GetOp(0), c2);
    FillHoldsFirst(n, c1);
    FillHoldsFirst(n, c2);
    FillIsPuts(n);
    Inclusion(Fill(n), c1, c2);
    GetAndInclusion(Run(Fill(n), c1), Run(Fill(n), c2), 0);
  }

  predicate PrefixAfter(ops: seq<Op<int, int>>, c1: int, c2: int) {
    Keys(Run(ops, c1)) <= Keys(Run(ops, c2))
  }

  /** With `Get` among the operations, inclusion in all runs holds only between equal capacities. */
  lemma InclusionWithGetIff(c1: int, c2: int)
    requires 1 <= c1 <= c2
    ensures (forall ops :: PrefixAfter(ops, c1, c2)) <==> c1 == c2
  {
    if c1 < c2 {
      GetBreaksInclusion(c1, c2);
    } else {
      assert forall ops :: PrefixAfter(ops, c1, c2);
    }
  }

  /** `Resize` keeps exactly the most recently used entries that fit. */
  lemma ResizeKeepsRecent<K, V>(s: seq<(K, V)>, capacity: int)
    requires capacity >= 1 && DistinctKeys(s)
    ensures Resize(s, capacity) <= s && |Resize(s, capacity)| == if |s| < capacity then |s| else capacity
    ensures forall i :: 0 <= i < |s| ==> (Peek(Resize(s, capacity), s[i].0).Some? <==> i < capacity)
  {
    var r := Resize(s, capacity);
    forall i | 0 <= i < |s| ensures Peek(r, s[i].0).Some? <==> i < capacity {
      if i < |r| {
        PeekAt(r, i);
      } else {
        WithoutMissing(r, s[i].0);
      }
    }
  }
}
