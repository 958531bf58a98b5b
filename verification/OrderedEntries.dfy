/** A sorted map as a mathematical object: a sequence of entries in strictly increasing key order.
    `TreeMap` is proved to behave as this object does. */
module OrderedEntries {
  import opened Options

  type Comparator<!K> = (K, K) -> int

  /** What `Comparator` promises: negative, zero and positive results order the keys. */
  ghost predicate TotalPreorder<K(!new)>(cmp: Comparator<K>) {
    forall a, b, c :: PreorderAt(cmp, a, b, c)
  }

  ghost predicate PreorderAt<K(!new)>(cmp: Comparator<K>, a: K, b: K, c: K) {
    && (cmp(a, b) < 0 <==> cmp(b, a) > 0)
    && (cmp(a, b) <= 0 && cmp(b, c) <= 0 ==> cmp(a, c) <= 0)
  }

  lemma Transitive<K(!new)>(cmp: Comparator<K>, a: K, b: K, c: K)
    requires TotalPreorder(cmp)
    ensures cmp(a, b) < 0 && cmp(b, c) <= 0 ==> cmp(a, c) < 0
    ensures cmp(a, b) <= 0 && cmp(b, c) < 0 ==> cmp(a, c) < 0
    ensures cmp(a, b) == 0 && cmp(b, c) == 0 ==> cmp(a, c) == 0
    ensures cmp(a, b) == 0 <==> cmp(b, a) == 0
    ensures cmp(a, b) < 0 <==> cmp(b, a) > 0
  {
    assert PreorderAt(cmp, a, b, c) && PreorderAt(cmp, b, a, c) && PreorderAt(cmp, b, c, a);
    assert PreorderAt(cmp, a, c, b) && PreorderAt(cmp, c, a, b) && PreorderAt(cmp, c, b, a);
  }

  ghost predicate Sorted<K, V>(cmp: Comparator<K>, s: seq<(K, V)>) {
    forall i, j :: 0 <= i < j < |s| ==> cmp(s[i].0, s[j].0) < 0
  }

  ghost predicate Below<K, V>(cmp: Comparator<K>, s: seq<(K, V)>, k: K) {
    forall i :: 0 <= i < |s| ==> cmp(s[i].0, k) < 0
  }

  ghost predicate Above<K, V>(cmp: Comparator<K>, s: seq<(K, V)>, k: K) {
    forall i :: 0 <= i < |s| ==> cmp(k, s[i].0) < 0
  }

  lemma SortedMiddle<K, V>(cmp: Comparator<K>, a: seq<(K, V)>, m: seq<(K, V)>, b: seq<(K, V)>)
    requires Sorted(cmp, a + m + b)
    ensures Sorted(cmp, m)
  {
    assert forall i :: 0 <= i < |m| ==> (a + m + b)[|a| + i] == m[i];
  }

  function Lookup<K, V>(cmp: Comparator<K>, s: seq<(K, V)>, k: K): Option<V> {
    if s == [] then None else if cmp(k, s[0].0) == 0 then Some(s[0].1) else Lookup(cmp, s[1..], k)
  }

  /** The entry of an equivalent key keeps its key and gets the new value. */
  function Upsert<K, V>(cmp: Comparator<K>, s: seq<(K, V)>, k: K, v: V): seq<(K, V)> {
    if s == [] || cmp(k, s[0].0) < 0 then [(k, v)] + s
    else if cmp(k, s[0].0) == 0 then [(s[0].0, v)] + s[1..]
    else [s[0]] + Upsert(cmp, s[1..], k, v)
  }

  function Erase<K, V>(cmp: Comparator<K>, s: seq<(K, V)>, k: K): seq<(K, V)> {
    if s == [] then []
    else if cmp(k, s[0].0) == 0 then s[1..]
    else [s[0]] + Erase(cmp, s[1..], k)
  }

  /** The three operations at a known position. */
  lemma {:induction false} LookupAt<K(!new), V>(cmp: Comparator<K>, a: seq<(K, V)>, mid: seq<(K, V)>,
      b: seq<(K, V)>, k: K)
    requires TotalPreorder(cmp)
    requires Below(cmp, a, k) && Above(cmp, b, k)
    requires |mid| <= 1 && (mid != [] ==> cmp(k, mid[0].0) == 0)
    ensures Lookup(cmp, a + mid + b, k) == if mid == [] then None else Some(mid[0].1)
    ensures Erase(cmp, a + mid + b, k) == a + b
  {
    var s := a + mid + b;
    if a != [] {
      assert s[0] == a[0] && s[1..] == a[1..] + mid + b;
      Transitive(cmp, a[0].0, k, k);
      LookupAt(cmp, a[1..], mid, b, k);
      assert [a[0]] + (a[1..] + b) == a + b;
    } else if mid != [] {
      assert s[0] == mid[0] && s[1..] == b;
    } else {
      assert s == b;
      NotFound(cmp, b, k);
    }
  }

  lemma {:induction false} UpsertAt<K(!new), V>(cmp: Comparator<K>, a: seq<(K, V)>, mid: seq<(K, V)>,
      b: seq<(K, V)>, k: K, v: V)
    requires TotalPreorder(cmp)
    requires Below(cmp, a, k) && Above(cmp, b, k)
    requires |mid| <= 1 && (mid != [] ==> cmp(k, mid[0].0) == 0)
    ensures Upsert(cmp, a + mid + b, k, v) == a + [(if mid == [] then k else mid[0].0, v)] + b
  {
    var s := a + mid + b;
    if a != [] {
      assert s[0] == a[0] && s[1..] == a[1..] + mid + b;
      Transitive(cmp, a[0].0, k, k);
      UpsertAt(cmp, a[1..], mid, b, k, v);
    } else if mid != [] {
      assert s[0] == mid[0] && s[1..] == b;
    } else {
      assert s == b;
    }
  }

  /** Putting the entries of a sorted sequence in order rebuilds it. */
  lemma AppendIsUpsert<K(!new), V>(cmp: Comparator<K>, s: seq<(K, V)>, i: nat)
    requires TotalPreorder(cmp) && Sorted(cmp, s) && i < |s|
    ensures Upsert(cmp, s[..i], s[i].0, s[i].1) == s[..i + 1]
  {
    UpsertAt(cmp, s[..i], [], [], s[i].0, s[i].1);
    assert s[..i] + [] + [] == s[..i];
  }

  lemma {:induction false} NotFound<K(!new), V>(cmp: Comparator<K>, b: seq<(K, V)>, k: K)
    requires Above(cmp, b, k)
    ensures Lookup(cmp, b, k) == None && Erase(cmp, b, k) == b
  {
    if b != [] {
      NotFound(cmp, b[1..], k);
    }
  }

  lemma {:induction false} EraseMissing<K, V>(cmp: Comparator<K>, s: seq<(K, V)>, k: K)
    requires Lookup(cmp, s, k) == None
    ensures Erase(cmp, s, k) == s
  {
    if s != [] {
      EraseMissing(cmp, s[1..], k);
    }
  }

  lemma {:induction false} StayAbove<K, V>(cmp: Comparator<K>, s: seq<(K, V)>, k: K, v: V, x: K)
    requires Above(cmp, s, x)
    ensures cmp(x, k) < 0 ==> Above(cmp, Upsert(cmp, s, k, v), x)
    ensures Above(cmp, Erase(cmp, s, k), x)
  {
    if s != [] {
      StayAbove(cmp, s[1..], k, v, x);
    }
  }

  lemma AboveHead<K(!new), V>(cmp: Comparator<K>, s: seq<(K, V)>, k: K)
    requires TotalPreorder(cmp) && Sorted(cmp, s) && s != [] && cmp(k, s[0].0) <= 0
    ensures Above(cmp, s[1..], k) && (cmp(k, s[0].0) < 0 ==> Above(cmp, s, k))
  {
    forall i | 1 <= i < |s| ensures cmp(k, s[i].0) < 0 {
      Transitive(cmp, k, s[0].0, s[i].0);
    }
  }

  /** Putting a key changes the map at exactly that key and keeps it sorted. */
  lemma {:induction false} UpsertIsMapUpdate<K(!new), V>(cmp: Comparator<K>, s: seq<(K, V)>, k: K, v: V, q: K)
    requires TotalPreorder(cmp) && Sorted(cmp, s)
    ensures Sorted(cmp, Upsert(cmp, s, k, v))
    ensures Lookup(cmp, Upsert(cmp, s, k, v), q) == if cmp(q, k) == 0 then Some(v) else Lookup(cmp, s, q)
    ensures |Upsert(cmp, s, k, v)| == |s| + if Lookup(cmp, s, k) == None then 1 else 0
  {
    if s != [] {
      Transitive(cmp, q, k, s[0].0);
      Transitive(cmp, q, s[0].0, k);
      Transitive(cmp, k, s[0].0, k);
      if cmp(k, s[0].0) < 0 {
        AboveHead(cmp, s, k);
        NotFound(cmp, s, k);
      } else if cmp(k, s[0].0) > 0 {
        UpsertIsMapUpdate(cmp, s[1..], k, v, q);
        StayAbove(cmp, s[1..], k, v, s[0].0);
      }
    }
  }

  /** Removing a key takes exactly that key away. */
  lemma {:induction false} EraseIsMapRemoval<K(!new), V>(cmp: Comparator<K>, s: seq<(K, V)>, k: K, q: K)
    requires TotalPreorder(cmp) && Sorted(cmp, s)
    ensures Sorted(cmp, Erase(cmp, s, k))
    ensures Lookup(cmp, Erase(cmp, s, k), q) == if cmp(q, k) == 0 then None else Lookup(cmp, s, q)
    ensures |Erase(cmp, s, k)| == |s| - if Lookup(cmp, s, k) == None then 0 else 1
  {
    if s != [] {
      Transitive(cmp, q, k, s[0].0);
      Transitive(cmp, q, s[0].0, k);
      Transitive(cmp, k, s[0].0, k);
      if cmp(k, s[0].0) == 0 {
        AboveHead(cmp, s, k);
        if cmp(q, k) == 0 {
          forall i | 1 <= i < |s| ensures cmp(q, s[i].0) < 0 {
            Transitive(cmp, q, k, s[i].0);
          }
          NotFound(cmp, s[1..], q);
        }
      } else {
        Transitive(cmp, k, q, s[0].0);
        EraseIsMapRemoval(cmp, s[1..], k, q);
        StayAbove(cmp, s[1..], k, s[0].1, s[0].0);
      }
    }
  }

  // ----- Whole histories -----

  datatype Op<K, V> = PutOp(key: K, value: V) | RemoveOp(key: K) | ClearOp

  function Apply<K, V>(cmp: Comparator<K>, s: seq<(K, V)>, op: Op<K, V>): seq<(K, V)> {
    match op
    case PutOp(k, v) => Upsert(cmp, s, k, v)
    case RemoveOp(k) => Erase(cmp, s, k)
    case ClearOp => []
  }

  /** The contents after a history that starts from the empty map. */
  function Run<K, V>(cmp: Comparator<K>, ops: seq<Op<K, V>>): seq<(K, V)> {
    if ops == [] then [] else Apply(cmp, Run(cmp, ops[..|ops| - 1]), ops[|ops| - 1])
  }

  /** What a history says about one key: the last operation that mentions it decides. */
  function LastWrite<K, V>(cmp: Comparator<K>, ops: seq<Op<K, V>>, q: K): Option<V> {
    if ops == [] then None
    else match ops[|ops| - 1]
      case PutOp(k, v) => if cmp(q, k) == 0 then Some(v) else LastWrite(cmp, ops[..|ops| - 1], q)
      case RemoveOp(k) => if cmp(q, k) == 0 then None else LastWrite(cmp, ops[..|ops| - 1], q)
      case ClearOp => None
  }

  lemma {:induction false} HistoryDecides<K(!new), V>(cmp: Comparator<K>, ops: seq<Op<K, V>>, q: K)
    requires TotalPreorder(cmp)
    ensures Sorted(cmp, Run(cmp, ops)) && Lookup(cmp, Run(cmp, ops), q) == LastWrite(cmp, ops, q)
  {
    if ops != [] {
      var before := Run(cmp, ops[..|ops| - 1]);
      HistoryDecides(cmp, ops[..|ops| - 1], q);
      match ops[|ops| - 1]
      case PutOp(k, v) => UpsertIsMapUpdate(cmp, before, k, v, q);
      case RemoveOp(k) => EraseIsMapRemoval(cmp, before, k, q);
      case ClearOp =>
    }
  }
}
