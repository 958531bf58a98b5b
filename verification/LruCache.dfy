/** `LRUCache` of `util/collections/lrucache/lru_cache.go`: a hash map plus a doubly linked list between
    two sentinels.  Every operation is proved to do to `Contents()` what its namesake in `RecencyList` does. */
module LruCaches {
  import opened Options
  import opened RecencyList

  class Entry<K, V> {
    var key: K
    var value: V
    var prev: Entry?<K, V>
    var next: Entry?<K, V>

    constructor (key: K, value: V)
      ensures this.key == key && this.value == value
    {
      this.key, this.value, prev, next := key, value, null, null;
    }
  }

  /** Both link directions agree along the chain, and no entry occurs twice. */
  ghost predicate Linked<K, V>(chain: seq<Entry<K, V>>)
    reads chain
  {
    && |chain| >= 2
    && (forall i, j :: 0 <= i < j < |chain| ==> chain[i] != chain[j])
    && (forall i :: 0 <= i < |chain| - 1 ==> chain[i].next == chain[i + 1])
    && (forall i :: 1 <= i < |chain| ==> chain[i].prev == chain[i - 1])
  }

  /** The hash map that leads from the key of every pair to the entry at the same place. */
  ghost function IndexOf<E, K, V>(es: seq<E>, s: seq<(K, V)>): map<K, E>
    requires |es| == |s|
  {
    if s == [] then map[] else IndexOf(es[1..], s[1..])[s[0].0 := es[0]]
  }

  ghost predicate Indexed<E, K, V>(es: seq<E>, s: seq<(K, V)>, cache: map<K, E>) {
    |es| == |s| && DistinctKeys(s) && cache == IndexOf(es, s)
  }

  ghost function Pairs<K, V>(es: seq<Entry<K, V>>): (s: seq<(K, V)>)
    reads es
    ensures |s| == |es| && forall i :: 0 <= i < |es| ==> s[i] == (es[i].key, es[i].value)
  {
    if es == [] then [] else [(es[0].key, es[0].value)] + Pairs(es[1..])
  }

  ghost function Drop<T>(s: seq<T>, i: int): seq<T>
    requires 0 <= i < |s|
  {
    s[..i] + s[i + 1..]
  }

  /** The index has exactly the keys of the list, one each. */
  lemma {:induction false} IndexOfKeys<E, K, V>(es: seq<E>, s: seq<(K, V)>, k: K)
    requires |es| == |s| && DistinctKeys(s)
    ensures |IndexOf(es, s)| == |s|
    ensures if k in IndexOf(es, s) then exists i :: 0 <= i < |s| && s[i].0 == k
            else forall i :: 0 <= i < |s| ==> s[i].0 != k
  {
    if s != [] {
      IndexOfKeys(es[1..], s[1..], k);
      IndexOfKeys(es[1..], s[1..], s[0].0);
      if k in IndexOf(es[1..], s[1..]) {
        var i :| 0 <= i < |s[1..]| && s[1..][i].0 == k;
        assert s[i + 1].0 == k;
      } else if k == s[0].0 {
        assert s[0].0 == k;
      }
    }
  }

  lemma {:induction false} IndexOfAt<E, K, V>(es: seq<E>, s: seq<(K, V)>, i: int)
    requires |es| == |s| && DistinctKeys(s) && 0 <= i < |s|
    ensures s[i].0 in IndexOf(es, s) && IndexOf(es, s)[s[i].0] == es[i]
  {
    if i > 0 {
      IndexOfAt(es[1..], s[1..], i - 1);
    }
  }

  lemma {:induction false} IndexOfDrop<E, K, V>(es: seq<E>, s: seq<(K, V)>, i: int)
    requires |es| == |s| && DistinctKeys(s) && 0 <= i < |s|
    ensures IndexOf(Drop(es, i), Drop(s, i)) == IndexOf(es, s) - {s[i].0}
  {
    if i == 0 {
      IndexOfKeys(es[1..], s[1..], s[0].0);
      assert Drop(es, 0) == es[1..] && Drop(s, 0) == s[1..];
    } else {
      var k := s[i].0;
      IndexOfDrop(es[1..], s[1..], i - 1);
      assert Drop(s, i)[1..] == Drop(s[1..], i - 1) && Drop(es, i)[1..] == Drop(es[1..], i - 1);
      assert Drop(s, i)[0] == s[0] && Drop(es, i)[0] == es[0] && s[0].0 != k;
      assert (IndexOf(es[1..], s[1..]) - {k})[s[0].0 := es[0]] == IndexOf(es[1..], s[1..])[s[0].0 := es[0]] - {k};
    }
  }

  lemma IndexedDrop<E, K, V>(es: seq<E>, s: seq<(K, V)>, cache: map<K, E>, i: int)
    requires Indexed(es, s, cache) && 0 <= i < |s|
    ensures Indexed(Drop(es, i), Drop(s, i), cache - {s[i].0})
  {
    IndexOfDrop(es, s, i);
  }

  lemma IndexedAdd<E, K, V>(es: seq<E>, s: seq<(K, V)>, cache: map<K, E>, e: E, k: K, v: V)
    requires Indexed(es, s, cache) && k !in cache
    ensures Indexed([e] + es, [(k, v)] + s, cache[k := e])
  {
    IndexOfKeys(es, s, k);
    assert ([e] + es)[1..] == es && ([(k, v)] + s)[1..] == s;
  }

  lemma IndexedMove<E, K, V>(es: seq<E>, s: seq<(K, V)>, cache: map<K, E>, i: int, v: V)
    requires Indexed(es, s, cache) && 0 <= i < |s|
    ensures Indexed([es[i]] + Drop(es, i), [(s[i].0, v)] + Drop(s, i), cache)
  {
    IndexOfAt(es, s, i);
    IndexedDrop(es, s, cache, i);
    IndexedAdd(Drop(es, i), Drop(s, i), cache - {s[i].0}, es[i], s[i].0, v);
    assert (cache - {s[i].0})[s[i].0 := es[i]] == cache;
  }

  class LRUCache<K(==, 0), V(0)> {
    var capacity: int
    var cache: map<K, Entry<K, V>>
    const head: Entry<K, V>
    const tail: Entry<K, V>
    /** Sentinel, entries from most to least recently used, sentinel. */
    ghost var chain: seq<Entry<K, V>>
    /** All entries this cache has ever owned. */
    ghost var repr: set<Entry<K, V>>

    ghost predicate Framed()
      reads this`chain, this`repr, repr
    {
      (forall i :: 0 <= i < |chain| ==> chain[i] in repr) && Linked(chain) && chain[0] == head
          && chain[|chain| - 1] == tail
    }

    /** The entries between the sentinels, and what they hold. */
    ghost function Inner(): seq<Entry<K, V>>
      requires |chain| >= 2
      reads this`chain
    {
      chain[1..|chain| - 1]
    }

    ghost function Contents(): seq<(K, V)>
      requires |chain| >= 2
      reads this`chain, chain
    {
      Pairs(Inner())
    }

    ghost predicate Valid()
      reads this, repr
    {
      Framed() && Indexed(Inner(), Contents(), cache) && 1 <= capacity && |cache| <= capacity
    }

    constructor (capacity: int)
      ensures Valid() && Contents() == [] && fresh(repr)
      ensures this.capacity == if capacity <= 0 then 1 else capacity
    {
      this.capacity := if capacity <= 0 then 1 else capacity;
      var k: K := *;
      var v: V := *;
      head := new Entry(k, v);
      tail := new Entry(k, v);
      cache := map[];
      new;
      head.next := tail;
      tail.prev := head;
      chain, repr := [head, tail], {head, tail};
    }

    /** Where the hash map's entry for a key stands, and what the abstract list says about the key. */
    lemma Find(key: K) returns (i: int)
      requires Framed() && Indexed(Inner(), Contents(), cache)
      ensures key in cache ==> 0 <= i < |Inner()| && Inner()[i] == cache[key] && Contents()[i].0 == key
      ensures key in cache ==> RecencyList.Peek(Contents(), key) == Some(cache[key].value)
      ensures key in cache ==> Without(Contents(), key) == Drop(Contents(), i)
      ensures key !in cache ==> RecencyList.Peek(Contents(), key) == None && Without(Contents(), key) == Contents()
    {
      IndexOfKeys(Inner(), Contents(), key);
      if key in cache {
        i :| 0 <= i < |Contents()| && Contents()[i].0 == key;
        IndexOfAt(Inner(), Contents(), i);
        WithoutAt(Contents(), i);
      } else {
        i := 0;
        WithoutMissing(Contents(), key);
      }
    }

    /** The two pointer writes of `removeEntry`. */
    method Unlink(e: Entry<K, V>, ghost i: int)
      requires Framed() && 1 <= i < |chain| - 1 && chain[i] == e
      modifies this`chain, {chain[i - 1]}`next, {chain[i + 1]}`prev
      ensures Framed() && chain == Drop(old(chain), i)
    {
      e.prev.next := e.next;
      e.next.prev := e.prev;
      chain := Drop(chain, i);
    }

    /** `removeEntry`: unlinks the entry at position `i`. */
    method RemoveEntry(e: Entry<K, V>, ghost i: int)
      requires Framed() && 0 <= i < |Inner()| && Inner()[i] == e
      modifies this`chain, repr
      ensures Framed() && Inner() == Drop(old(Inner()), i) && chain == Drop(old(chain), i + 1)
      ensures Contents() == Drop(old(Contents()), i)
      ensures forall x :: x in old(chain) ==> x.key == old(x.key) && x.value == old(x.value)
    {
      ghost var inner := Inner();
      assert chain[i + 1] == e;
      Unlink(e, i + 1);
      assert Inner() == Drop(inner, i);
    }

    method AddToFront(e: Entry<K, V>)
      requires Framed() && e !in chain && e in repr
      modifies this`chain, e`prev, e`next, head`next, {chain[1]}`prev
      ensures Framed() && chain == old([chain[0], e] + chain[1..]) && Inner() == [e] + old(Inner())
      ensures Contents() == [(e.key, e.value)] + old(Contents())
    {
      ghost var inner := Inner();
      e.prev := head;
      e.next := head.next;
      head.next.prev := e;
      head.next := e;
      chain := [chain[0], e] + chain[1..];
      assert Inner() == [e] + inner;
    }

    method MoveToFront(e: Entry<K, V>, ghost i: int)
      requires Framed() && 0 <= i < |Inner()| && Inner()[i] == e
      modifies this`chain, repr
      ensures Framed() && Inner() == [e] + Drop(old(Inner()), i)
      ensures Contents() == [(e.key, e.value)] + Drop(old(Contents()), i)
      ensures e.key == old(e.key) && e.value == old(e.value)
    {
      assert e == chain[i + 1];
      RemoveEntry(e, i);
      AddToFront(e);
    }

    /** The index has one key per entry. */
    lemma Sizes()
      requires Framed() && Indexed(Inner(), Contents(), cache)
      ensures |cache| == |Contents()|
      ensures Contents() != [] ==>
        var n := |Contents()| - 1; chain[n + 1] == Inner()[n] && Inner()[n].key == Contents()[n].0
    {
      if Contents() != [] {
        IndexOfKeys(Inner(), Contents(), Contents()[0].0);
      }
    }

    /** Unlinks the entry at position `i` and forgets its key. */
    method Detach(e: Entry<K, V>, key: K, ghost i: int)
      requires Framed() && Indexed(Inner(), Contents(), cache)
      requires 0 <= i < |Inner()| && Inner()[i] == e && key == Contents()[i].0
      modifies this`chain, this`cache, repr
      ensures Framed() && Indexed(Inner(), Contents(), cache)
      ensures Contents() == Drop(old(Contents()), i) && cache == old(cache) - {key}
      ensures |cache| == |Contents()|
    {
      IndexedDrop(Inner(), Contents(), cache, i);
      RemoveEntry(e, i);
      cache := cache - {key};
      Sizes();
    }

    method RemoveLast()
      requires Framed() && Indexed(Inner(), Contents(), cache)
      modifies this`chain, this`cache, repr
      ensures Framed() && Indexed(Inner(), Contents(), cache)
      ensures Contents() == if old(Contents()) == [] then [] else old(Contents()[..|Contents()| - 1])
      ensures cache.Keys <= old(cache.Keys)
    {
      Sizes();
      var last := tail.prev;
      assert last == chain[|chain| - 2];
      if last != head {
        ghost var s, n := Contents(), |Contents()| - 1;
        Detach(last, last.key, n);
        assert Drop(s, n) == s[..n];
      }
    }

    method Get(key: K) returns (r: Option<V>)
      requires Valid()
      modifies this`chain, repr
      ensures Valid() && r == RecencyList.Peek(old(Contents()), key)
      ensures Contents() == RecencyList.Get(old(Contents()), key)
    {
      ghost var i := Find(key);
      if key in cache {
        var e := cache[key];
        IndexedMove(Inner(), Contents(), cache, i, e.value);
        MoveToFront(e, i);
        return Some(e.value);
      }
      r := None;
    }

    method AddNew(e: Entry<K, V>)
      requires Framed() && Indexed(Inner(), Contents(), cache) && e.key !in cache && e !in repr
      modifies this`chain, this`repr, this`cache, repr, e`prev, e`next
      ensures Framed() && Indexed(Inner(), Contents(), cache) && repr == old(repr) + {e}
      ensures Contents() == [(e.key, e.value)] + old(Contents())
    {
      ghost var es, s, k, v := Inner(), Contents(), e.key, e.value;
      IndexedAdd(es, s, cache, e, k, v);
      cache := cache[e.key := e];
      repr := repr + {e};
      assert Framed() && Inner() == es && Contents() == s;
      AddToFront(e);
      assert Inner() == [e] + es && Contents() == [(k, v)] + s;
    }

    /** A full cache loses its least recently used entry. */
    method MakeRoom()
      requires Valid()
      modifies this`chain, this`cache, repr
      ensures Framed() && Indexed(Inner(), Contents(), cache) && |Contents()| < capacity
      ensures Contents() == Evict(old(Contents()), capacity) && cache.Keys <= old(cache.Keys)
    {
      Sizes();
      if |cache| >= capacity {
        RemoveLast();
      }
    }

    /** The branch of `Put` and `GetOrPut` for a key that is not there. */
    method Insert(key: K, value: V)
      requires Valid() && key !in cache
      modifies this`chain, this`repr, this`cache, repr
      ensures fresh(repr - old(repr))
      ensures Valid() && Contents() == [(key, value)] + Evict(old(Contents()), capacity)
    {
      MakeRoom();
      var e := new Entry(key, value);
      AddNew(e);
      Sizes();
    }

    /** The branch of `Put` for a key that is there. */
    method Update(e: Entry<K, V>, value: V, ghost i: int)
      requires Framed() && 0 <= i < |Inner()| && Inner()[i] == e
      modifies this`chain, repr
      ensures Framed() && Inner() == [e] + Drop(old(Inner()), i)
      ensures Contents() == [(old(e.key), value)] + Drop(old(Contents()), i)
    {
      ghost var s := Contents();
      assert e == chain[i + 1];
      e.value := value;
      assert Contents() == s[i := (e.key, value)];
      MoveToFront(e, i);
    }

    method Put(key: K, value: V)
      requires Valid()
      modifies this`chain, this`repr, this`cache, repr
      ensures fresh(repr - old(repr))
      ensures Valid()
      ensures Contents() == RecencyList.Put(old(Contents()), capacity, key, value)
      ensures Contents() != [] && Contents()[0] == (key, value)
    {
      ghost var i := Find(key);
      if key in cache {
        var e := cache[key];
        IndexedMove(Inner(), Contents(), cache, i, value);
        Update(e, value, i);
        return;
      }
      Insert(key, value);
    }

    /** `loaded` is what the loader returns; it is only called, and only matters, on a miss. */
    method GetOrPut(key: K, loader: () -> V) returns (v: V)
      requires Valid()
      modifies this`chain, this`repr, this`cache, repr
      ensures fresh(repr - old(repr))
      ensures Valid() && v == RecencyList.Peek(old(Contents()), key).GetOr(loader())
      ensures Contents() == RecencyList.GetOrPut(old(Contents()), capacity, key, loader())
      ensures Contents() != [] && Contents()[0] == (key, v)
    {
      ghost var i := Find(key);
      if key in cache {
        var e := cache[key];
        IndexedMove(Inner(), Contents(), cache, i, e.value);
        MoveToFront(e, i);
        return e.value;
      }
      v := loader();
      Insert(key, v);
    }

    method Remove(key: K) returns (removed: bool)
      requires Valid()
      modifies this`chain, this`cache, repr
      ensures Valid() && removed == RecencyList.Peek(old(Contents()), key).Some?
      ensures Contents() == Without(old(Contents()), key)
    {
      ghost var i := Find(key);
      Sizes();
      if key in cache {
        var e := cache[key];
        Detach(e, key, i);
        return true;
      }
      removed := false;
    }

    method Clear()
      requires Valid()
      modifies this`chain, this`cache, head`next, tail`prev
      ensures Valid() && Contents() == []
    {
      cache := map[];
      head.next := tail;
      tail.prev := head;
      chain := [head, tail];
    }

    method Keys() returns (keys: seq<K>)
      requires Valid()
      ensures keys == RecencyList.Keys(Contents())
    {
      keys := [];
      var e := head.next;
      ghost var i := 0;
      while e != tail
        invariant 0 <= i <= |Inner()| && e == chain[i + 1]
        invariant keys == RecencyList.Keys(Contents())[..i]
        decreases |Inner()| - i
      {
        assert i < |Inner()| && Inner()[i] == e;
        keys := keys + [e.key];
        e := e.next;
        i := i + 1;
      }
    }

    /** The eviction loop of `Resize`. */
    method Shrink(bound: int)
      requires Framed() && Indexed(Inner(), Contents(), cache) && bound >= 1
      modifies this`chain, this`cache, repr
      ensures Framed() && Indexed(Inner(), Contents(), cache) && |cache| <= bound
      ensures Contents() == RecencyList.Resize(old(Contents()), bound)
    {
      Sizes();
      ghost var s, m := Contents(), |Contents()|;
      while |cache| > bound
        invariant Framed() && Indexed(Inner(), Contents(), cache)
        invariant |cache| == m <= |s| && Contents() == s[..m]
        invariant m < |s| ==> m >= bound
      {
        RemoveLast();
        Sizes();
        m := m - 1;
      }
    }

    method Resize(newCapacity: int)
      requires Valid()
      modifies this`capacity, this`chain, this`cache, repr
      ensures Valid() && capacity == if newCapacity <= 0 then 1 else newCapacity
      ensures Contents() == RecencyList.Resize(old(Contents()), capacity)
    {
      capacity := if newCapacity <= 0 then 1 else newCapacity;
      Shrink(capacity);
    }
  }
}
