/** `PriorityQueue` of `util/collections/priorityqueue/priority_queue.go`: a binary heap on a slice. */
module PriorityQueues {
  import opened Options

  /** What the doc comment of `LessFunc` asks for: a strict weak order. */
  ghost predicate StrictWeakOrder<T(!new)>(less: (T, T) -> bool) {
    forall a, b, c :: OrderAt(less, a, b, c)
  }

  ghost predicate OrderAt<T>(less: (T, T) -> bool, a: T, b: T, c: T) {
    && (less(a, b) ==> !less(b, a))
    && (!less(a, b) && !less(b, c) ==> !less(a, c))
  }

  lemma Order<T(!new)>(less: (T, T) -> bool, a: T, b: T, c: T)
    requires StrictWeakOrder(less)
    ensures !less(a, a) && (less(a, b) ==> !less(b, a))
    ensures !less(a, b) && !less(b, c) ==> !less(a, c)
    ensures less(a, b) && less(b, c) ==> less(a, c)
    ensures less(a, b) && !less(c, b) ==> !less(c, a)
  {
    assert OrderAt(less, a, a, a) && OrderAt(less, a, b, c) && OrderAt(less, a, c, b) && OrderAt(less, b, c, a)
        && OrderAt(less, c, a, b);
    assert OrderAt(less, b, a, c) && OrderAt(less, c, b, a);
  }

  function Parent(i: int): int {
    (i - 1) / 2
  }

  /** The element at `j` does not come before its parent. */
  predicate OrderedAt<T>(less: (T, T) -> bool, d: seq<T>, j: int)
    requires 1 <= j < |d|
  {
    !less(d[j], d[Parent(j)])
  }

  ghost predicate IsHeap<T>(less: (T, T) -> bool, d: seq<T>) {
    forall j :: 1 <= j < |d| ==> OrderedAt(less, d, j)
  }

  /** A heap but for the edge above `i`; the children of `i` respect the parent of `i`. */
  ghost predicate HeapButAbove<T>(less: (T, T) -> bool, d: seq<T>, i: int)
    requires 0 <= i < |d|
  {
    && (forall j :: 1 <= j < |d| && j != i ==> OrderedAt(less, d, j))
    && (forall j :: 1 <= j < |d| && Parent(j) == i && i > 0 ==> !less(d[j], d[Parent(i)]))
  }

  /** A heap but for the edges below `i`; the children of `i` respect the parent of `i`. */
  ghost predicate HeapButBelow<T>(less: (T, T) -> bool, d: seq<T>, i: int)
    requires 0 <= i < |d|
  {
    && (forall j :: 1 <= j < |d| && Parent(j) != i ==> OrderedAt(less, d, j))
    && (forall j :: 1 <= j < |d| && Parent(j) == i && i > 0 ==> !less(d[j], d[Parent(i)]))
  }

  function Swap<T>(d: seq<T>, i: int, j: int): (r: seq<T>)
    requires 0 <= i < |d| && 0 <= j < |d|
    ensures |r| == |d| && multiset(r) == multiset(d)
  {
    d[i := d[j]][j := d[i]]
  }

  lemma UpStep<T(!new)>(less: (T, T) -> bool, d: seq<T>, i: int)
    requires StrictWeakOrder(less) && 0 < i < |d| && HeapButAbove(less, d, i) && less(d[i], d[Parent(i)])
    ensures HeapButAbove(less, Swap(d, i, Parent(i)), Parent(i))
  {
    var p := Parent(i);
    var d' := Swap(d, i, p);
    Order(less, d[i], d[p], d[p]);
    forall j | 1 <= j < |d'| && j != p ensures OrderedAt(less, d', j) {
      if j == i {
        assert d'[j] == d[p] && d'[p] == d[i];
      } else if Parent(j) == p {
        assert OrderedAt(less, d, j);
        Order(less, d[i], d[p], d[j]);
      } else if Parent(j) == i {
        assert !less(d[j], d[Parent(i)]);
      } else {
        assert OrderedAt(less, d, j);
      }
    }
    forall j | 1 <= j < |d'| && Parent(j) == p && p > 0 ensures !less(d'[j], d'[Parent(p)]) {
      assert OrderedAt(less, d, p);
      if j != i {
        assert OrderedAt(less, d, j);
        Order(less, d[j], d[p], d[Parent(p)]);
      }
    }
  }

  /** The child that `down` compares with: the right one only if it comes before the left one. */
  function FirstChild<T>(less: (T, T) -> bool, d: seq<T>, i: int): int
    requires 0 <= i && 2 * i + 1 < |d|
  {
    if 2 * i + 2 < |d| && less(d[2 * i + 2], d[2 * i + 1]) then 2 * i + 2 else 2 * i + 1
  }

  lemma FirstChildIsFirst<T(!new)>(less: (T, T) -> bool, d: seq<T>, i: int, j: int)
    requires StrictWeakOrder(less) && 0 <= i && 2 * i + 1 < |d| && 1 <= j < |d| && Parent(j) == i
    ensures !less(d[j], d[FirstChild(less, d, i)]) && Parent(FirstChild(less, d, i)) == i
  {
    Order(less, d[2 * i + 1], d[2 * i + 1], d[2 * i + 1]);
    assert j == 2 * i + 1 || j == 2 * i + 2;
    Order(less, d[j], d[2 * i + 1], d[j]);
    Order(less, d[FirstChild(less, d, i)], d[2 * i + 1], d[j]);
  }

  /** `down` swaps unless the element comes strictly before the child, so also when they are equal. */
  lemma DownStep<T(!new)>(less: (T, T) -> bool, d: seq<T>, i: int)
    requires StrictWeakOrder(less) && 0 <= i && 2 * i + 1 < |d| && HeapButBelow(less, d, i)
    requires !less(d[i], d[FirstChild(less, d, i)])
    ensures HeapButBelow(less, Swap(d, i, FirstChild(less, d, i)), FirstChild(less, d, i))
  {
    var c := FirstChild(less, d, i);
    var d' := Swap(d, i, c);
    forall j | 1 <= j < |d'| && Parent(j) != c ensures OrderedAt(less, d', j) {
      if Parent(j) == i {
        FirstChildIsFirst(less, d, i, j);
      } else if j == i {
        assert !less(d[c], d[Parent(i)]);
      } else {
        assert OrderedAt(less, d, j);
      }
    }
    forall j | 1 <= j < |d'| && Parent(j) == c && c > 0 ensures !less(d'[j], d'[Parent(c)]) {
      assert OrderedAt(less, d, j);
    }
  }

  lemma DownDone<T(!new)>(less: (T, T) -> bool, d: seq<T>, i: int)
    requires StrictWeakOrder(less) && 0 <= i < |d| && HeapButBelow(less, d, i)
    requires 2 * i + 1 >= |d| || less(d[i], d[FirstChild(less, d, i)])
    ensures IsHeap(less, d)
  {
    forall j | 1 <= j < |d| ensures OrderedAt(less, d, j) {
      if Parent(j) == i {
        var c := FirstChild(less, d, i);
        FirstChildIsFirst(less, d, i, j);
        Order(less, d[i], d[c], d[j]);
      }
    }
  }

  lemma Appended<T>(less: (T, T) -> bool, d: seq<T>, x: T)
    requires IsHeap(less, d)
    ensures HeapButAbove(less, d + [x], |d|)
  {
    forall j | 1 <= j < |d| ensures OrderedAt(less, d + [x], j) {
      assert OrderedAt(less, d, j);
    }
  }

  /** The last element in the place of the first one. */
  function Promoted<T>(d: seq<T>): seq<T>
    requires d != []
  {
    d[0 := d[|d| - 1]][..|d| - 1]
  }

  lemma PromotedHeap<T>(less: (T, T) -> bool, d: seq<T>)
    requires IsHeap(less, d) && d != []
    ensures |d| > 1 ==> HeapButBelow(less, Promoted(d), 0)
  {
    var p := Promoted(d);
    forall j | 1 <= j < |p| && Parent(j) != 0 ensures OrderedAt(less, p, j) {
      assert OrderedAt(less, d, j);
    }
  }

  lemma PromotedElements<T>(d: seq<T>)
    requires d != []
    ensures multiset(d) == multiset(Promoted(d)) + multiset{d[0]}
  {
    var n := |d| - 1;
    if n > 0 {
      assert d == [d[0]] + d[1..n] + [d[n]];
      assert Promoted(d) == [d[n]] + d[1..n];
    } else {
      assert d == [d[0]];
    }
  }

  /** Nothing in a heap comes before its root. */
  lemma {:induction false} RootIsFirst<T(!new)>(less: (T, T) -> bool, d: seq<T>, j: int)
    requires StrictWeakOrder(less) && IsHeap(less, d) && 0 <= j < |d|
    ensures !less(d[j], d[0])
    decreases j
  {
    if j == 0 {
      Order(less, d[0], d[0], d[0]);
    } else {
      RootIsFirst(less, d, Parent(j));
      assert OrderedAt(less, d, j);
      Order(less, d[j], d[Parent(j)], d[0]);
    }
  }

  class PriorityQueue<T(!new)> {
    const less: (T, T) -> bool
    var data: seq<T>

    ghost predicate Valid()
      reads this
    {
      StrictWeakOrder(less) && IsHeap(less, data)
    }

    constructor (less: (T, T) -> bool)
      requires StrictWeakOrder(less)
      ensures Valid() && this.less == less && data == []
    {
      this.less := less;
      data := [];
    }

    method Up(i0: int)
      requires StrictWeakOrder(less) && 0 <= i0 < |data| && HeapButAbove(less, data, i0)
      modifies this
      ensures Valid() && multiset(data) == multiset(old(data)) && |data| == old(|data|)
    {
      var i := i0;
      while i > 0
        invariant 0 <= i < |data| && HeapButAbove(less, data, i)
        invariant multiset(data) == multiset(old(data)) && |data| == old(|data|)
      {
        var parent := (i - 1) / 2;
        if !less(data[i], data[parent]) {
          break;
        }
        UpStep(less, data, i);
        data := Swap(data, i, parent);
        i := parent;
      }
    }

    method Down(i0: int)
      requires StrictWeakOrder(less) && 0 <= i0 < |data| && HeapButBelow(less, data, i0)
      modifies this
      ensures Valid() && multiset(data) == multiset(old(data)) && |data| == old(|data|)
    {
      var i, n := i0, |data|;
      while true
        invariant 0 <= i < |data| == n && HeapButBelow(less, data, i)
        invariant multiset(data) == multiset(old(data))
        decreases n - i
      {
        var left := 2 * i + 1;
        if left >= n {
          break;
        }
        var smallest, right := left, left + 1;
        if right < n && less(data[right], data[left]) {
          smallest := right;
        }
        assert smallest == FirstChild(less, data, i);
        if less(data[i], data[smallest]) {
          break;
        }
        DownStep(less, data, i);
        data := Swap(data, i, smallest);
        i := smallest;
      }
      DownDone(less, data, i);
    }

    method Push(items: seq<T>)
      requires Valid()
      modifies this
      ensures Valid() && multiset(data) == multiset(old(data)) + multiset(items)
    {
      var i := 0;
      while i < |items|
        invariant 0 <= i <= |items| && Valid()
        invariant multiset(data) == multiset(old(data)) + multiset(items[..i])
      {
        assert items[..i + 1] == items[..i] + [items[i]];
        Appended(less, data, items[i]);
        data := data + [items[i]];
        Up(|data| - 1);
        i := i + 1;
      }
      assert items[..|items|] == items;
    }

    /** Returns an element that nothing else in the queue comes before, and takes out just that one. */
    method Pop() returns (r: Option<T>)
      requires Valid()
      modifies this
      ensures Valid() && (r == None <==> old(data) == [])
      ensures r.None? ==> data == old(data)
      ensures r.Some? ==> multiset(old(data)) == multiset(data) + multiset{r.value} && |data| == |old(data)| - 1
      ensures r.Some? ==> r.value in old(data) && forall x :: x in old(data) ==> !less(x, r.value)
    {
      if |data| == 0 {
        return None;
      }
      var top, last := data[0], |data| - 1;
      forall x | x in data ensures !less(x, top) {
        var j :| 0 <= j < |data| && data[j] == x;
        RootIsFirst(less, data, j);
      }
      PromotedHeap(less, data);
      PromotedElements(data);
      data := data[0 := data[last]];
      data := data[..last];
      if |data| > 0 {
        Down(0);
      }
      r := Some(top);
    }

    /** Heap sort: the queue's contents in order; the queue is left empty. */
    method ToSlice() returns (result: seq<T>)
      requires Valid()
      modifies this
      ensures Valid() && data == [] && multiset(result) == multiset(old(data))
      ensures forall i, j :: 0 <= i < j < |result| ==> !less(result[j], result[i])
    {
      result := [];
      while |data| > 0
        invariant Valid() && multiset(result) + multiset(data) == multiset(old(data))
        invariant forall i, j :: 0 <= i < j < |result| ==> !less(result[j], result[i])
        invariant forall i, x :: 0 <= i < |result| && x in data ==> !less(x, result[i])
        decreases |data|
      {
        ghost var before := data;
        var item := Pop();
        forall x | x in data ensures x in before {
          assert x in multiset(data) && x in multiset(before);
        }
        result := result + [item.value];
      }
    }
  }
}
