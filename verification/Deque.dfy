/** `Deque` of `util/collections/deque/deque.go`: a ring buffer indexed with bit masks. */
module Deques {
  import opened Options
  import opened BitMask
  import opened RingView
  import Cost = DequeCost

  /** Go's `%`: the remainder has the sign of the dividend. */
  function Remainder(n: int, m: int): int
    requires m > 0
  {
    if n >= 0 then n % m else -((-n) % m)
  }

  /** Rotation of a sequence towards the front by `n` places, counted modulo its length. */
  function Rotated<T>(s: seq<T>, n: int): seq<T> {
    if s == [] then s else s[n % |s|..] + s[..n % |s|]
  }

  /** How many elements a rotation moves from the front to the back. */
  function Rounds<T>(s: seq<T>, n: int): nat {
    if |s| <= 1 then 0 else n % |s|
  }

  /** `src` written over `d` from position `at` on. */
  function Overwritten<T>(d: seq<T>, at: int, src: seq<T>): (r: seq<T>)
    requires 0 <= at <= at + |src| <= |d|
    ensures |r| == |d|
  {
    d[..at] + src + d[at + |src|..]
  }

  lemma OverwrittenOneMore<T>(d: seq<T>, at: int, src: seq<T>, x: T)
    requires 0 <= at <= at + |src| < |d|
    ensures Overwritten(d, at, src)[at + |src| := x] == Overwritten(d, at, src + [x])
  {
  }

  function Reversed<T>(s: seq<T>): (r: seq<T>)
    ensures |r| == |s| && forall i :: 0 <= i < |s| ==> r[i] == s[|s| - 1 - i]
  {
    seq(|s|, i requires 0 <= i < |s| => s[|s| - 1 - i])
  }

  /** The outer `i` elements on both sides already exchanged. */
  ghost function HalfReversed<T>(s: seq<T>, i: int): (r: seq<T>)
    requires 0 <= 2 * i <= |s| + 1
    ensures |r| == |s| && forall k :: 0 <= k < |s| ==> r[k] == if i <= k < |s| - i then s[k] else s[|s| - 1 - k]
  {
    seq(|s|, k requires 0 <= k < |s| => if i <= k < |s| - i then s[k] else s[|s| - 1 - k])
  }

  lemma ReverseStep<T>(s: seq<T>, i: int)
    requires 0 <= i && 2 * i < |s| - 1
    ensures var r, j := HalfReversed(s, i), |s| - 1 - i;
      r[i := r[j]][j := r[i]] == HalfReversed(s, i + 1)
  {
  }

  lemma ReverseStart<T>(s: seq<T>)
    ensures HalfReversed(s, 0) == s
  {
  }

  lemma ReverseEnd<T>(s: seq<T>, i: int)
    requires |s| - 1 <= 2 * i <= |s| + 1
    ensures HalfReversed(s, i) == Reversed(s)
  {
    forall k | 0 <= k < |s| ensures HalfReversed(s, i)[k] == Reversed(s)[k] {
    }
  }

  class Deque<T(0)> {
    var buf: array<T>
    var head: int
    var tail: int
    var count: int
    const zero: T
    /** Elements copied by `resize` so far. */
    ghost var copied: int

    ghost predicate Valid()
      reads this, buf
    {
      && buf.Length >= Cost.MIN_CAPACITY && IsPowerOfTwo(buf.Length)
      && 0 <= head < buf.Length && 0 <= count <= buf.Length
      && tail == Slot(head, count, buf.Length)
    }

    ghost function Contents(): (s: seq<T>)
      requires Valid()
      reads this, buf
      ensures |s| == count
    {
      View(buf[..], head, count)
    }

    ghost function Size(): Cost.Size
      reads this
    {
      Cost.Size(buf.Length, count)
    }

    constructor (zero: T)
      ensures Valid() && fresh(buf) && Contents() == [] && this.zero == zero
      ensures Size() == Cost.Size(Cost.MIN_CAPACITY, 0) && copied == 0
    {
      this.zero := zero;
      buf := new T[Cost.MIN_CAPACITY](_ => zero);
      head, tail, count, copied := 0, 0, 0, 0;
    }

    constructor WithCapacity(zero: T, capacity: int)
      ensures Valid() && fresh(buf) && Contents() == [] && this.zero == zero && copied == 0
      ensures buf.Length >= capacity && (buf.Length == Cost.MIN_CAPACITY || buf.Length / 2 < capacity)
    {
      var cap := Cost.MIN_CAPACITY;
      while cap < capacity
        invariant cap >= Cost.MIN_CAPACITY && IsPowerOfTwo(cap)
        invariant cap == Cost.MIN_CAPACITY || cap / 2 < capacity
        decreases capacity - cap
      {
        DoubledPower(cap);
        cap := 2 * cap;
      }
      this.zero := zero;
      buf := new T[cap](_ => zero);
      head, tail, count, copied := 0, 0, 0, 0;
    }

    /** `From`: room is made once, so nothing is ever copied. */
    static method From(zero: T, items: seq<T>) returns (d: Deque<T>)
      ensures fresh(d) && d.Valid() && fresh(d.buf) && d.Contents() == items && d.copied == 0
    {
      d := new Deque.WithCapacity(zero, |items|);
      var i := 0;
      while i < |items|
        invariant 0 <= i <= |items| <= d.buf.Length && d.Valid() && fresh(d.buf)
        invariant d.Contents() == items[..i] && d.copied == 0
      {
        d.PushBack(items[i]);
        i := i + 1;
      }
    }

    method Next(i: int) returns (r: int)
      requires Valid() && 0 <= i < buf.Length
      ensures r == Slot(i, 1, buf.Length) && 0 <= r < buf.Length
    {
      MaskedSlot(i, 1, buf.Length);
      r := And(i + 1, buf.Length - 1);
    }

    method Prev(i: int) returns (r: int)
      requires Valid() && 0 <= i < buf.Length
      ensures r == if i == 0 then buf.Length - 1 else i - 1
    {
      MaskedPrevious(i, buf.Length);
      r := And(i - 1, buf.Length - 1);
    }

    /** The slot of the element at a position. */
    method Index(i: int) returns (r: int)
      requires Valid() && 0 <= i < count
      ensures r == Slot(head, i, buf.Length) && 0 <= r < buf.Length
    {
      MaskedSlot(head, i, buf.Length);
      r := And(head + i, buf.Length - 1);
    }

    /** Go's `copy(dst[at:], src[lo:hi])`; the caller has made room. */
    method CopyInto(dst: array<T>, at: int, lo: int, hi: int)
      requires 0 <= lo <= hi <= buf.Length && 0 <= at <= at + hi - lo <= dst.Length && dst != buf
      modifies dst, this`copied
      ensures dst[..] == Overwritten(old(dst[..]), at, buf[lo..hi])
      ensures copied == old(copied) + hi - lo
    {
      var i := lo;
      while i < hi
        invariant lo <= i <= hi
        invariant dst[..] == Overwritten(old(dst[..]), at, buf[lo..i])
        invariant copied == old(copied) + i - lo
      {
        OverwrittenOneMore(old(dst[..]), at, buf[lo..i], buf[i]);
        assert buf[lo..i + 1] == buf[lo..i] + [buf[i]];
        dst[at + i - lo] := buf[i];
        copied := copied + 1;
        i := i + 1;
      }
    }

    /** The copying part of `resize`: the elements end up at the start of the new buffer, in order. */
    method CopyOut(newBuf: array<T>)
      requires Valid() && count < newBuf.Length && newBuf != buf
      modifies newBuf, this`copied
      ensures newBuf[..count] == Contents() && copied == old(copied) + count
    {
      if head < tail {
        CopyInto(newBuf, 0, head, tail);
      } else if count > 0 {
        var n := buf.Length - head;
        CopyInto(newBuf, 0, head, buf.Length);
        assert newBuf[..n] == buf[head..];
        CopyInto(newBuf, n, 0, tail);
        assert newBuf[..n] == buf[head..] && newBuf[n..count] == buf[..tail];
        assert newBuf[..count] == newBuf[..n] + newBuf[n..count];
      }
    }

    method Resize(newSize: int)
      requires Valid() && newSize >= Cost.MIN_CAPACITY && IsPowerOfTwo(newSize) && count < newSize
      modifies this
      ensures Valid() && fresh(buf) && Contents() == old(Contents())
      ensures buf.Length == newSize && count == old(count) && copied == old(copied) + count
    {
      var newBuf := new T[newSize](_ => zero);
      CopyOut(newBuf);
      buf := newBuf;
      head := 0;
      tail := count;
    }

    method GrowIfNeeded()
      requires Valid()
      modifies this
      ensures Valid() && (buf == old(buf) || fresh(buf)) && Contents() == old(Contents())
      ensures count < buf.Length && Cost.Size(buf.Length, count + 1) == Cost.Push(old(Size()))
      ensures copied == old(copied) + Cost.PushCost(old(Size()))
    {
      if count == buf.Length {
        DoubledPower(buf.Length);
        Resize(2 * buf.Length);
      }
    }

    method ShrinkIfNeeded()
      requires Valid()
      modifies this
      ensures Valid() && (buf == old(buf) || fresh(buf)) && Contents() == old(Contents())
      ensures Size() == Cost.Pop(Cost.Size(old(buf.Length), old(count) + 1))
      ensures copied == old(copied) + Cost.PopCost(Cost.Size(old(buf.Length), old(count) + 1))
    {
      if buf.Length > Cost.MIN_CAPACITY && count <= buf.Length / 4 {
        Cost.LargerPowers(buf.Length);
        Resize(buf.Length / 2);
      }
    }

    /** `PushFront` once there is room. */
    method StoreFront(item: T)
      requires Valid() && count < buf.Length
      modifies this`head, this`count, buf
      ensures Valid() && count == old(count) + 1 && Contents() == [item] + old(Contents())
    {
      ghost var b := buf[..];
      var h := Prev(head);
      PushedFront(b, h, head, count, item);
      head := h;
      buf[head] := item;
      count := count + 1;
      assert buf[..] == b[h := item];
    }

    /** `PushBack` once there is room. */
    method StoreBack(item: T)
      requires Valid() && count < buf.Length
      modifies this`tail, this`count, buf
      ensures Valid() && count == old(count) + 1 && Contents() == old(Contents()) + [item]
    {
      ghost var b := buf[..];
      PushedBack(b, head, count, item);
      buf[tail] := item;
      assert buf[..] == b[tail := item];
      tail := Next(tail);
      count := count + 1;
    }

    /** `PopFront` of a non-empty deque, before shrinking. */
    method TakeFront() returns (item: T)
      requires Valid() && count > 0
      modifies this`head, this`count, buf
      ensures Valid() && count == old(count) - 1
      ensures item == old(Contents()[0]) && Contents() == old(Contents()[1..])
    {
      ghost var b := buf[..];
      PoppedFront(b, head, count, zero);
      item := buf[head];
      buf[head] := zero;
      assert buf[..] == b[head := zero];
      head := Next(head);
      count := count - 1;
    }

    /** `PopBack` of a non-empty deque, before shrinking. */
    method TakeBack() returns (item: T)
      requires Valid() && count > 0
      modifies this`tail, this`count, buf
      ensures Valid() && count == old(count) - 1
      ensures item == old(Contents()[count - 1]) && Contents() == old(Contents()[..count - 1])
    {
      ghost var b := buf[..];
      PoppedBack(b, head, count, zero);
      tail := Prev(tail);
      item := buf[tail];
      buf[tail] := zero;
      assert buf[..] == b[tail := zero];
      count := count - 1;
    }

    method PushFront(item: T)
      requires Valid()
      modifies this, buf
      ensures Valid() && (buf == old(buf) || fresh(buf))
      ensures Contents() == [item] + old(Contents())
      ensures Size() == Cost.Push(old(Size())) && copied == old(copied) + Cost.PushCost(old(Size()))
    {
      GrowIfNeeded();
      StoreFront(item);
    }

    method PushBack(item: T)
      requires Valid()
      modifies this, buf
      ensures Valid() && (buf == old(buf) || fresh(buf))
      ensures Contents() == old(Contents()) + [item]
      ensures Size() == Cost.Push(old(Size())) && copied == old(copied) + Cost.PushCost(old(Size()))
    {
      GrowIfNeeded();
      StoreBack(item);
    }

    method PopFront() returns (r: Option<T>)
      requires Valid()
      modifies this, buf
      ensures Valid() && (buf == old(buf) || fresh(buf))
      ensures if old(Contents()) == [] then r == None && Contents() == []
              else r == Some(old(Contents()[0])) && Contents() == old(Contents()[1..])
      ensures Size() == Cost.Pop(old(Size())) && copied == old(copied) + Cost.PopCost(old(Size()))
    {
      if count == 0 {
        return None;
      }
      var item := TakeFront();
      ShrinkIfNeeded();
      r := Some(item);
    }

    method PopBack() returns (r: Option<T>)
      requires Valid()
      modifies this, buf
      ensures Valid() && (buf == old(buf) || fresh(buf))
      ensures if old(Contents()) == [] then r == None && Contents() == []
              else r == Some(old(Contents()[count - 1])) && Contents() == old(Contents()[..count - 1])
      ensures Size() == Cost.Pop(old(Size())) && copied == old(copied) + Cost.PopCost(old(Size()))
    {
      if count == 0 {
        return None;
      }
      var item := TakeBack();
      ShrinkIfNeeded();
      r := Some(item);
    }

    method At(index: int) returns (r: Option<T>)
      requires Valid()
      ensures r == if 0 <= index < |Contents()| then Some(Contents()[index]) else None
    {
      if index < 0 || index >= count {
        return None;
      }
      var i := Index(index);
      r := Some(buf[i]);
    }

    method Set(index: int, item: T) returns (ok: bool)
      requires Valid()
      modifies buf
      ensures Valid() && ok == (0 <= index < |old(Contents())|)
      ensures Size() == old(Size()) && copied == old(copied)
      ensures Contents() == if ok then old(Contents())[index := item] else old(Contents())
    {
      if index < 0 || index >= count {
        return false;
      }
      Updated(buf[..], head, count, index, item);
      ghost var b := buf[..];
      var i := Index(index);
      buf[i] := item;
      assert buf[..] == b[i := item];
      ok := true;
    }

    /** Empties the deque but keeps its buffer: see `CopiesAtMostThricePerPush` for later copying. */
    method Clear()
      requires Valid()
      modifies this`head, this`tail, this`count, buf
      ensures Valid() && Contents() == [] && forall i :: 0 <= i < buf.Length ==> buf[i] == zero
      ensures Size() == old(Size()).(count := 0) && copied == old(copied)
    {
      var i := 0;
      while i < buf.Length
        invariant 0 <= i <= buf.Length
        invariant forall j :: 0 <= j < i ==> buf[j] == zero
      {
        buf[i] := zero;
        i := i + 1;
      }
      head, tail, count := 0, 0, 0;
    }

    /** The body of the loop of `Rotate`. */
    method MoveFirstToBack()
      requires Valid() && count > 0
      modifies this, buf
      ensures Valid() && (buf == old(buf) || fresh(buf))
      ensures Contents() == old(Contents()[1..]) + [old(Contents()[0])]
      ensures Size() == Cost.Push(Cost.Pop(old(Size())))
      ensures copied == old(copied) + Cost.PopCost(old(Size())) + Cost.PushCost(Cost.Pop(old(Size())))
    {
      var item := PopFront();
      PushBack(item.value);
    }

    /** The loop of `Rotate`. */
    method MoveFirstsToBack(n: int)
      requires Valid() && 0 <= n < count
      modifies this, buf
      ensures Valid() && (buf == old(buf) || fresh(buf))
      ensures Contents() == old(Contents()[n..]) + old(Contents()[..n])
      ensures Cost.Rotated(old(Size()), old(copied), Size(), copied, n)
    {
      ghost var s := Contents();
      var i := 0;
      while i < n
        invariant 0 <= i <= n < |s| && Valid() && (buf == old(buf) || fresh(buf))
        invariant Contents() == s[i..] + s[..i]
        invariant Cost.Rotated(old(Size()), old(copied), Size(), copied, i)
      {
        RotateOnce(s, i);
        Cost.RotatedOnce(old(Size()), old(copied), Size(), copied, i);
        MoveFirstToBack();
        i := i + 1;
      }
    }

    /** `Rotate`: pops at the front and pushes at the back, `n` modulo the count times. */
    method Rotate(n0: int)
      requires Valid()
      modifies this, buf
      ensures Valid() && (buf == old(buf) || fresh(buf))
      ensures Contents() == Rotated(old(Contents()), n0)
      ensures Cost.Rotated(old(Size()), old(copied), Size(), copied, Rounds(old(Contents()), n0))
    {
      ghost var s := Contents();
      if count <= 1 {
        RotatedShort(s, n0);
        return;
      }
      var n := Remainder(n0, count);
      RotatedBy(s, n0, n);
      if n == 0 {
        return;
      }
      if n < 0 {
        n := n + count;
      }
      MoveFirstsToBack(n);
    }

    /** The body of the loop of `Reverse`. */
    method Swap(i: int, j: int)
      requires Valid() && 0 <= i < j < count
      modifies buf
      ensures Valid() && Contents() == old(Contents()[i := Contents()[j]][j := Contents()[i]])
    {
      ghost var b, x, y := buf[..], Contents()[i], Contents()[j];
      Updated(b, head, count, i, y);
      Updated(b[Slot(head, i, buf.Length) := y], head, count, j, x);
      var idxI := Index(i);
      var idxJ := Index(j);
      buf[idxI], buf[idxJ] := buf[idxJ], buf[idxI];
      assert buf[..] == b[idxI := y][idxJ := x];
    }

    method Reverse()
      requires Valid()
      modifies buf
      ensures Valid() && Contents() == Reversed(old(Contents()))
      ensures Size() == old(Size()) && copied == old(copied)
    {
      ghost var s := Contents();
      ReverseStart(s);
      var i, j := 0, count - 1;
      while i < j
        invariant 0 <= i <= j + 1 <= |s| && i + j == |s| - 1 && Valid()
        invariant Contents() == HalfReversed(s, i)
      {
        ReverseStep(s, i);
        Swap(i, j);
        i, j := i + 1, j - 1;
      }
      ReverseEnd(s, i);
    }
  }

  lemma RotateOnce<T>(s: seq<T>, i: int)
    requires 0 <= i < |s|
    ensures (s[i..] + s[..i])[1..] + [(s[i..] + s[..i])[0]] == s[i + 1..] + s[..i + 1]
  {
  }

  /** Go's remainder, made non-negative, is the mathematical modulus. */
  lemma RemainderIsModulo(n: int, m: int)
    requires m > 0
    ensures n % m == if Remainder(n, m) < 0 then Remainder(n, m) + m else Remainder(n, m)
  {
    NegatedModulo(-n, m);
  }

  lemma RotatedShort<T>(s: seq<T>, n: int)
    requires |s| <= 1
    ensures Rotated(s, n) == s && Rounds(s, n) == 0
  {
  }

  lemma RotatedBy<T>(s: seq<T>, n: int, r: int)
    requires |s| > 1 && r == Remainder(n, |s|)
    ensures var k := if r < 0 then r + |s| else r;
      0 <= k < |s| && Rotated(s, n) == s[k..] + s[..k] && Rounds(s, n) == k
    ensures r == 0 ==> Rotated(s, n) == s
  {
    RemainderIsModulo(n, |s|);
  }

  /** Rotating by one more takes the first element to the back. */
  lemma RotateOneMore<T>(s: seq<T>, n: int)
    requires s != []
    ensures Rotated(s, 0) == s
    ensures var r := Rotated(s, n); r != [] && Rotated(s, n + 1) == r[1..] + [r[0]]
  {
    NextModulo(n, |s|);
    var r, k := Rotated(s, n), n % |s|;
    if k == |s| - 1 {
      assert r[1..] + [r[0]] == s;
    } else {
      assert r[1..] + [r[0]] == s[k + 1..] + s[..k + 1];
    }
  }

  /** `Rotate(-n)` undoes `Rotate(n)`. */
  lemma RotateBack<T>(s: seq<T>, n: int)
    ensures Rotated(Rotated(s, n), -n) == s
  {
    if s != [] {
      NegatedModulo(n, |s|);
      RotateRest(s, n % |s|);
    }
  }

  lemma RotateRest<T>(s: seq<T>, k: int)
    requires 0 <= k < |s|
    ensures var r := s[k..] + s[..k]; var k' := if k == 0 then 0 else |s| - k; |r| == |s| && r[k'..] + r[..k'] == s
  {
  }
}
