/** A window of a ring buffer, read from its head, as a sequence. */
module RingView {
  import opened BitMask

  /** The slot `i` places after `head`. */
  function Slot(head: int, i: int, n: int): int {
    if head + i < n then head + i else head + i - n
  }

  lemma MaskedSlot(head: int, i: int, n: int)
    requires IsPowerOfTwo(n) && 0 <= head < n && 0 <= i <= n
    ensures And(head + i, n - 1) == Slot(head, i, n)
    ensures 0 <= Slot(head, i, n) < n
  {
    MaskIsModulo(head + i, n);
    ModuloIsUnique(head + i, n, if head + i < n then 0 else 1, Slot(head, i, n));
  }

  /** The slot before `i`: masking -1 wraps to the last slot. */
  lemma MaskedPrevious(i: int, n: int)
    requires IsPowerOfTwo(n) && 0 <= i < n
    ensures And(i - 1, n - 1) == if i == 0 then n - 1 else i - 1
  {
    MaskIsModulo(i - 1, n);
    ModuloIsUnique(i - 1, n, if i == 0 then -1 else 0, if i == 0 then n - 1 else i - 1);
  }

  function View<T>(b: seq<T>, head: int, count: int): (s: seq<T>)
    requires 0 <= head < |b| && 0 <= count <= |b|
    ensures |s| == count && forall i :: 0 <= i < count ==> s[i] == b[Slot(head, i, |b|)]
  {
    if head + count <= |b| then b[head..head + count] else b[head..] + b[..head + count - |b|]
  }

  lemma PushedBack<T>(b: seq<T>, head: int, count: int, x: T)
    requires 0 <= head < |b| && 0 <= count < |b|
    ensures View(b[Slot(head, count, |b|) := x], head, count + 1) == View(b, head, count) + [x]
  {
  }

  lemma PushedFront<T>(b: seq<T>, h: int, head: int, count: int, x: T)
    requires 0 <= head < |b| && 0 <= count < |b|
    requires h == if head == 0 then |b| - 1 else head - 1
    ensures View(b[h := x], h, count + 1) == [x] + View(b, head, count)
    ensures Slot(h, count + 1, |b|) == Slot(head, count, |b|)
  {
    var v, w := View(b[h := x], h, count + 1), View(b, head, count);
    forall i | 1 <= i <= count ensures v[i] == w[i - 1] {
      assert Slot(h, i, |b|) == Slot(head, i - 1, |b|);
    }
  }

  lemma PoppedFront<T>(b: seq<T>, head: int, count: int, zero: T)
    requires 0 <= head < |b| && 0 < count <= |b|
    ensures View(b[head := zero], Slot(head, 1, |b|), count - 1) == View(b, head, count)[1..]
  {
  }

  lemma PoppedBack<T>(b: seq<T>, head: int, count: int, zero: T)
    requires 0 <= head < |b| && 0 < count <= |b|
    ensures View(b[Slot(head, count - 1, |b|) := zero], head, count - 1) == View(b, head, count)[..count - 1]
  {
  }

  lemma Updated<T>(b: seq<T>, head: int, count: int, i: int, x: T)
    requires 0 <= head < |b| && 0 <= i < count <= |b|
    ensures View(b[Slot(head, i, |b|) := x], head, count) == View(b, head, count)[i := x]
  {
  }
}
