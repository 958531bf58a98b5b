/** What a double-ended queue pays for copying when it grows and shrinks: an amortised bound over runs. */
module DequeCost {
  import opened BitMask

  const MIN_CAPACITY := 8

  datatype Size = Size(capacity: int, count: int)

  /** The elements that `growIfNeeded` copies, and the size after a push. */
  function PushCost(s: Size): int {
    if s.count == s.capacity then s.count else 0
  }

  function Push(s: Size): Size {
    Size(if s.count == s.capacity then 2 * s.capacity else s.capacity, s.count + 1)
  }

  /** The elements that `shrinkIfNeeded` copies after one has been taken out. */
  function PopCost(s: Size): int {
    if s.count == 0 then 0
    else if s.capacity > MIN_CAPACITY && s.count - 1 <= s.capacity / 4 then s.count - 1 else 0
  }

  function Pop(s: Size): Size {
    if s.count == 0 then s
    else
      var shrinks := s.capacity > MIN_CAPACITY && s.count - 1 <= s.capacity / 4;
      Size(if shrinks then s.capacity / 2 else s.capacity, s.count - 1)
  }

  /** A push or a pop at either end, or `Clear`. */
  datatype Op = PushOp | PopOp | ClearOp

  function Step(s: Size, op: Op): Size {
    match op
    case PushOp => Push(s)
    case PopOp => Pop(s)
    case ClearOp => s.(count := 0)
  }

  function Cost(s: Size, op: Op): int {
    match op
    case PushOp => PushCost(s)
    case PopOp => PopCost(s)
    case ClearOp => 0
  }

  ghost predicate NoClears(ops: seq<Op>) {
    forall op :: op in ops ==> !op.ClearOp?
  }

  /** All elements copied by a run. */
  function TotalCost(s: Size, ops: seq<Op>): int
    decreases |ops|
  {
    if ops == [] then 0 else Cost(s, ops[0]) + TotalCost(Step(s, ops[0]), ops[1..])
  }

  function Final(s: Size, ops: seq<Op>): Size
    decreases |ops|
  {
    if ops == [] then s else Final(Step(s, ops[0]), ops[1..])
  }

  /** The capacity is a power of two, the elements fit, and a larger buffer is more than a quarter full. */
  ghost predicate Dense(s: Size) {
    && s.capacity >= MIN_CAPACITY && IsPowerOfTwo(s.capacity) && 0 <= s.count <= s.capacity
    && (s.capacity > MIN_CAPACITY ==> 4 * s.count > s.capacity)
  }

  /** Copying already paid for: distance above half full, or below it. */
  function Potential(s: Size): int {
    if 2 * s.count >= s.capacity then 2 * s.count - s.capacity
    else if s.capacity > MIN_CAPACITY then s.capacity / 2 - s.count else 0
  }

  lemma LargerPowers(n: int)
    requires IsPowerOfTwo(n) && n > MIN_CAPACITY
    ensures n >= 16 && n % 4 == 0 && IsPowerOfTwo(n / 2) && n / 2 >= MIN_CAPACITY
  {
    assert IsPowerOfTwo(n / 2) && IsPowerOfTwo(n / 2 / 2) && IsPowerOfTwo(n / 2 / 2 / 2);
  }

  lemma AmortisedPush(s: Size)
    requires Dense(s)
    ensures Dense(Push(s)) && PushCost(s) + Potential(Push(s)) - Potential(s) <= 2
  {
    DoubledPower(s.capacity);
  }

  lemma AmortisedPop(s: Size)
    requires Dense(s)
    ensures Dense(Pop(s)) && PopCost(s) + Potential(Pop(s)) - Potential(s) <= 1
  {
    if s.capacity > MIN_CAPACITY {
      LargerPowers(s.capacity);
    }
  }

  /** One operation: its copying, charged against the potential, is at most two elements. */
  lemma AmortisedStep(s: Size, op: Op)
    requires Dense(s) && !op.ClearOp?
    ensures Dense(Step(s, op))
    ensures Cost(s, op) + Potential(Step(s, op)) - Potential(s) <= if op.PushOp? then 2 else 1
  {
    if op.PushOp? {
      AmortisedPush(s);
    } else {
      AmortisedPop(s);
    }
  }

  function Pushes(ops: seq<Op>): nat {
    if ops == [] then 0 else (if ops[0].PushOp? then 1 else 0) + Pushes(ops[1..])
  }

  lemma {:induction false} AmortisedRun(s: Size, ops: seq<Op>)
    requires Dense(s) && NoClears(ops)
    ensures TotalCost(s, ops) + Potential(Final(s, ops)) - Potential(s) <= |ops| + Pushes(ops)
    ensures Dense(Final(s, ops)) && Pushes(ops) <= |ops|
    decreases |ops|
  {
    if ops != [] {
      assert ops[0] in ops;
      AmortisedStep(s, ops[0]);
      AmortisedRun(Step(s, ops[0]), ops[1..]);
    }
  }

  /** Any `m` pushes and pops at either end of a new deque copy at most `2m` elements in all. */
  lemma CopiesAtMostTwicePerOperation(ops: seq<Op>)
    requires NoClears(ops)
    ensures TotalCost(Size(MIN_CAPACITY, 0), ops) <= 2 * |ops|
  {
    AmortisedRun(Size(MIN_CAPACITY, 0), ops);
  }

  // ----- Deques made larger than they need to be -----

  /** Not dense: at most a quarter full, in a buffer above the minimum. */
  predicate Sparse(s: Size) {
    s.capacity > MIN_CAPACITY && 0 <= s.count && 4 * s.count <= s.capacity
  }

  /** What a sparse deque can still be charged beyond two elements an operation, `d` halvings after it was made
      with at most `128` slots. */
  function Debt(d: nat, count: int): int {
    if d == 0 then 2 * count else if d == 1 then count + 4 else if d == 2 then 7 else 9 - count
  }

  /** The halvings of a deque made with at most `128` slots. */
  predicate Halved(capacity: int, d: nat) {
    || (d == 0 && (capacity == 16 || capacity == 32 || capacity == 64 || capacity == 128))
    || (d == 1 && (capacity == 16 || capacity == 32 || capacity == 64))
    || (d == 2 && (capacity == 16 || capacity == 32))
    || (d == 3 && capacity == 16)
  }

  lemma PowersInReach(s: Size)
    requires s.capacity == 8 || s.capacity == 16 || s.capacity == 32 || s.capacity == 64 || s.capacity == 128
    ensures IsPowerOfTwo(s.capacity)
  {
    assert IsPowerOfTwo(2) && IsPowerOfTwo(4) && IsPowerOfTwo(8) && IsPowerOfTwo(16) && IsPowerOfTwo(32);
    assert IsPowerOfTwo(64) && IsPowerOfTwo(128);
  }

  /** One operation on a sparse deque is paid for by two elements and the change of debt; a deque that stops
      being sparse brings enough for its potential. */
  lemma SparseStep(s: Size, d: nat, op: Op)
    requires Halved(s.capacity, d) && Sparse(s) && !op.ClearOp?
    ensures var s', d' := Step(s, op), if Step(s, op).capacity < s.capacity then d + 1 else d;
      if Sparse(s') then Halved(s'.capacity, d') && Cost(s, op) + Debt(d', s'.count) - Debt(d, s.count) <= 2
      else Dense(s') && Cost(s, op) + Potential(s') - Debt(d, s.count) <= 2
  {
    PowersInReach(Step(s, op));
  }

  lemma {:induction false} SparseRun(s: Size, d: nat, ops: seq<Op>)
    requires Halved(s.capacity, d) && Sparse(s) && NoClears(ops)
    ensures TotalCost(s, ops) <= 2 * |ops| + Debt(d, s.count)
    decreases |ops|
  {
    if ops != [] {
      assert ops[0] in ops;
      SparseStep(s, d, ops[0]);
      var s' := Step(s, ops[0]);
      if Sparse(s') {
        SparseRun(s', if s'.capacity < s.capacity then d + 1 else d, ops[1..]);
      } else {
        AmortisedRun(s', ops[1..]);
        PotentialIsPositive(Final(s', ops[1..]));
      }
    }
  }

  lemma PotentialIsPositive(s: Size)
    ensures Potential(s) >= 0
  {
  }

  /** From 256 slots on, nine pushes and five pops copy 30 elements. */
  lemma LargeDequesCopyMore(capacity: int)
    requires capacity >= 256
    ensures var ops := seq(9, _ => PushOp) + seq(5, _ => PopOp);
      NoClears(ops) && TotalCost(Size(capacity, 0), ops) == 30 > 2 * |ops|
  {
    var pops := seq(5, _ => PopOp);
    assert pops == [PopOp] + [PopOp] + [PopOp] + [PopOp] + [PopOp];
    PushesAreFree(capacity, 0, 9, pops);
    CostOfPop(Size(capacity, 9), pops);
    CostOfPop(Size(capacity / 2, 8), pops[1..]);
    CostOfPop(Size(capacity / 2 / 2, 7), pops[1..][1..]);
    CostOfPop(Size(capacity / 2 / 2 / 2, 6), pops[1..][1..][1..]);
    CostOfPop(Size(capacity / 2 / 2 / 2 / 2, 5), pops[1..][1..][1..][1..]);
  }

  /** At most two elements copied an operation, in every run of pushes and pops that begins with an empty deque of
      this capacity. */
  ghost predicate CopiesAtMostTwice(capacity: int) {
    forall ops :: NoClears(ops) ==> TotalCost(Size(capacity, 0), ops) <= 2 * |ops|
  }

  /** The bound holds for deques made with room for up to 128 elements, and for no larger ones.  `capacity` is
      what `NewWithCapacity` makes of `request`. */
  lemma CopiesAtMostTwiceIff(request: int, capacity: int)
    requires IsPowerOfTwo(capacity) && capacity >= MIN_CAPACITY && capacity >= request
    requires capacity == MIN_CAPACITY || capacity / 2 < request
    ensures CopiesAtMostTwice(capacity) <==> request <= 128
    ensures CopiesAtMostTwice(capacity) <==> capacity <= 128
  {
    FewPowers(capacity);
    if capacity >= 256 {
      LargeDequesCopyMore(capacity);
    } else {
      forall ops | NoClears(ops) ensures TotalCost(Size(capacity, 0), ops) <= 2 * |ops| {
        if capacity == MIN_CAPACITY {
          CopiesAtMostTwicePerOperation(ops);
        } else {
          SparseRun(Size(capacity, 0), 0, ops);
        }
      }
    }
  }

  lemma FewPowers(capacity: int)
    requires IsPowerOfTwo(capacity) && capacity >= MIN_CAPACITY
    ensures capacity >= 256 || capacity == MIN_CAPACITY || Halved(capacity, 0)
  {
    if capacity > MIN_CAPACITY {
      LargerPowers(capacity);
      FewPowers(capacity / 2);
    }
  }

  /** Emptying a deque with `Clear` keeps its buffer, so it stays dense only if the buffer is the smallest. */
  lemma ClearedIsDenseIff(s: Size)
    requires Dense(s)
    ensures Dense(Size(s.capacity, 0)) <==> s.capacity == MIN_CAPACITY
  {
    PowersInReach(Size(MIN_CAPACITY, 0));
  }

  // ----- Runs that also clear -----

  /** Half of the buffer, and three for every element beyond its half. */
  function Reserve(s: Size): int {
    s.capacity / 2 + if 2 * s.count > s.capacity then 3 * (s.count - s.capacity / 2) else 0
  }

  ghost predicate Fits(s: Size) {
    s.capacity >= MIN_CAPACITY && IsPowerOfTwo(s.capacity) && 0 <= s.count <= s.capacity
  }

  /** One push pays for three elements, pops and clears for none: a buffer that has become too large has been paid
      for when it grew. */
  lemma ReserveStep(s: Size, op: Op)
    requires Fits(s)
    ensures Fits(Step(s, op))
    ensures Cost(s, op) + Reserve(Step(s, op)) - Reserve(s) <= if op.PushOp? then 3 else 0
  {
    DoubledPower(s.capacity);
    EvenPower(s.capacity);
    if s.capacity > MIN_CAPACITY {
      LargerPowers(s.capacity);
    }
  }

  lemma EvenPower(n: int)
    requires IsPowerOfTwo(n) && n >= MIN_CAPACITY
    ensures n % 2 == 0
  {
  }

  lemma {:induction false} ReserveRun(s: Size, ops: seq<Op>)
    requires Fits(s)
    ensures Fits(Final(s, ops)) && TotalCost(s, ops) + Reserve(Final(s, ops)) - Reserve(s) <= 3 * Pushes(ops)
    decreases |ops|
  {
    if ops != [] {
      ReserveStep(s, ops[0]);
      ReserveRun(Step(s, ops[0]), ops[1..]);
    }
  }

  /** From a new deque, any run of pushes, pops and clears copies at most three elements for every push; from a
      larger one, half of the extra room more. */
  lemma CopiesAtMostThricePerPush(capacity: int, ops: seq<Op>)
    requires IsPowerOfTwo(capacity) && capacity >= MIN_CAPACITY
    ensures TotalCost(Size(capacity, 0), ops) <= 3 * Pushes(ops) + (capacity - MIN_CAPACITY) / 2
  {
    EvenPower(capacity);
    ReserveRun(Size(capacity, 0), ops);
  }

  // ----- Rotations are pops and pushes -----

  function RotateOps(n: nat): seq<Op> {
    if n == 0 then [] else RotateOps(n - 1) + [PopOp] + [PushOp]
  }

  lemma {:induction false} CostSnoc(s: Size, ops: seq<Op>, op: Op)
    ensures TotalCost(s, ops + [op]) == TotalCost(s, ops) + Cost(Final(s, ops), op)
    ensures Final(s, ops + [op]) == Step(Final(s, ops), op)
    decreases |ops|
  {
    if ops == [] {
      assert ([op])[1..] == [] && TotalCost(Step(s, op), []) == 0;
      assert ops + [op] == [op];
    } else {
      assert (ops + [op])[1..] == ops[1..] + [op];
      CostSnoc(Step(s, ops[0]), ops[1..], op);
    }
  }

  /** A deque that was of size `s0`, having copied `copied0` elements, has since done `n` rounds of a rotation. */
  predicate Rotated(s0: Size, copied0: int, s: Size, copied: int, n: nat) {
    s == Final(s0, RotateOps(n)) && copied == copied0 + TotalCost(s0, RotateOps(n))
  }

  lemma RotatedOnce(s0: Size, copied0: int, s: Size, copied: int, n: nat)
    requires Rotated(s0, copied0, s, copied, n)
    ensures Rotated(s0, copied0, Push(Pop(s)), copied + PopCost(s) + PushCost(Pop(s)), n + 1)
  {
    CostSnoc(s0, RotateOps(n), PopOp);
    CostSnoc(s0, RotateOps(n) + [PopOp], PushOp);
  }

  lemma {:induction false} RotateOpsCount(n: nat)
    ensures |RotateOps(n)| == 2 * n && NoClears(RotateOps(n)) && Pushes(RotateOps(n)) == n
  {
    if n > 0 {
      RotateOpsCount(n - 1);
      PushesSnoc(RotateOps(n - 1), PopOp);
      PushesSnoc(RotateOps(n - 1) + [PopOp], PushOp);
    }
  }

  lemma {:induction false} PushesSnoc(ops: seq<Op>, op: Op)
    ensures Pushes(ops + [op]) == Pushes(ops) + if op.PushOp? then 1 else 0
  {
    if ops == [] {
      assert ([op])[1..] == [] && ops + [op] == [op];
    } else {
      assert (ops + [op])[1..] == ops[1..] + [op];
      PushesSnoc(ops[1..], op);
    }
  }

  /** A rotation by `n` keeps a dense deque dense and copies at most `3n` elements beyond what was paid before. */
  lemma RotationCost(s0: Size, copied0: int, s: Size, copied: int, n: nat)
    requires Dense(s0) && Rotated(s0, copied0, s, copied, n)
    ensures Dense(s) && copied - copied0 <= 3 * n + Potential(s0)
  {
    RotateOpsCount(n);
    AmortisedRun(s0, RotateOps(n));
    PotentialIsPositive(s);
  }

  lemma CostOfPop(s: Size, ops: seq<Op>)
    requires ops != [] && ops[0].PopOp?
    ensures TotalCost(s, ops) == PopCost(s) + TotalCost(Pop(s), ops[1..])
  {
  }

  lemma {:induction false} PushesAreFree(capacity: int, count: int, n: nat, rest: seq<Op>)
    requires 0 <= count && count + n <= capacity
    ensures TotalCost(Size(capacity, count), seq(n, _ => PushOp) + rest) == TotalCost(Size(capacity, count + n), rest)
    decreases n
  {
    if n == 0 {
      assert seq(0, _ => PushOp) + rest == rest;
    } else {
      PushesAreFree(capacity, count + 1, n - 1, rest);
      assert (seq(n, _ => PushOp) + rest)[1..] == seq(n - 1, _ => PushOp) + rest;
    }
  }
}
