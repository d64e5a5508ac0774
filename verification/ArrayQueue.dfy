/** The kernel's bounded ring buffer, with `usize` counters that wrap at 2^64, and the bounded FIFO it
    is meant to be. */
module ArrayQueues {
  import opened Bits
  import opened Options

  /** One past the largest `usize`: counters are taken modulo this. */
  const WRAP: nat := 0x1_0000_0000_0000_0000

  // ---------------------------------------------------------------- the bounded FIFO

  /** Appends unless full; says whether the value was accepted. */
  function FifoPush<T>(cap: nat, q: seq<T>, x: T): (seq<T>, bool) {
    if |q| >= cap then (q, false) else (q + [x], true)
  }

  function FifoPop<T>(q: seq<T>): (seq<T>, Option<T>) {
    if |q| == 0 then (q, None) else (q[1..], Some(q[0]))
  }

  // ---------------------------------------------------------------- the ring

  /** Counters and slots of the ring. */
  datatype Ring<T> = Ring(head: nat, tail: nat, slots: seq<T>)

  ghost predicate RingOk<T>(r: Ring<T>) {
    0 < |r.slots| < WRAP - 1 && r.head < WRAP && r.tail < WRAP
  }

  /** `a.wrapping_sub(b)` */
  function WrappingSub(a: nat, b: nat): nat
    requires a < WRAP && b < WRAP
  {
    if a >= b then a - b else a + WRAP - b
  }

  function RingPush<T>(r: Ring<T>, x: T): (Ring<T>, bool)
    requires RingOk(r)
  {
    var next := (r.tail + 1) % WRAP;
    if WrappingSub(next, r.head) > |r.slots| then (r, false)
    else (Ring(r.head, next, r.slots[r.tail % |r.slots| := x]), true)
  }

  function RingPop<T>(r: Ring<T>): (Ring<T>, Option<T>)
    requires RingOk(r)
  {
    if r.head == r.tail then (r, None)
    else (r.(head := (r.head + 1) % WRAP), Some(r.slots[r.head % |r.slots|]))
  }

  // ---------------------------------------------------------------- refinement

  /** The slot of the `x`-th push. */
  function SlotOf(x: nat, cap: nat): (slot: nat)
    requires cap > 0
    ensures slot < cap
  {
    x % WRAP % cap
  }

  /** `r` holds the queue `q`, whose first element was the `first`-th ever pushed. */
  ghost predicate Represents<T>(r: Ring<T>, first: nat, q: seq<T>) {
    && RingOk(r)
    && |q| <= |r.slots|
    && r.head == first % WRAP && r.tail == (first + |q|) % WRAP
    && forall i: nat {:trigger q[i]} :: i < |q| ==> q[i] == r.slots[SlotOf(first + i, |r.slots|)]
  }

  /** Slots are reused in order: the capacity divides 2^64, or the counters have not wrapped yet. */
  ghost predicate InStep(cap: nat, pushed: nat)
    requires cap > 0
  {
    WRAP % cap == 0 || pushed <= WRAP
  }

  /** Positions fewer than `cap` apart leave different remainders. */
  lemma DifferentSlots(a: nat, b: nat, cap: nat)
    requires a < b < a + cap
    ensures a % cap != b % cap
  {
    var e := b / cap - a / cap;
    assert e * cap == (b - a) + (a % cap - b % cap);
    assert e >= 1 ==> e * cap >= cap;
    assert e <= 0 ==> e * cap <= 0;
  }

  /** In step, the slot of a position is its remainder, wrapped counter or not. */
  lemma SlotOfPosition(x: nat, cap: nat)
    requires cap > 0 && (WRAP % cap == 0 || x < WRAP)
    ensures SlotOf(x, cap) == x % cap
  {
    if x >= WRAP {
      var m := WRAP / cap;
      assert WRAP == m * cap;
      var q := x / WRAP;
      assert x == q * WRAP + x % WRAP;
      assert q * (m * cap) == (q * m) * cap;
      AddMultiple(x % WRAP, q * m, cap);
    }
  }

  lemma AddMultiple(y: nat, k: nat, cap: nat)
    requires cap > 0
    ensures (y + k * cap) % cap == y % cap
  {
    var d := y / cap;
    assert y == d * cap + y % cap;
    assert (d + k) * cap == d * cap + k * cap;
    DivModUnique(y + k * cap, cap, d + k, y % cap);
  }

  /** While in step, `push` is the FIFO's push. */
  lemma PushRefines<T>(r: Ring<T>, first: nat, q: seq<T>, x: T)
    requires Represents(r, first, q) && InStep(|r.slots|, first + |q| + 1)
    ensures var (r', ok) := RingPush(r, x);
            var (q', ok') := FifoPush(|r.slots|, q, x);
            ok == ok' && Represents(r', first, q') && |r'.slots| == |r.slots|
  {
    var cap := |r.slots|;
    PushAccepted(r, first, q);
    if |q| < cap {
      var (r', _) := RingPush(r, x);
      var end := first + |q|;
      SlotOfPosition(end, cap);
      forall i: nat | i < |q| ensures r'.slots[SlotOf(first + i, cap)] == q[i] {
        SlotOfPosition(first + i, cap);
        DifferentSlots(first + i, end, cap);
      }
    }
  }

  /** The wrapped counter difference is the queue length. */
  lemma PushAccepted<T>(r: Ring<T>, first: nat, q: seq<T>)
    requires Represents(r, first, q)
    ensures (r.tail + 1) % WRAP == (first + |q| + 1) % WRAP
    ensures WrappingSub((r.tail + 1) % WRAP, r.head) == |q| + 1
  {
  }

  /** `pop` is the FIFO's pop, wrapped counters or not. */
  lemma PopRefines<T>(r: Ring<T>, first: nat, q: seq<T>)
    requires Represents(r, first, q)
    ensures var (r', v) := RingPop(r);
            var (q', v') := FifoPop(q);
            && v == v' && |r'.slots| == |r.slots|
            && Represents(r', first + if |q| > 0 then 1 else 0, q')
  {
    Counters(first, |q|);
    if |q| > 0 {
      HeadValue(r, first, q);
      RestRepresented(r, first, q);
      hide SlotOf, Represents;
    }
  }

  lemma HeadValue<T>(r: Ring<T>, first: nat, q: seq<T>)
    requires Represents(r, first, q) && |q| > 0
    ensures r.slots[r.head % |r.slots|] == q[0]
  {
    assert q[0] == r.slots[SlotOf(first + 0, |r.slots|)];
  }

  lemma RestRepresented<T>(r: Ring<T>, first: nat, q: seq<T>)
    requires Represents(r, first, q) && |q| > 0
    ensures Represents(r.(head := (r.head + 1) % WRAP), first + 1, q[1..])
  {
    hide SlotOf;
    Counters(first, |q|);
    var q' := q[1..];
    forall i: nat | i < |q'| ensures q'[i] == r.slots[SlotOf(first + 1 + i, |r.slots|)] {
      assert q'[i] == q[i + 1];
      assert first + 1 + i == first + (i + 1);
    }
  }

  lemma Counters(first: nat, n: nat)
    requires n < WRAP
    ensures first % WRAP == (first + n) % WRAP <==> n == 0
    ensures (first % WRAP + 1) % WRAP == (first + 1) % WRAP
  {
    Wraps(first, n);
    Wraps(first, 1);
  }

  /** Advancing a wrapped counter by less than a full turn. */
  lemma Wraps(first: nat, n: nat)
    requires n < WRAP
    ensures (first + n) % WRAP == if first % WRAP + n < WRAP then first % WRAP + n else first % WRAP + n - WRAP
  {
    var q, r := first / WRAP, first % WRAP;
    if r + n < WRAP {
      DivModUnique(first + n, WRAP, q, r + n);
    } else {
      DivModUnique(first + n, WRAP, q + 1, r + n - WRAP);
    }
  }

  // ---------------------------------------------------------------- runs

  datatype Op<T> = Push(x: T) | Pop
  datatype Outcome<T> = Pushed(ok: bool) | Popped(v: Option<T>)

  function RingStep<T>(r: Ring<T>, op: Op<T>): (Ring<T>, Outcome<T>)
    requires RingOk(r)
  {
    match op
    case Push(x) => var (r', ok) := RingPush(r, x); (r', Pushed(ok))
    case Pop => var (r', v) := RingPop(r); (r', Popped(v))
  }

  function FifoStep<T>(cap: nat, q: seq<T>, op: Op<T>): (seq<T>, Outcome<T>) {
    match op
    case Push(x) => var (q', ok) := FifoPush(cap, q, x); (q', Pushed(ok))
    case Pop => var (q', v) := FifoPop(q); (q', Popped(v))
  }

  lemma RingStepOk<T>(r: Ring<T>, op: Op<T>)
    requires RingOk(r)
    ensures RingOk(RingStep(r, op).0) && |RingStep(r, op).0.slots| == |r.slots|
  {
  }

  /** The state after a run of operations. */
  function RingAfter<T>(r: Ring<T>, ops: seq<Op<T>>): (r': Ring<T>)
    requires RingOk(r)
    ensures RingOk(r') && |r'.slots| == |r.slots|
    decreases |ops|
  {
    if |ops| == 0 then r
    else
      var before := RingAfter(r, ops[..|ops| - 1]);
      RingStepOk(before, ops[|ops| - 1]);
      RingStep(before, ops[|ops| - 1]).0
  }

  function FifoAfter<T>(cap: nat, ops: seq<Op<T>>): seq<T>
    decreases |ops|
  {
    if |ops| == 0 then [] else FifoStep(cap, FifoAfter(cap, ops[..|ops| - 1]), ops[|ops| - 1]).0
  }

  /** After any run, the next operation has the same outcome on the ring and on the FIFO. */
  ghost predicate Faithful<T>(r: Ring<T>, ops: seq<Op<T>>, op: Op<T>)
    requires RingOk(r)
  {
    RingStep(RingAfter(r, ops), op).1 == FifoStep(|r.slots|, FifoAfter(|r.slots|, ops), op).1
  }

  ghost predicate IsFresh<T>(r: Ring<T>) {
    RingOk(r) && r.head == 0 && r.tail == 0
  }

  /** A run of `n` operations pushes at most `n` values, so the ring tracks the FIFO as long as it is in step. */
  lemma {:induction false} RunRefines<T>(r: Ring<T>, ops: seq<Op<T>>) returns (first: nat)
    requires IsFresh(r) && InStep(|r.slots|, |ops|)
    ensures Represents(RingAfter(r, ops), first, FifoAfter(|r.slots|, ops))
    ensures first + |FifoAfter(|r.slots|, ops)| <= |ops|
    decreases |ops|
  {
    hide Represents;
    if |ops| == 0 {
      EmptyRepresents(r);
      first := 0;
    } else {
      var n := |ops| - 1;
      first := RunRefines(r, ops[..n]);
      var before, q := RingAfter(r, ops[..n]), FifoAfter(|r.slots|, ops[..n]);
      match ops[n] {
        case Push(x) => PushRefines(before, first, q, x);
        case Pop =>
          PopRefines(before, first, q);
          first := first + if |q| > 0 then 1 else 0;
      }
    }
  }

  lemma EmptyRepresents<T>(r: Ring<T>)
    requires IsFresh(r)
    ensures Represents(r, 0, [])
  {
  }

  /** In step, every outcome of every run is the FIFO's. */
  lemma RunIsFaithful<T>(r: Ring<T>, ops: seq<Op<T>>, op: Op<T>)
    requires IsFresh(r) && InStep(|r.slots|, |ops| + 1)
    ensures Faithful(r, ops, op)
  {
    var first := RunRefines(r, ops);
    var now, q := RingAfter(r, ops), FifoAfter(|r.slots|, ops);
    match op {
      case Push(x) => PushRefines(now, first, q, x);
      case Pop => PopRefines(now, first, q);
    }
  }

  // ---------------------------------------------------------------- when the capacity does not divide 2^64

  lemma AfterOneMore(r: Ring<nat>, ops: seq<Op<nat>>, op: Op<nat>)
    requires RingOk(r)
    ensures RingAfter(r, ops + [op]) == RingStep(RingAfter(r, ops), op).0
    ensures FifoAfter(|r.slots|, ops + [op]) == FifoStep(|r.slots|, FifoAfter(|r.slots|, ops), op).0
  {
    assert (ops + [op])[..|ops|] == ops;
  }

  /** `n` times push and pop. */
  ghost function Cycles(n: nat): seq<Op<nat>> {
    if n == 0 then [] else Cycles(n - 1) + [Push(0)] + [Pop]
  }

  lemma AfterNothing(r: Ring<nat>)
    requires RingOk(r)
    ensures RingAfter(r, []) == r && FifoAfter<nat>(|r.slots|, []) == []
  {
  }

  lemma {:induction false} AfterCycles(r: Ring<nat>, n: nat)
    requires IsFresh(r) && n < WRAP
    ensures var now := RingAfter(r, Cycles(n)); now.head == n && now.tail == n
    ensures FifoAfter(|r.slots|, Cycles(n)) == []
  {
    hide RingAfter, FifoAfter, RingPush, RingPop;
    if n == 0 {
      AfterNothing(r);
    } else {
      AfterCycles(r, n - 1);
      var before := RingAfter(r, Cycles(n - 1));
      AfterOneMore(r, Cycles(n - 1), Push(0));
      AcceptedPush(before, n - 1, 0, 0);
      AfterOneMore(r, Cycles(n - 1) + [Push(0)], Pop);
      PopStep(RingAfter(r, Cycles(n - 1) + [Push(0)]));
    }
  }

  lemma PopStep(now: Ring<nat>)
    requires RingOk(now) && now.head != now.tail
    ensures RingPop(now).0.head == (now.head + 1) % WRAP && RingPop(now).0.tail == now.tail
  {
  }

  lemma AcceptedPush(now: Ring<nat>, n: nat, m: nat, x: nat)
    requires RingOk(now) && now.head == n && now.tail == (n + m) % WRAP && m < |now.slots|
    ensures var (next, ok) := RingPush(now, x); ok && next.head == n && next.tail == (n + m + 1) % WRAP
  {
    BurstAccepted(n, m);
  }

  /** Pushes of 0, 1, ..., m - 1 after `n` cycles. */
  ghost function Burst(n: nat, m: nat): seq<Op<nat>> {
    if m == 0 then Cycles(n) else Burst(n, m - 1) + [Push(m - 1)]
  }

  lemma {:induction false} AfterBurst(r: Ring<nat>, n: nat, m: nat)
    requires IsFresh(r) && n < WRAP && m <= |r.slots|
    ensures var now := RingAfter(r, Burst(n, m)); now.head == n && now.tail == (n + m) % WRAP
    ensures var q := FifoAfter(|r.slots|, Burst(n, m)); |q| == m && (m > 0 ==> q[0] == 0)
  {
    hide RingAfter, FifoAfter, RingPush;
    if m == 0 {
      AfterCycles(r, n);
    } else {
      AfterBurst(r, n, m - 1);
      AfterOneMore(r, Burst(n, m - 1), Push(m - 1));
      AcceptedPush(RingAfter(r, Burst(n, m - 1)), n, m - 1, m - 1);
    }
  }

  lemma BurstAccepted(n: nat, m: nat)
    requires n < WRAP && m + 1 < WRAP
    ensures ((n + m) % WRAP + 1) % WRAP == (n + m + 1) % WRAP
    ensures WrappingSub((n + m + 1) % WRAP, n) == m + 1
  {
  }

  /** When the counter wraps out of step, a new value overwrites the oldest one still queued. */
  lemma OutOfStepFails(r: Ring<nat>)
    requires IsFresh(r) && WRAP % |r.slots| != 0
    ensures exists ops: seq<Op<nat>> :: !Faithful(r, ops, Pop)
  {
    var cap := |r.slots|;
    var over := WRAP % cap;
    var n := WRAP - over;
    AfterBurst(r, n, over);
    AfterBurst(r, n, over + 1);
    AfterOneMore(r, Burst(n, over), Push(over));
    BurstAccepted(n, over);
    FirstSlotReused(cap);
    assert 0 % cap == 0;
    var ops := Burst(n, over + 1);
    assert RingAfter(r, ops).slots[0] == over;
    assert !Faithful(r, ops, Pop);
  }

  lemma FirstSlotReused(cap: nat)
    requires 0 < cap < WRAP
    ensures (WRAP - WRAP % cap) % cap == 0
  {
    assert WRAP == WRAP / cap * cap + WRAP % cap;
    DivModUnique(WRAP - WRAP % cap, cap, WRAP / cap, 0);
  }

  /** The ring is a bounded FIFO on all runs exactly when its capacity divides 2^64. */
  lemma FifoOnAllRunsIff(r: Ring<nat>)
    requires IsFresh(r)
    ensures (forall ops: seq<Op<nat>>, op: Op<nat> :: Faithful(r, ops, op)) <==> WRAP % |r.slots| == 0
  {
    hide Faithful;
    if WRAP % |r.slots| == 0 {
      forall ops: seq<Op<nat>>, op: Op<nat> ensures Faithful(r, ops, op) { RunIsFaithful(r, ops, op); }
    } else {
      OutOfStepFails(r);
    }
  }

  /** The keyboard and task queues hold 100 entries, which does not divide 2^64: they are FIFOs for the
      first 2^64 operations only. */
  lemma KernelQueuesOutOfStep()
    ensures WRAP % 100 == 16
  {
  }

  /** So a kernel queue, with its 100 slots, has a run after which `pop` answers wrongly. */
  lemma KernelQueueFails(r: Ring<nat>)
    requires IsFresh(r) && |r.slots| == 100
    ensures exists ops: seq<Op<nat>> :: !Faithful(r, ops, Pop)
  {
    KernelQueuesOutOfStep();
    OutOfStepFails(r);
  }

  // ---------------------------------------------------------------- the queue object

  class ArrayQueue<T(0)> {
    var head: nat
    var tail: nat
    const buffer: array<T>

    /** How many values have been popped, and the values waiting. */
    ghost var first: nat
    ghost var queue: seq<T>

    ghost function AsRing(): Ring<T>
      reads this, buffer
    {
      Ring(head, tail, buffer[..])
    }

    ghost predicate Valid()
      reads this, buffer
    {
      RingOk(AsRing())
    }

    /** The ring still stands for the queue of values pushed and not yet popped. */
    ghost predicate IsFifo()
      reads this, buffer
    {
      Represents(AsRing(), first, queue)
    }

    constructor (capacity: nat)
      requires 0 < capacity < WRAP - 1
      ensures Valid() && IsFifo() && queue == [] && first == 0 && buffer.Length == capacity && fresh(buffer)
    {
      head, tail := 0, 0;
      buffer := new T[capacity];
      first, queue := 0, [];
    }

    /** Appends unless the queue is full; a FIFO push for as long as the counters are in step. */
    method Push(value: T) returns (ok: bool)
      requires Valid()
      modifies this, buffer
      ensures Valid()
      ensures (AsRing(), ok) == RingPush(old(AsRing()), value)
      ensures old(IsFifo()) && InStep(buffer.Length, old(first) + |old(queue)| + 1) ==>
                IsFifo() && first == old(first) && (queue, ok) == FifoPush(buffer.Length, old(queue), value)
    {
      if IsFifo() && InStep(buffer.Length, first + |queue| + 1) { PushRefines(AsRing(), first, queue, value); }
      hide Represents, SlotOf;
      var nextTail := (tail + 1) % WRAP;
      if WrappingSub(nextTail, head) > buffer.Length {
        return false;
      }
      var idx := tail % buffer.Length;
      buffer[idx] := value;
      tail := nextTail;
      queue := queue + [value];
      assert AsRing() == RingPush(old(AsRing()), value).0;
      return true;
    }

    /** Removes the oldest value. */
    method Pop() returns (value: Option<T>)
      requires Valid()
      modifies this
      ensures Valid()
      ensures (AsRing(), value) == RingPop(old(AsRing()))
      ensures old(IsFifo()) ==>
                && IsFifo() && (queue, value) == FifoPop(old(queue))
                && first == old(first) + |old(queue)| - |queue|
    {
      if IsFifo() { PopRefines(AsRing(), first, queue); }
      hide Represents, SlotOf;
      if head == tail {
        return None;
      }
      var idx := head % buffer.Length;
      value := Some(buffer[idx]);
      head := (head + 1) % WRAP;
      first, queue := first + 1, if |queue| > 0 then queue[1..] else [];
      assert AsRing() == RingPop(old(AsRing())).0;
    }

    method IsEmpty() returns (r: bool)
      requires Valid()
      ensures r <==> RingPop(AsRing()).1.None?
      ensures IsFifo() ==> (r <==> queue == [])
    {
      if IsFifo() { Counters(first, |queue|); }
      r := head == tail;
    }
  }
}
