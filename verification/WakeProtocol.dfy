/** The interrupt-to-task wake protocol: the keyboard interrupt handler, the waker cell, the scancode
    and task queues, `poll_next`, and the executor's loop and sleep decision, as a transition system.

Each `without_interrupts` section is one step of the main thread. The handler runs to completion
between any two main-thread steps, except while the executor has interrupts disabled. */
module WakeProtocol {
  import opened Options
  import opened FreeLists
  import opened ArrayQueues

  const MAX_SCANCODES: nat := 100
  const MAX_TASKS: nat := 100

  type TaskId = nat

  /** Where the main thread is. */
  datatype Pc =
    | RunLoop                      // about to pop the task queue
    | Dispatch(id: TaskId)         // popped `id`, about to look it up and poll it
    | PollOther(id: TaskId)        // inside the poll of some other task
    | CreateStream                 // first poll of the keyboard task: ScancodeStream::new
    | FastPop                      // poll_next: first pop
    | Register                     // poll_next: about to register the waker
    | SecondPop                    // poll_next: about to pop again
    | TakeWaker(code: nat)         // poll_next: popped, about to take the waker back
    | Deliver(code: nat)           // poll_next returned Ready
    | BeforeSleep                  // run_ready_tasks returned, about to disable interrupts
    | SleepCheck                   // interrupts disabled, about to test the task queue
    | Halted                       // in enable_and_hlt

  datatype State = State(
    pc: Pc,
    keyboard: TaskId,              // the task that owns the scancode stream
    spawned: set<TaskId>,
    tasks: set<TaskId>,
    taskQueue: seq<TaskId>,
    created: bool,                 // the scancode queue exists
    scancodes: seq<nat>,
    waker: Option<TaskId>,
    accepted: seq<nat>,            // every scancode the queue accepted
    delivered: seq<nat>            // every scancode handed to the keyboard task
  )

  // ---------------------------------------------------------------- spawning

  /** `Executor::spawn`; `None` is a panic. */
  function Spawn(s: State, id: TaskId): Option<State> {
    if id in s.tasks then None
    else
      var (q, ok) := FifoPush(MAX_TASKS, s.taskQueue, id);
      if ok then Some(s.(spawned := s.spawned + {id}, tasks := s.tasks + {id}, taskQueue := q)) else None
  }

  function EmptyExecutor(keyboard: TaskId): State {
    State(RunLoop, keyboard, {}, {}, [], false, [], None, [], [])
  }

  function SpawnAll(keyboard: TaskId, ids: seq<TaskId>): Option<State>
    decreases |ids|
  {
    if |ids| == 0 then Some(EmptyExecutor(keyboard))
    else
      match SpawnAll(keyboard, ids[..|ids| - 1])
      case None => None
      case Some(s) => Spawn(s, ids[|ids| - 1])
  }

  /** Spawning succeeds exactly for at most 100 distinct tasks, and leaves them queued in order. */
  lemma {:induction false} SpawnAllIff(keyboard: TaskId, ids: seq<TaskId>)
    ensures SpawnAll(keyboard, ids).Some? <==> Distinct(ids) && |ids| <= 100
    ensures SpawnAll(keyboard, ids).Some? ==>
              SpawnAll(keyboard, ids).value ==
                EmptyExecutor(keyboard).(spawned := Elements(ids), tasks := Elements(ids), taskQueue := ids)
    decreases |ids|
  {
    if |ids| == 0 {
      assert Elements(ids) == {};
    } else {
      hide Distinct, Elements;
      var n := |ids| - 1;
      SpawnAllIff(keyboard, ids[..n]);
      assert ids == ids[..n] + [ids[n]];
      SnocFacts(ids[..n], ids[n]);
    }
  }

  lemma SnocFacts(front: seq<nat>, last: nat)
    ensures Distinct(front + [last]) <==> Distinct(front) && last !in Elements(front)
    ensures Elements(front + [last]) == Elements(front) + {last}
  {
    var list := front + [last];
    if Distinct(list) {
      forall i: nat, j: nat | i < j < |front| ensures front[i] != front[j] {
        assert list[i] == front[i] && list[j] == front[j];
      }
      forall i: nat | i < |front| ensures front[i] != last {
        assert list[i] == front[i] && list[|front|] == last;
      }
    }
  }

  /** The executor as `run` starts it: the keyboard task is among at most 100 spawned tasks. */
  ghost predicate Init(s: State) {
    exists ids: seq<TaskId> ::
      && SpawnAll(s.keyboard, ids) == Some(s)
      && s.keyboard in ids
  }

  // ---------------------------------------------------------------- steps

  /** `TaskWaker::wake_task`: a wake that finds the queue full is dropped. */
  function WakeTask(s: State, id: TaskId): State {
    s.(taskQueue := FifoPush(MAX_TASKS, s.taskQueue, id).0)
  }

  /** `AtomicWaker::wake`: take the waker, if any, and wake its task. */
  function Wake(s: State): State {
    match s.waker
    case None => s
    case Some(id) => WakeTask(s.(waker := None), id)
  }

  /** `add_scancode`, as called by the keyboard interrupt handler. */
  function AddScancode(s: State, code: nat): State {
    if !s.created then s
    else
      var (q, ok) := FifoPush(MAX_SCANCODES, s.scancodes, code);
      if ok then Wake(s.(scancodes := q, accepted := s.accepted + [code])) else s
  }

  predicate InterruptsEnabled(s: State) {
    !s.pc.SleepCheck?
  }

  /** An interrupt with scancode `code`; it ends a halt. */
  function Interrupt(s: State, code: nat): State {
    var s' := AddScancode(s, code);
    if s.pc.Halted? then s'.(pc := RunLoop) else s'
  }

  /** One step of the main thread. `finished` is the outcome of polling another task. */
  function MainStep(s: State, finished: bool): State {
    match s.pc
    case RunLoop =>
      var (q, id) := FifoPop(s.taskQueue);
      if id.Some? then s.(taskQueue := q, pc := Dispatch(id.value)) else s.(pc := BeforeSleep)
    case Dispatch(id) =>
      if id !in s.tasks then s.(pc := RunLoop)
      else if id != s.keyboard then s.(pc := PollOther(id))
      else if !s.created then s.(pc := CreateStream)
      else s.(pc := FastPop)
    case PollOther(id) =>
      s.(pc := RunLoop, tasks := if finished then s.tasks - {id} else s.tasks)
    case CreateStream =>
      s.(created := true, pc := FastPop)
    case FastPop =>
      var (q, code) := FifoPop(s.scancodes);
      if code.Some? then s.(scancodes := q, pc := Deliver(code.value)) else s.(pc := Register)
    case Register =>
      s.(waker := Some(s.keyboard), pc := SecondPop)
    case SecondPop =>
      var (q, code) := FifoPop(s.scancodes);
      if code.Some? then s.(scancodes := q, pc := TakeWaker(code.value)) else s.(pc := RunLoop)
    case TakeWaker(code) =>
      s.(waker := None, pc := Deliver(code))
    case Deliver(code) =>
      s.(delivered := s.delivered + [code], pc := FastPop)
    case BeforeSleep =>
      s.(pc := SleepCheck)
    case SleepCheck =>
      if |s.taskQueue| == 0 then s.(pc := Halted) else s.(pc := RunLoop)
    case Halted => s
  }

  /** Any step: the main thread, a keyboard interrupt, or another interrupt ending a halt. */
  ghost predicate Step(s: State, s': State) {
    || (exists finished: bool :: s' == MainStep(s, finished))
    || (InterruptsEnabled(s) && exists code: nat :: s' == Interrupt(s, code))
    || (s.pc.Halted? && s' == s.(pc := RunLoop))
  }

  ghost predicate IsRun(run: seq<State>) {
    && |run| > 0 && Init(run[0])
    && forall i: nat :: i + 1 < |run| ==> Step(run[i], run[i + 1])
  }

  // ---------------------------------------------------------------- the invariant

  /** The keyboard task is not being polled right now. */
  predicate Suspended(s: State) {
    match s.pc
    case Dispatch(id) => id != s.keyboard
    case CreateStream => false
    case FastPop => false
    case Register => false
    case SecondPop => false
    case TakeWaker(_) => false
    case Deliver(_) => false
    case _ => true
  }

  /** No lost wakeup: a suspended keyboard task is queued to run, or its waker is registered and there
      is nothing for it to read. Between registering and the second pop, a taken waker means there is
      something to read. */
  ghost predicate WakePending(s: State) {
    && (Suspended(s) ==>
          s.keyboard in s.taskQueue || (s.created && s.waker == Some(s.keyboard) && s.scancodes == []))
    && (s.pc.SecondPop? ==> s.waker == Some(s.keyboard) || s.scancodes != [])
    && (s.pc.Halted? ==> s.taskQueue == [])
  }

  /** The scancode the keyboard task has popped but not yet received. */
  function InFlight(s: State): seq<nat> {
    match s.pc
    case TakeWaker(code) => [code]
    case Deliver(code) => [code]
    case _ => []
  }

  /** Scancodes are neither lost, duplicated nor reordered between the queue and the keyboard task. */
  ghost predicate Conserved(s: State) {
    s.accepted == s.delivered + InFlight(s) + s.scancodes && |s.scancodes| <= MAX_SCANCODES
  }

  /** The scancodes accepted but not yet taken by the keyboard task are those in the queue. */
  lemma WaitingInQueue(s: State)
    requires Conserved(s)
    ensures |s.accepted| - |s.delivered| - |InFlight(s)| == |s.scancodes|
  {
  }

  /** Entries of the task queue: any number for the keyboard task, at most one for every other task. */
  ghost predicate QueueOk(s: State) {
    && |s.taskQueue| <= MAX_TASKS && |s.spawned| <= MAX_TASKS
    && s.keyboard in s.spawned && s.keyboard in s.tasks
    && (forall i: nat :: i < |s.taskQueue| ==> s.taskQueue[i] in s.spawned)
    && (forall i: nat, j: nat :: i < j < |s.taskQueue| && s.taskQueue[i] == s.taskQueue[j] ==>
          s.taskQueue[i] == s.keyboard)
  }

  /** What the program counter implies about the stream. */
  ghost predicate StreamOk(s: State) {
    && (s.waker.Some? ==> s.waker.value == s.keyboard)
    && (!s.created ==> s.scancodes == [])
    && (s.pc.FastPop? || s.pc.Register? || s.pc.SecondPop? || s.pc.TakeWaker? || s.pc.Deliver? ==> s.created)
    && (s.pc.CreateStream? ==> !s.created)
    && (s.pc.PollOther? ==> s.pc.id != s.keyboard)
  }

  ghost predicate Inv(s: State) {
    WakePending(s) && Conserved(s) && QueueOk(s) && StreamOk(s)
  }

  /** Queue entries other than the keyboard task are distinct spawned tasks, so there is room unless the
      keyboard task is queued: a dropped wake is harmless. */
  lemma {:induction false} OthersCount(q: seq<TaskId>, keyboard: TaskId, spawned: set<TaskId>)
    requires keyboard in spawned && keyboard !in q
    requires forall i: nat :: i < |q| ==> q[i] in spawned
    requires forall i: nat, j: nat :: i < j < |q| ==> q[i] != q[j]
    ensures |q| < |spawned|
    decreases |q|
  {
    if |q| == 0 {
      assert spawned != {};
    } else {
      var n := |q| - 1;
      var rest := spawned - {q[n]};
      assert forall i: nat :: i < n ==> q[..n][i] == q[i];
      OthersCount(q[..n], keyboard, rest);
    }
  }

  /** Whenever `wake_task` finds the task queue full, the woken task is already in it. */
  lemma DroppedWakeIsHarmless(s: State)
    requires Inv(s) && !FifoPush(MAX_TASKS, s.taskQueue, s.keyboard).1
    ensures s.keyboard in s.taskQueue
  {
    if s.keyboard !in s.taskQueue {
      OthersCount(s.taskQueue, s.keyboard, s.spawned);
    }
  }

  lemma InitInv(s: State)
    requires Init(s)
    ensures Inv(s)
  {
    var ids: seq<TaskId> :| SpawnAll(s.keyboard, ids) == Some(s) && s.keyboard in ids;
    SpawnAllIff(s.keyboard, ids);
    ElementsCount(ids);
  }

  lemma {:induction false} ElementsCount(list: seq<nat>)
    ensures |Elements(list)| <= |list|
    decreases |list|
  {
    if |list| > 0 {
      var n := |list| - 1;
      ElementsCount(list[..n]);
      assert list == list[..n] + [list[n]];
      SnocFacts(list[..n], list[n]);
    }
  }

  lemma MainKeepsInv(s: State, finished: bool)
    requires Inv(s)
    ensures Inv(MainStep(s, finished))
  {
    MainKeepsQueue(s, finished);
    MainKeepsConserved(s, finished);
    var s' := MainStep(s, finished);
    if s.pc.RunLoop? && |s.taskQueue| > 0 {
      assert s.taskQueue == [s.taskQueue[0]] + s.taskQueue[1..];
    }
  }

  lemma MainKeepsQueue(s: State, finished: bool)
    requires Inv(s)
    ensures QueueOk(MainStep(s, finished)) && StreamOk(MainStep(s, finished))
  {
    hide WakePending, Conserved;
    if s.pc.RunLoop? && |s.taskQueue| > 0 {
      PopKeepsQueue(s);
    } else {
      MainLeavesQueue(s, finished);
      hide MainStep;
      SameQueueOk(s, MainStep(s, finished));
    }
    MainKeepsStream(s, finished);
  }

  /** Popping leaves a shorter queue of the same kind. */
  lemma PopKeepsQueue(s: State)
    requires QueueOk(s) && s.pc.RunLoop? && |s.taskQueue| > 0
    ensures forall finished :: QueueOk(MainStep(s, finished))
  {
    var q := s.taskQueue[1..];
    assert forall i: nat :: i < |q| ==> q[i] == s.taskQueue[i + 1];
  }

  lemma MainLeavesQueue(s: State, finished: bool)
    requires Inv(s) && !(s.pc.RunLoop? && |s.taskQueue| > 0)
    ensures var s' := MainStep(s, finished);
            && s'.taskQueue == s.taskQueue && s'.spawned == s.spawned && s'.keyboard == s.keyboard
            && (s'.keyboard in s'.tasks <==> s.keyboard in s.tasks)
  {
    hide WakePending, Conserved, QueueOk;
  }

  lemma SameQueueOk(s: State, s': State)
    requires QueueOk(s) && s'.taskQueue == s.taskQueue && s'.spawned == s.spawned && s'.keyboard == s.keyboard
    requires s'.keyboard in s'.tasks <==> s.keyboard in s.tasks
    ensures QueueOk(s')
  {
  }

  lemma MainKeepsStream(s: State, finished: bool)
    requires Inv(s)
    ensures StreamOk(MainStep(s, finished))
  {
    hide WakePending, Conserved, QueueOk;
  }

  lemma MainKeepsConserved(s: State, finished: bool)
    requires Inv(s)
    ensures Conserved(MainStep(s, finished))
  {
    if |s.scancodes| > 0 {
      assert s.scancodes == [s.scancodes[0]] + s.scancodes[1..];
    }
  }

  lemma InterruptKeepsInv(s: State, code: nat)
    requires Inv(s) && InterruptsEnabled(s)
    ensures Inv(Interrupt(s, code))
  {
    if s.waker.Some? && |s.taskQueue| >= MAX_TASKS { DroppedWakeIsHarmless(s); }
  }

  /** Every state of every interleaving satisfies the invariant. */
  lemma {:induction false} RunKeepsInv(run: seq<State>, i: nat)
    requires IsRun(run) && i < |run|
    ensures Inv(run[i])
  {
    if i == 0 {
      InitInv(run[0]);
    } else {
      RunKeepsInv(run, i - 1);
      var s, s' := run[i - 1], run[i];
      assert Step(run[i - 1], run[i - 1 + 1]);
      if finished: bool :| s' == MainStep(s, finished) {
        MainKeepsInv(s, finished);
      } else if InterruptsEnabled(s) && exists code: nat :: s' == Interrupt(s, code) {
        var code: nat :| s' == Interrupt(s, code);
        InterruptKeepsInv(s, code);
      } else {
        WakeFromHalt(s);
      }
    }
  }

  lemma WakeFromHalt(s: State)
    requires Inv(s) && s.pc.Halted?
    ensures Inv(s.(pc := RunLoop))
  {
  }

  /** No lost wakeup: the processor never halts with a scancode undelivered, and when it halts the
      keyboard task's waker is armed. */
  lemma NoLostWakeup(run: seq<State>, i: nat)
    requires IsRun(run) && i < |run| && run[i].pc.Halted?
    ensures run[i].scancodes == [] && run[i].waker == Some(run[i].keyboard)
    ensures run[i].delivered == run[i].accepted
  {
    RunKeepsInv(run, i);
  }

  /** In every state, the scancodes delivered are a prefix of those accepted. */
  lemma DeliveredIsPrefix(run: seq<State>, i: nat)
    requires IsRun(run) && i < |run|
    ensures run[i].delivered <= run[i].accepted
  {
    RunKeepsInv(run, i);
  }

  // ---------------------------------------------------------------- every accepted scancode is delivered

  /** Orders program counters along the main thread's path. */
  function Rank(s: State): nat {
    match s.pc
    case Halted => 0
    case SleepCheck => if s.taskQueue == [] then 1 else 10
    case BeforeSleep => if s.taskQueue == [] then 2 else 11
    case RunLoop => 3
    case SecondPop => 4
    case PollOther(_) => 4
    case Register => 5
    case FastPop => 6
    case Deliver(_) => 7
    case TakeWaker(_) => 8
    case CreateStream => 8
    case Dispatch(_) => 9
  }

  /** Main-thread steps make progress: fewer queued tasks, then fewer scancodes, then a lower rank. */
  lemma MainProgress(s: State, finished: bool)
    requires !s.pc.Halted?
    ensures var s' := MainStep(s, finished);
            || |s'.taskQueue| < |s.taskQueue|
            || (|s'.taskQueue| == |s.taskQueue| && |s'.scancodes| < |s.scancodes|)
            || (|s'.taskQueue| == |s.taskQueue| && |s'.scancodes| == |s.scancodes| && Rank(s') < Rank(s))
  {
  }

  /** The main thread alone, other tasks finishing as `oracle` says, for `n` steps. */
  ghost function Quiet(s: State, oracle: nat -> bool, n: nat): State {
    if n == 0 then s else MainStep(Quiet(s, oracle, n - 1), oracle(n - 1))
  }

  ghost function Later(oracle: nat -> bool): nat -> bool {
    (k: nat) => oracle(k + 1)
  }

  lemma {:induction false} QuietSplit(s: State, oracle: nat -> bool, n: nat)
    ensures Quiet(MainStep(s, oracle(0)), Later(oracle), n) == Quiet(s, oracle, n + 1)
  {
    hide MainStep;
    if n == 0 {
      assert Quiet(s, oracle, 0) == s;
    } else {
      QuietSplit(s, oracle, n - 1);
    }
  }

  lemma MainAcceptsNothing(s: State, finished: bool)
    ensures MainStep(s, finished).accepted == s.accepted
  {
  }

  /** Once interrupts pause, the main thread reaches its halt with every accepted scancode delivered,
      from any point of any interleaving and whatever the other tasks do. */
  lemma {:induction false} EventuallyDelivered(s: State, oracle: nat -> bool) returns (n: nat)
    requires Inv(s)
    ensures var end := Quiet(s, oracle, n);
            end.pc.Halted? && end.accepted == s.accepted && end.delivered == s.accepted
    decreases |s.taskQueue|, |s.scancodes|, Rank(s)
  {
    hide Inv, MainStep, Rank;
    if s.pc.Halted? {
      HaltedIsDrained(s);
      n := 0;
    } else {
      var s' := MainStep(s, oracle(0));
      MainKeepsInv(s, oracle(0));
      MainProgress(s, oracle(0));
      MainAcceptsNothing(s, oracle(0));
      var m := EventuallyDelivered(s', Later(oracle));
      QuietSplit(s, oracle, m);
      n := m + 1;
    }
  }

  lemma HaltedIsDrained(s: State)
    requires Inv(s) && s.pc.Halted?
    ensures s.delivered == s.accepted
  {
  }

  /** Every run can be continued to an idle halt with everything it accepted delivered. */
  lemma RunReachesHalt(run: seq<State>) returns (longer: seq<State>)
    requires IsRun(run)
    ensures IsRun(longer) && run <= longer
    ensures var end := longer[|longer| - 1];
            && end.pc.Halted? && end.accepted == run[|run| - 1].accepted && end.delivered == end.accepted
  {
    hide Inv, MainStep, Init;
    var last := run[|run| - 1];
    RunKeepsInv(run, |run| - 1);
    var oracle: nat -> bool := (k: nat) => false;
    var n := EventuallyDelivered(last, oracle);
    longer := QuietRun(run, oracle, n);
  }

  lemma {:induction false} QuietRun(run: seq<State>, oracle: nat -> bool, n: nat) returns (longer: seq<State>)
    requires IsRun(run)
    ensures IsRun(longer) && run <= longer
    ensures longer[|longer| - 1] == Quiet(run[|run| - 1], oracle, n)
  {
    hide MainStep, Init;
    if n == 0 {
      longer := run;
    } else {
      var shorter := QuietRun(run, oracle, n - 1);
      var m := |shorter| - 1;
      longer := shorter + [MainStep(shorter[m], oracle(n - 1))];
      forall i: nat | i + 1 < |longer| ensures Step(longer[i], longer[i + 1]) {
        if i < m {
          assert Step(shorter[i], shorter[i + 1]);
        }
      }
    }
  }

  /** The kernel does start: any list of at most 100 distinct tasks with the keyboard task gives a run. */
  lemma RunsExist(keyboard: TaskId, ids: seq<TaskId>)
    requires Distinct(ids) && |ids| <= MAX_TASKS && keyboard in ids
    ensures SpawnAll(keyboard, ids).Some? && IsRun([SpawnAll(keyboard, ids).value])
  {
    SpawnAllIff(keyboard, ids);
    var s := SpawnAll(keyboard, ids).value;
    assert s.keyboard == keyboard;
    assert Init(s);
  }
}
