/** The keyboard path and the executor on the kernel's own data: two ring buffers, the waker cell and
    the task table, changed in place. Each atomic section is proved to be the protocol's transition. */
module KernelMachine {
  import opened Options
  import opened FreeLists
  import opened ArrayQueues
  import W = WakeProtocol

  class AtomicWaker {
    var waker: Option<nat>

    constructor ()
      ensures waker == None
    {
      waker := None;
    }

    method Register(id: nat)
      modifies this
      ensures waker == Some(id)
    {
      waker := Some(id);
    }

    /** Empties the cell and hands its contents over. */
    method Take() returns (taken: Option<nat>)
      modifies this
      ensures taken == old(waker) && waker == None
    {
      taken := waker;
      waker := None;
    }
  }

  class Machine {
    const keyboard: nat
    const taskQueue: ArrayQueue<nat>
    const cell: AtomicWaker
    var tasks: set<nat>
    var scancodeQueue: ArrayQueue?<nat>
    var pc: W.Pc

    ghost var spawned: set<nat>
    ghost var accepted: seq<nat>
    ghost var delivered: seq<nat>

    /** Everything the machine may change. */
    ghost function Footprint(): set<object>
      reads this
    {
      {this, taskQueue, taskQueue.buffer, cell} +
      (if scancodeQueue == null then {} else {scancodeQueue, scancodeQueue.buffer})
    }

    ghost predicate Valid()
      reads this, Footprint()
    {
      && taskQueue.Valid() && taskQueue.IsFifo() && taskQueue.buffer.Length == W.MAX_TASKS
      && (scancodeQueue != null ==>
            && scancodeQueue.Valid() && scancodeQueue.IsFifo() && scancodeQueue.buffer.Length == W.MAX_SCANCODES
            && scancodeQueue != taskQueue && scancodeQueue.buffer != taskQueue.buffer)
    }

    /** Neither queue's counter is about to wrap. */
    ghost predicate InStepNow()
      reads this, Footprint()
    {
      && taskQueue.first + |taskQueue.queue| < WRAP
      && (scancodeQueue != null ==> scancodeQueue.first + |scancodeQueue.queue| < WRAP)
    }

    /** The machine as a state of the protocol. */
    ghost function View(): W.State
      reads this, Footprint()
    {
      W.State(pc, keyboard, spawned, tasks, taskQueue.queue, scancodeQueue != null,
              if scancodeQueue == null then [] else scancodeQueue.queue,
              cell.waker, accepted, delivered)
    }

    constructor (keyboard: nat)
      ensures Valid() && InStepNow() && View() == W.EmptyExecutor(keyboard) && taskQueue.first == 0
      ensures fresh(Footprint())
    {
      this.keyboard := keyboard;
      taskQueue := new ArrayQueue<nat>(W.MAX_TASKS);
      cell := new AtomicWaker();
      tasks := {};
      scancodeQueue := null;
      pc := W.RunLoop;
      spawned, accepted, delivered := {}, [], [];
    }

    /** The wake invariant on the machine's own data. */
    ghost predicate Good()
      reads this, Footprint()
    {
      Valid() && W.Inv(View())
    }

    /** No lost wakeup: a halted machine has an empty scancode ring, an armed waker and an empty task ring,
        and has delivered everything it accepted. */
    lemma HaltedIsIdle()
      requires Good() && pc.Halted?
      ensures scancodeQueue != null && scancodeQueue.head == scancodeQueue.tail && taskQueue.head == taskQueue.tail
      ensures cell.waker == Some(keyboard) && delivered == accepted
    {
      hide Represents, SlotOf;
      RingEmpty(taskQueue);
      RingEmpty(scancodeQueue);
    }

    static lemma RingEmpty(q: ArrayQueue<nat>)
      requires q.Valid() && q.IsFifo() && q.queue == []
      ensures q.head == q.tail
    {
      PopRefines(q.AsRing(), q.first, q.queue);
    }

    /** `Executor::spawn`; false where the kernel panics. */
    method Spawn(id: nat) returns (ok: bool)
      requires Valid() && InStepNow()
      modifies Footprint()
      ensures Valid() && Footprint() == old(Footprint())
      ensures ok <==> W.Spawn(old(View()), id).Some?
      ensures ok ==> View() == W.Spawn(old(View()), id).value
      ensures taskQueue.first == old(taskQueue.first) && scancodeQueue == old(scancodeQueue)
    {
      if id in tasks {
        return false;
      }
      tasks := tasks + {id};
      spawned := spawned + {id};
      ok := taskQueue.Push(id);
    }

    /** Spawns the kernel's tasks on a new executor; the wake invariant holds when `run` starts. */
    method Boot(ids: seq<nat>) returns (ok: bool)
      requires Valid() && View() == W.EmptyExecutor(keyboard) && taskQueue.first == 0
      modifies Footprint()
      ensures Valid() && Footprint() == old(Footprint())
      ensures ok <==> Distinct(ids) && |ids| <= W.MAX_TASKS
      ensures ok && keyboard in ids ==> Good()
    {
      hide W.Inv, Distinct;
      for i := 0 to |ids|
        invariant Valid() && Footprint() == old(Footprint()) && taskQueue.first == 0 && scancodeQueue == null
        invariant W.SpawnAll(keyboard, ids[..i]) == Some(View())
      {
        W.SpawnAllIff(keyboard, ids[..i]);
        assert ids[..i + 1][..i] == ids[..i];
        ok := Spawn(ids[i]);
        if !ok {
          W.SpawnAllIff(keyboard, ids[..i + 1]);
          PrefixDistinct(ids, i + 1);
          return;
        }
      }
      assert ids[..|ids|] == ids;
      W.SpawnAllIff(keyboard, ids);
      if keyboard in ids { W.InitInv(View()); }
      return true;
    }

    static lemma PrefixDistinct(ids: seq<nat>, n: nat)
      requires n <= |ids|
      ensures Distinct(ids) ==> Distinct(ids[..n])
    {
    }

    /** `AtomicWaker::wake` followed by `TaskWaker::wake_task`. */
    method Wake()
      requires Valid() && taskQueue.first + |taskQueue.queue| < WRAP
      modifies cell, taskQueue, taskQueue.buffer
      ensures Valid() && Footprint() == old(Footprint())
      ensures View() == W.Wake(old(View()))
    {
      var taken := cell.Take();
      if taken.Some? {
        var _ := taskQueue.Push(taken.value);
      }
    }

    /** The keyboard interrupt handler's call. */
    method AddScancode(code: nat)
      requires Valid() && InStepNow()
      modifies Footprint()
      ensures Valid() && Footprint() == old(Footprint())
      ensures View() == W.AddScancode(old(View()), code)
      ensures old(Good()) ==>
                accepted == if old(scancodeQueue) != null
                               && |old(accepted)| - |old(delivered)| - |W.InFlight(old(View()))| < 100
                            then old(accepted) + [code] else old(accepted)
    {
      if Good() { W.WaitingInQueue(View()); }
      if scancodeQueue != null {
        var ok := scancodeQueue.Push(code);
        if ok {
          accepted := accepted + [code];
          Wake();
        }
      }
    }

    method Interrupt(code: nat)
      requires Valid() && InStepNow()
      modifies Footprint()
      ensures Valid() && Footprint() == old(Footprint())
      ensures View() == W.Interrupt(old(View()), code)
      ensures old(Good() && W.InterruptsEnabled(View())) ==> Good()
    {
      if Good() && W.InterruptsEnabled(View()) { W.InterruptKeepsInv(View(), code); }
      var halted := pc.Halted?;
      AddScancode(code);
      if halted {
        pc := W.RunLoop;
      }
    }

    /** An interrupt of another kind, which only ends a halt. */
    method OtherInterrupt()
      requires Valid()
      modifies this
      ensures Valid() && Footprint() == old(Footprint())
      ensures View() == (if old(pc).Halted? then old(View()).(pc := W.RunLoop) else old(View()))
      ensures old(Good()) ==> Good()
    {
      if Good() && pc.Halted? { W.WakeFromHalt(View()); }
      if pc.Halted? {
        pc := W.RunLoop;
      }
    }

    /** Before a stream step the scancode queue exists, except to create it. */
    lemma StreamReady()
      requires Good()
      ensures pc.CreateStream? ==> scancodeQueue == null
      ensures pc.FastPop? || pc.Register? || pc.SecondPop? || pc.TakeWaker? || pc.Deliver? ==> scancodeQueue != null
    {
    }

    /** The executor's own steps: the task loop and the sleep decision. */
    method ExecutorStep(finished: bool)
      requires Valid()
      requires pc.RunLoop? || pc.Dispatch? || pc.PollOther? || pc.BeforeSleep? || pc.SleepCheck? || pc.Halted?
      modifies Footprint()
      ensures Valid() && Footprint() == old(Footprint())
      ensures View() == W.MainStep(old(View()), finished)
      ensures old(Good()) ==> Good()
    {
      if Good() { W.MainKeepsInv(View(), finished); }
      hide W.Inv;
      match pc {
        case RunLoop =>
          var id := taskQueue.Pop();
          pc := if id.Some? then W.Dispatch(id.value) else W.BeforeSleep;
        case Dispatch(id) =>
          if id !in tasks {
            pc := W.RunLoop;
          } else if id != keyboard {
            pc := W.PollOther(id);
          } else if scancodeQueue == null {
            pc := W.CreateStream;
          } else {
            pc := W.FastPop;
          }
        case PollOther(id) =>
          if finished {
            tasks := tasks - {id};
          }
          pc := W.RunLoop;
        case BeforeSleep =>
          pc := W.SleepCheck;
        case SleepCheck =>
          var empty := taskQueue.IsEmpty();
          pc := if empty then W.Halted else W.RunLoop;
        case Halted =>
      }
    }

    /** The steps of `ScancodeStream::new` and `poll_next`. */
    method StreamStep()
      requires Valid()
      requires pc.CreateStream? || pc.FastPop? || pc.Register? || pc.SecondPop? || pc.TakeWaker? || pc.Deliver?
      requires pc.CreateStream? <==> scancodeQueue == null
      modifies Footprint()
      ensures Valid() && fresh(Footprint() - old(Footprint()))
      ensures forall finished :: View() == W.MainStep(old(View()), finished)
      ensures old(Good()) ==> Good()
    {
      if Good() { W.MainKeepsInv(View(), false); }
      hide W.Inv;
      match pc {
        case CreateStream =>
          scancodeQueue := new ArrayQueue<nat>(W.MAX_SCANCODES);
          pc := W.FastPop;
        case FastPop =>
          var code := scancodeQueue.Pop();
          pc := if code.Some? then W.Deliver(code.value) else W.Register;
        case Register =>
          cell.Register(keyboard);
          pc := W.SecondPop;
        case SecondPop =>
          var code := scancodeQueue.Pop();
          pc := if code.Some? then W.TakeWaker(code.value) else W.RunLoop;
        case TakeWaker(code) =>
          var _ := cell.Take();
          pc := W.Deliver(code);
        case Deliver(code) =>
          delivered := delivered + [code];
          pc := W.FastPop;
      }
    }
  }
}
