/** The wake protocol driven event by event: which scancodes are accepted and delivered, and which tasks
    are polled, over every interleaving of main-thread steps and interrupts. */
module WakeEvents {
  import opened Options
  import opened FreeLists
  import opened WakeProtocol

  /** A main-thread step, a keyboard interrupt, or another interrupt that ends a halt. */
  datatype Event = Main(finished: bool) | Key(code: nat) | Other

  predicate Enabled(s: State, e: Event) {
    match e
    case Main(_) => true
    case Key(_) => InterruptsEnabled(s)
    case Other => s.pc.Halted?
  }

  function Next(s: State, e: Event): State {
    match e
    case Main(finished) => MainStep(s, finished)
    case Key(code) => Interrupt(s, code)
    case Other => s.(pc := RunLoop)
  }

  ghost function After(s: State, events: seq<Event>): State
    decreases |events|
  {
    if |events| == 0 then s else Next(After(s, events[..|events| - 1]), events[|events| - 1])
  }

  /** The events can happen in this order. */
  ghost predicate Schedule(s: State, events: seq<Event>)
    decreases |events|
  {
    |events| > 0 ==>
      var before := events[..|events| - 1];
      Schedule(s, before) && Enabled(After(s, before), events[|events| - 1])
  }

  lemma NextKeepsInv(s: State, e: Event)
    requires Inv(s) && Enabled(s, e)
    ensures Inv(Next(s, e)) && Step(s, Next(s, e))
  {
    hide Inv, MainStep, Interrupt;
    match e {
      case Main(finished) => MainKeepsInv(s, finished);
      case Key(code) => InterruptKeepsInv(s, code);
      case Other => WakeFromHalt(s);
    }
  }

  lemma {:induction false} AfterInv(s: State, events: seq<Event>)
    requires Init(s) && Schedule(s, events)
    ensures Inv(After(s, events))
    decreases |events|
  {
    hide Inv, Init, Next, Enabled;
    if |events| == 0 {
      InitInv(s);
    } else {
      var before := events[..|events| - 1];
      AfterInv(s, before);
      NextKeepsInv(After(s, before), events[|events| - 1]);
    }
  }

  // ---------------------------------------------------------------- which scancodes are accepted

  /** The scancodes the keyboard task has taken out of the queue. */
  function Taken(s: State): nat {
    |s.delivered| + |InFlight(s)|
  }

  /** A scancode is accepted exactly when the stream exists and fewer than 100 are waiting; otherwise
      nothing is. */
  lemma AcceptedIffRoom(s: State, code: nat)
    requires Inv(s)
    ensures Interrupt(s, code).accepted ==
            if s.created && |s.accepted| - Taken(s) < 100 then s.accepted + [code] else s.accepted
  {
    hide WakePending, QueueOk, StreamOk;
    assert |s.accepted| - Taken(s) == |s.scancodes|;
  }

  /** The scancodes a listener counts on: those sent once the stream exists and with fewer than 100 of
      the earlier ones still waiting. */
  ghost function Heard(s: State, events: seq<Event>): seq<nat>
    decreases |events|
  {
    if |events| == 0 then []
    else
      var before := events[..|events| - 1];
      var now := After(s, before);
      match events[|events| - 1]
      case Key(code) =>
        if now.created && |Heard(s, before)| - Taken(now) < 100 then Heard(s, before) + [code] else Heard(s, before)
      case _ => Heard(s, before)
  }

  /** Exactly those are accepted, in order, over every interleaving. */
  lemma {:induction false} HeardIsAccepted(s: State, events: seq<Event>)
    requires Init(s) && Schedule(s, events)
    ensures After(s, events).accepted == Heard(s, events)
    decreases |events|
  {
    hide Inv, Init, MainStep, Interrupt, Taken, Enabled;
    if |events| == 0 {
      InitAccepted(s);
    } else {
      var before := events[..|events| - 1];
      var now := After(s, before);
      HeardIsAccepted(s, before);
      AfterInv(s, before);
      match events[|events| - 1] {
        case Main(finished) => MainAcceptsNothing(now, finished);
        case Key(code) => AcceptedIffRoom(now, code);
        case Other =>
      }
    }
  }

  lemma InitAccepted(s: State)
    requires Init(s)
    ensures s.accepted == []
  {
    var ids: seq<TaskId> :| SpawnAll(s.keyboard, ids) == Some(s) && s.keyboard in ids;
    SpawnAllIff(s.keyboard, ids);
  }

  /** And all of them are delivered: whatever has happened, once interrupts pause the main thread halts
      with everything heard delivered, in order. */
  lemma HeardIsDelivered(s: State, events: seq<Event>, oracle: nat -> bool) returns (n: nat)
    requires Init(s) && Schedule(s, events)
    ensures var end := Quiet(After(s, events), oracle, n);
            end.pc.Halted? && end.delivered == Heard(s, events)
  {
    hide Inv, Init, MainStep, Quiet, Heard, After;
    AfterInv(s, events);
    HeardIsAccepted(s, events);
    n := EventuallyDelivered(After(s, events), oracle);
  }

  // ---------------------------------------------------------------- which tasks are polled

  /** Event `k` polls task `id`. */
  ghost predicate PollsAt(s: State, events: seq<Event>, k: nat, id: TaskId) {
    k < |events| && events[k].Main? && After(s, events[..k]).pc == PollOther(id)
  }

  /** Event `k` polls `id`, and no other event does. */
  ghost predicate PolledOnceAt(s: State, events: seq<Event>, k: nat, id: TaskId) {
    && k < |events| && events[k].Main? && PollsAt(s, events, k, id)
    && forall j: nat :: PollsAt(s, events, j, id) ==> j == k
  }

  predicate InHand(t: State, id: TaskId) {
    t.pc == Dispatch(id) || t.pc == PollOther(id)
  }

  /** The task still has its first poll ahead. */
  ghost predicate Unpolled(s: State, events: seq<Event>, t: State, id: TaskId) {
    && (id in t.taskQueue <==> !InHand(t, id)) && id in t.tasks
    && forall k: nat :: !PollsAt(s, events, k, id)
  }

  /** The task has been polled, and is gone exactly if that poll finished it. */
  ghost predicate Polled(s: State, events: seq<Event>, t: State, id: TaskId) {
    && id !in t.taskQueue && !InHand(t, id)
    && exists k: nat :: PolledOnceAt(s, events, k, id) && (id in t.tasks <==> !events[k].finished)
  }

  /** The last event adds itself to the polls of the earlier ones. */
  lemma PollsPrefix(s: State, events: seq<Event>, k: nat, id: TaskId)
    requires |events| > 0
    ensures var n := |events| - 1;
            PollsAt(s, events, k, id) <==>
              PollsAt(s, events[..n], k, id)
              || (k == n && events[n].Main? && After(s, events[..n]).pc == PollOther(id))
  {
    var n := |events| - 1;
    if k < n { assert events[..n][..k] == events[..k]; }
  }

  /** What one event does to a task other than the keyboard task. */
  lemma NextForTask(s: State, e: Event, id: TaskId)
    requires Inv(s) && Enabled(s, e) && id != s.keyboard && (InHand(s, id) ==> id !in s.taskQueue)
    requires InHand(s, id) || id in s.taskQueue ==> id in s.tasks
    ensures var s' := Next(s, e);
            var polls := e.Main? && s.pc == PollOther(id);
            && s'.keyboard == s.keyboard
            && (polls ==> id !in s'.taskQueue && !InHand(s', id) && (id in s'.tasks <==> !e.finished))
            && (!polls ==>
                  && (id in s'.tasks <==> id in s.tasks)
                  && (id in s'.taskQueue || InHand(s', id) <==> id in s.taskQueue || InHand(s, id))
                  && (InHand(s', id) ==> id !in s'.taskQueue))
  {
    hide WakePending, Conserved;
    match e {
      case Main(finished) =>
        if s.pc.RunLoop? && |s.taskQueue| > 0 {
          PopForTask(s, id);
        }
      case Key(code) => InterruptForTask(s, code, id);
      case Other =>
    }
  }

  lemma PopForTask(s: State, id: TaskId)
    requires QueueOk(s) && id != s.keyboard && |s.taskQueue| > 0
    ensures id in s.taskQueue <==> s.taskQueue[0] == id || id in s.taskQueue[1..]
    ensures s.taskQueue[0] == id ==> id !in s.taskQueue[1..]
  {
    var q := s.taskQueue[1..];
    assert s.taskQueue == [s.taskQueue[0]] + q;
    if id in q {
      var i: nat :| i < |q| && q[i] == id;
      assert s.taskQueue[i + 1] == id;
    }
  }

  lemma InterruptForTask(s: State, code: nat, id: TaskId)
    requires StreamOk(s) && id != s.keyboard
    ensures var s' := Interrupt(s, code);
            && (id in s'.taskQueue <==> id in s.taskQueue) && s'.tasks == s.tasks && s'.keyboard == s.keyboard
            && (InHand(s', id) <==> InHand(s, id))
  {
  }

  lemma {:induction false} PollHistory(s: State, events: seq<Event>, id: TaskId)
    requires Init(s) && Schedule(s, events) && id in s.spawned && id != s.keyboard
    ensures var t := After(s, events);
            t.keyboard == s.keyboard && (Unpolled(s, events, t, id) || Polled(s, events, t, id))
    decreases |events|
  {
    hide Inv, Init, Next, Enabled, InHand;
    if |events| == 0 {
      InitUnpolled(s, events, id);
    } else {
      var n := |events| - 1;
      var before := events[..n];
      var t := After(s, before);
      PollHistory(s, before, id);
      AfterInv(s, before);
      NextForTask(t, events[n], id);
      PollHistoryStep(s, events, id);
    }
  }

  lemma InitUnpolled(s: State, events: seq<Event>, id: TaskId)
    requires Init(s) && events == [] && id in s.spawned
    ensures Unpolled(s, events, s, id)
  {
    var ids: seq<TaskId> :| SpawnAll(s.keyboard, ids) == Some(s) && s.keyboard in ids;
    SpawnAllIff(s.keyboard, ids);
  }

  lemma PollHistoryStep(s: State, events: seq<Event>, id: TaskId)
    requires |events| > 0
    requires var n := |events| - 1;
             var t, t' := After(s, events[..n]), After(s, events);
             var polls := events[n].Main? && t.pc == PollOther(id);
             && (Unpolled(s, events[..n], t, id) || Polled(s, events[..n], t, id))
             && (polls ==> id !in t'.taskQueue && !InHand(t', id) && (id in t'.tasks <==> !events[n].finished))
             && (!polls ==>
                   && (id in t'.tasks <==> id in t.tasks)
                   && (id in t'.taskQueue || InHand(t', id) <==> id in t.taskQueue || InHand(t, id))
                   && (InHand(t', id) ==> id !in t'.taskQueue))
    ensures Unpolled(s, events, After(s, events), id) || Polled(s, events, After(s, events), id)
  {
    hide After, PollsAt;
    var n := |events| - 1;
    var t := After(s, events[..n]);
    forall k: nat
      ensures PollsAt(s, events, k, id) <==>
              PollsAt(s, events[..n], k, id) || (k == n && events[n].Main? && t.pc == PollOther(id))
    {
      PollsPrefix(s, events, k, id);
    }
    if Polled(s, events[..n], t, id) {
      var k: nat :| PolledOnceAt(s, events[..n], k, id) && (id in t.tasks <==> !events[..n][k].finished);
      assert PolledOnceAt(s, events, k, id);
    } else if events[n].Main? && t.pc == PollOther(id) {
      assert PolledOnceAt(s, events, n, id);
    }
  }

  /** Over every interleaving that ends in a halt, each spawned task other than the keyboard task has been
      polled exactly once, and is still a task exactly if that poll did not finish it. */
  lemma EveryTaskPolledOnce(s: State, events: seq<Event>, id: TaskId) returns (k: nat)
    requires Init(s) && Schedule(s, events) && After(s, events).pc.Halted?
    requires id in s.spawned && id != s.keyboard
    ensures PolledOnceAt(s, events, k, id) && k < |events| && events[k].Main?
    ensures id in After(s, events).tasks <==> !events[k].finished
  {
    hide After, PollsAt, Init, Schedule;
    PollHistory(s, events, id);
    AfterInv(s, events);
    var t := After(s, events);
    assert Polled(s, events, t, id);
    k :| PolledOnceAt(s, events, k, id) && (id in t.tasks <==> !events[k].finished);
  }

  /** The keyboard task, which waits for scancodes for ever, always stays a task. */
  lemma KeyboardStays(s: State, events: seq<Event>)
    requires Init(s) && Schedule(s, events)
    ensures After(s, events).keyboard in After(s, events).tasks
  {
    AfterInv(s, events);
  }

  // ---------------------------------------------------------------- one poll per wake

  /** How often `id` is queued. */
  function Queued(q: seq<TaskId>, id: TaskId): nat {
    if |q| == 0 then 0 else Queued(q[..|q| - 1], id) + if q[|q| - 1] == id then 1 else 0
  }

  /** The interrupts that accept a scancode while the waker is registered and the task queue has room. */
  ghost function Wakes(s: State, events: seq<Event>): nat
    decreases |events|
  {
    if |events| == 0 then 0
    else
      var before := events[..|events| - 1];
      var now := After(s, before);
      Wakes(s, before)
      + if events[|events| - 1].Key? && now.created && |now.accepted| - Taken(now) < 100
           && now.waker.Some? && |now.taskQueue| < 100
        then 1 else 0
  }

  /** How often the executor has started to poll the keyboard task. */
  ghost function KeyboardPolls(s: State, events: seq<Event>): nat
    decreases |events|
  {
    if |events| == 0 then 0
    else
      var before := events[..|events| - 1];
      var now := After(s, before);
      KeyboardPolls(s, before) + if events[|events| - 1].Main? && now.pc == Dispatch(now.keyboard) then 1 else 0
  }

  /** Polls of the keyboard task that are still to come. */
  function Owed(t: State): nat {
    Queued(t.taskQueue, t.keyboard) + if t.pc == Dispatch(t.keyboard) then 1 else 0
  }

  lemma {:induction false} QueuedHead(q: seq<TaskId>, id: TaskId)
    requires |q| > 0
    ensures Queued(q, id) == Queued(q[1..], id) + if q[0] == id then 1 else 0
    decreases |q|
  {
    var n := |q| - 1;
    if n > 0 {
      QueuedHead(q[..n], id);
      assert q[..n][1..] == q[1..][..n - 1] && q[1..][n - 1] == q[n];
    }
  }

  lemma QueuedPush(q: seq<TaskId>, id: TaskId)
    ensures Queued(q + [id], id) == Queued(q, id) + 1
  {
    assert (q + [id])[..|q|] == q;
  }

  lemma MainOwes(s: State, finished: bool)
    ensures Owed(MainStep(s, finished)) + (if s.pc == Dispatch(s.keyboard) then 1 else 0) == Owed(s)
    ensures MainStep(s, finished).keyboard == s.keyboard
  {
    hide Queued;
    if s.pc.RunLoop? && |s.taskQueue| > 0 { QueuedHead(s.taskQueue, s.keyboard); }
  }

  lemma InterruptOwes(s: State, code: nat)
    requires Inv(s)
    ensures Owed(Interrupt(s, code)) == Owed(s) +
            if s.created && |s.accepted| - Taken(s) < 100 && s.waker.Some? && |s.taskQueue| < 100 then 1 else 0
    ensures Interrupt(s, code).keyboard == s.keyboard
  {
    hide Queued, WakePending, QueueOk;
    WaitingInQueue(s);
    QueuedPush(s.taskQueue, s.keyboard);
  }

  /** The keyboard task is polled once to start it and once for every wake that reached the queue. */
  lemma {:induction false} OnePollPerWake(s: State, events: seq<Event>)
    requires Init(s) && Schedule(s, events)
    ensures KeyboardPolls(s, events) + Owed(After(s, events)) == 1 + Wakes(s, events)
    decreases |events|
  {
    hide Inv, Init, MainStep, Interrupt, Taken;
    if |events| == 0 {
      InitOwesOne(s);
    } else {
      var before := events[..|events| - 1];
      var now := After(s, before);
      OnePollPerWake(s, before);
      AfterInv(s, before);
      match events[|events| - 1] {
        case Main(finished) => hide Owed; MainOwes(now, finished);
        case Key(code) => hide Owed; InterruptOwes(now, code);
        case Other =>
      }
    }
  }

  lemma InitOwesOne(s: State)
    requires Init(s)
    ensures Owed(s) == 1
  {
    hide Queued;
    var ids: seq<TaskId> :| SpawnAll(s.keyboard, ids) == Some(s) && s.keyboard in ids;
    SpawnAllIff(s.keyboard, ids);
    QueuedOnce(ids, s.keyboard);
  }

  lemma {:induction false} QueuedOnce(ids: seq<TaskId>, id: TaskId)
    requires Distinct(ids)
    ensures Queued(ids, id) == if id in ids then 1 else 0
    decreases |ids|
  {
    if |ids| > 0 {
      var n := |ids| - 1;
      QueuedOnce(ids[..n], id);
      assert ids == ids[..n] + [ids[n]];
      SnocFacts(ids[..n], ids[n]);
      assert id in ids[..n] ==> id in Elements(ids[..n]);
    }
  }

  /** There are such interleavings: main-thread steps alone reach a halt. */
  lemma HaltingSchedule(s: State, oracle: nat -> bool) returns (events: seq<Event>)
    requires Init(s)
    ensures Schedule(s, events) && After(s, events).pc.Halted?
  {
    hide Init, MainStep, Inv;
    InitInv(s);
    var n := EventuallyDelivered(s, oracle);
    events := QuietEvents(s, oracle, n);
  }

  lemma {:induction false} QuietEvents(s: State, oracle: nat -> bool, n: nat) returns (events: seq<Event>)
    ensures |events| == n && Schedule(s, events) && After(s, events) == Quiet(s, oracle, n)
    ensures forall k: nat :: k < n ==> events[k] == Main(oracle(k))
  {
    hide MainStep;
    if n == 0 {
      events := [];
    } else {
      var before := QuietEvents(s, oracle, n - 1);
      events := before + [Main(oracle(n - 1))];
      assert events[..n - 1] == before;
    }
  }
}
