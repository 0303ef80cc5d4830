/** The timer manager of kernel/timer.cpp and the interrupt handler that switches tasks. */
module TimerManagers {
  import opened Messages
  import opened Tasks
  import opened TaskMeanings
  import opened Timers
  import TaskManagers

  const SENTINEL := Timer(NEVER, -1)

  function TimeoutMessage(t: Timer): Message {
    TimerTimeout(t.timeout, t.value)
  }

  /** The scheduler after these timers sent their messages to the main task, one after the other. */
  ghost function SendAll(s: Sched, sent: seq<Timer>): (r: Sched)
    requires Inv(s)
    ensures Inv(r)
    decreases |sent|
  {
    if sent == [] then s
    else
      var r := SendAll(s, sent[..|sent| - 1]);
      var op := Op.Send(MAIN_TASK, TimeoutMessage(sent[|sent| - 1]));
      StepKeepsInv(r, op);
      Step(r, op)
  }

  lemma SendOneMore(s: Sched, sent: seq<Timer>, t: Timer)
    requires Inv(s)
    ensures var r := SendAll(s, sent);
            SendAll(s, sent + [t])
            == if MAIN_TASK in r.tasks then Tasks.SendMessage(r, MAIN_TASK, TimeoutMessage(t)) else r
  {
    var more := sent + [t];
    assert more[..|more| - 1] == sent;
  }

  /**
   * What these timers did to the tasks: the main task, if it lives, got one message for each of them in order, with the
   * timer's timeout and value, and runs if there was one; every other task is as it was.
   */
  ghost predicate TimersDelivered(s: Sched, sent: seq<Timer>, r: Sched) {
    && r.tasks.Keys == s.tasks.Keys
    && (forall id | id in s.tasks && id != 1 :: r.tasks[id] == s.tasks[id])
    && (1 in s.tasks ==>
          var before, after := s.tasks[1].msgs, r.tasks[1].msgs;
          && |after| == |before| + |sent| && before <= after
          && (forall k | 0 <= k < |sent| :: after[|before| + k] == TimerTimeout(sent[k].timeout, sent[k].value))
          && (r.tasks[1].running <==> s.tasks[1].running || sent != [])
          && r.tasks[1].level == s.tasks[1].level)
    && r.finished == s.finished && r.waiters == s.waiters && r.latestId == s.latestId
  }

  lemma {:induction false} SendAllDelivers(s: Sched, sent: seq<Timer>)
    requires Inv(s)
    ensures TimersDelivered(s, sent, SendAll(s, sent))
    decreases |sent|
  {
    hide Inv, Tasks.SendMessage;
    if sent != [] {
      var front, last := sent[..|sent| - 1], sent[|sent| - 1];
      SendAllDelivers(s, front);
      OneDelivered(s, front, SendAll(s, front), last);
      SendOneMore(s, front, last);
      assert sent == front + [last];
    }
  }

  lemma OneDelivered(s: Sched, front: seq<Timer>, r: Sched, last: Timer)
    requires Inv(r) && TimersDelivered(s, front, r)
    ensures MAIN_TASK in r.tasks ==>
              TimersDelivered(s, front + [last],
                              Tasks.SendMessage(r, MAIN_TASK, TimerTimeout(last.timeout, last.value)))
    ensures MAIN_TASK !in r.tasks ==> TimersDelivered(s, front + [last], r)
  {
    hide Inv, Tasks.SendMessage;
    if MAIN_TASK in r.tasks {
      var m := TimerTimeout(last.timeout, last.value);
      StepMeans(r, Op.Send(MAIN_TASK, m));
      StepKeepsInv(r, Op.Send(MAIN_TASK, m));
    }
  }

  lemma LevelsExist(s: Sched)
    requires Inv(s)
    ensures Shape(s) && (MAIN_TASK in s.tasks ==> s.tasks[MAIN_TASK].level <= MAX_LEVEL)
  {
  }

  lemma RemovedKeepsOthers(ts: seq<Timer>, i: nat)
    requires i < |ts|
    ensures multiset(ts) == multiset(Removed(ts, i)) + multiset{ts[i]}
    ensures forall t | t in ts && t != ts[i] :: t in Removed(ts, i)
    ensures forall t | t in Removed(ts, i) :: t in ts
  {
    assert ts == ts[..i] + [ts[i]] + ts[i + 1..];
    forall t | t in ts && t != ts[i]
      ensures t in Removed(ts, i)
    {
      assert t in multiset(ts) && t in multiset(Removed(ts, i));
    }
  }

  /** Where the loop of a tick stands: what is sent and renewed so far, and what the queue still holds. */
  ghost predicate Ticking(before: seq<Timer>, tick: nat, sent: seq<Timer>, renewed: nat, ts: seq<Timer>) {
    && multiset(sent) + multiset(OneShots(ts, tick)) == multiset(OneShots(before, tick))
    && DueTaskTimers(ts, tick) + renewed == DueTaskTimers(before, tick)
    && multiset(Later(ts, tick)) == multiset(Later(before, tick)) + multiset(Renewed(renewed, tick))
    && Ordered(sent)
    && (forall s, t | s in sent && t in ts :: s.timeout <= t.timeout)
    && forall s | s in sent :: s.timeout <= tick
  }

  lemma TickingStart(before: seq<Timer>, tick: nat)
    ensures Ticking(before, tick, [], 0, before)
  {
  }

  function Renewal(tick: nat): Timer {
    Timer(tick + TASK_TIMER_PERIOD, TASK_TIMER_VALUE)
  }

  lemma RenewParts(ts: seq<Timer>, tick: nat, i: nat)
    requires i < |ts| && ts[i].timeout <= tick && IsTaskTimer(ts[i])
    ensures var ts' := Removed(ts, i) + [Renewal(tick)];
            && multiset(OneShots(ts', tick)) == multiset(OneShots(ts, tick))
            && |OneShots(ts', tick)| == |OneShots(ts, tick)|
            && DueTaskTimers(ts', tick) + 1 == DueTaskTimers(ts, tick)
            && multiset(Later(ts', tick)) == multiset(Later(ts, tick)) + multiset{Renewal(tick)}
            && forall t | t in ts' :: t in ts || t == Renewal(tick)
  {
    RemovedParts(ts, i, tick);
    RemovedKeepsOthers(ts, i);
    AddedParts(Removed(ts, i), Renewal(tick), tick);
    hide OneShots, Later, DueTaskTimers, Removed, Renewal;
  }

  lemma OneMoreRenewed(n: nat, tick: nat)
    ensures multiset(Renewed(n + 1, tick)) == multiset(Renewed(n, tick)) + multiset{Renewal(tick)}
  {
    assert Renewed(n + 1, tick) == Renewed(n, tick) + [Renewal(tick)];
  }

  /** A due task timer is replaced by its next one. */
  lemma TickingRenews(before: seq<Timer>, tick: nat, sent: seq<Timer>, renewed: nat, ts: seq<Timer>, i: nat)
    requires Ticking(before, tick, sent, renewed, ts) && i < |ts|
    requires ts[i].timeout <= tick && IsTaskTimer(ts[i])
    ensures Ticking(before, tick, sent, renewed + 1, Removed(ts, i) + [Renewal(tick)])
    ensures Due(Removed(ts, i) + [Renewal(tick)], tick) < Due(ts, tick)
  {
    RenewParts(ts, tick, i);
    OneMoreRenewed(renewed, tick);
    hide OneShots, Later, DueTaskTimers, Removed, Renewed;
    var ts' := Removed(ts, i) + [Renewal(tick)];
    forall s, t | s in sent && t in ts'
      ensures s.timeout <= t.timeout
    {
      assert t in ts || t == Renewal(tick);
    }
  }

  /** A due one-shot timer is sent, which is the earliest of all. */
  lemma TickingSends(before: seq<Timer>, tick: nat, sent: seq<Timer>, renewed: nat, ts: seq<Timer>, i: nat)
    requires Ticking(before, tick, sent, renewed, ts) && i < |ts|
    requires ts[i].timeout <= tick && !IsTaskTimer(ts[i]) && forall t | t in ts :: ts[i].timeout <= t.timeout
    ensures Ticking(before, tick, sent + [ts[i]], renewed, Removed(ts, i))
    ensures Due(Removed(ts, i), tick) < Due(ts, tick)
  {
    hide OneShots, Later, DueTaskTimers, Removed, Renewed, Ordered;
    SendParts(ts, tick, i);
    SentInOrder(sent, ts, i);
    assert multiset(sent + [ts[i]]) == multiset(sent) + multiset{ts[i]};
  }

  lemma SendParts(ts: seq<Timer>, tick: nat, i: nat)
    requires i < |ts| && ts[i].timeout <= tick && !IsTaskTimer(ts[i])
    ensures var ts' := Removed(ts, i);
            && multiset(OneShots(ts, tick)) == multiset{ts[i]} + multiset(OneShots(ts', tick))
            && |OneShots(ts, tick)| == |OneShots(ts', tick)| + 1
            && DueTaskTimers(ts', tick) == DueTaskTimers(ts, tick)
            && multiset(Later(ts', tick)) == multiset(Later(ts, tick))
            && forall t | t in ts' :: t in ts
  {
    RemovedParts(ts, i, tick);
    RemovedKeepsOthers(ts, i);
    hide OneShots, Later, DueTaskTimers, Removed;
  }

  lemma SentInOrder(sent: seq<Timer>, ts: seq<Timer>, i: nat)
    requires i < |ts| && Ordered(sent) && forall s, t | s in sent && t in ts :: s.timeout <= t.timeout
    ensures Ordered(sent + [ts[i]])
  {
    forall j, k | 0 <= j < k < |sent| + 1
      ensures (sent + [ts[i]])[j].timeout <= (sent + [ts[i]])[k].timeout
    {
      assert sent[j] in sent;
    }
  }

  lemma {:induction false} NothingDue(ts: seq<Timer>, tick: nat)
    requires forall t | t in ts :: t.timeout > tick
    ensures OneShots(ts, tick) == [] && DueTaskTimers(ts, tick) == 0
    decreases |ts|
  {
    if ts != [] {
      NothingDue(ts[1..], tick);
    }
  }

  lemma TickingEnds(before: seq<Timer>, tick: nat, sent: seq<Timer>, renewed: nat, ts: seq<Timer>)
    requires Ticking(before, tick, sent, renewed, ts) && forall t | t in ts :: t.timeout > tick
    ensures Ticked(before, tick, sent, ts) && renewed == DueTaskTimers(before, tick)
  {
    hide OneShots, Later, DueTaskTimers, Renewed, Ordered;
    NothingDueIff(ts, tick);
    NothingDue(ts, tick);
    assert multiset(sent) == multiset(OneShots(before, tick));
  }

  class TimerManager {
    const taskManager: TaskManagers.TaskManager
    var tick: nat
    var timers: seq<Timer>

    /** The queue is never empty: its sentinel does not come due before the counter wraps. */
    ghost predicate Valid()
      reads this, taskManager, taskManager.running
    {
      SENTINEL in timers && tick < NEVER - 1 && Inv(taskManager.State())
    }

    constructor (taskManager: TaskManagers.TaskManager)
      requires Inv(taskManager.State())
      ensures Valid() && this.taskManager == taskManager && tick == 0 && timers == [SENTINEL]
    {
      this.taskManager := taskManager;
      tick, timers := 0, [SENTINEL];
    }

    method AddTimer(timer: Timer)
      modifies `timers
      ensures timers == old(timers) + [timer]
    {
      timers := timers + [timer];
    }

    /** The queue's top: a timer with the smallest timeout; which one among equals is not specified. */
    method Top() returns (i: nat)
      requires timers != []
      ensures i < |timers| && forall t | t in timers :: timers[i].timeout <= t.timeout
    {
      i := 0;
      var k := 1;
      while k < |timers|
        invariant 1 <= k <= |timers| && i < |timers|
        invariant forall j | 0 <= j < k :: timers[i].timeout <= timers[j].timeout
      {
        if timers[k].timeout < timers[i].timeout {
          i := k;
        }
        k := k + 1;
      }
    }

    /** One tick; reports whether a task timer was due. */
    method Tick() returns (taskTimerTimeout: bool, ghost sent: seq<Timer>)
      requires Valid()
      modifies this, taskManager, taskManager.running
      ensures tick == old(tick) + 1 && SENTINEL in timers && Inv(taskManager.State())
      ensures Ticked(old(timers), tick, sent, timers)
      ensures taskTimerTimeout <==> DueTaskTimers(old(timers), tick) > 0
      ensures taskManager.State() == SendAll(old(taskManager.State()), sent)
      ensures TimersDelivered(old(taskManager.State()), sent, taskManager.State())
    {
      tick := tick + 1;
      taskTimerTimeout, sent := false, [];
      ghost var before, s0, renewed := timers, taskManager.State(), 0;
      TickingStart(before, tick);
      hide Ticking, OneShots, Later, DueTaskTimers, Due, Ticked, Inv, SendAll, Tasks.SendMessage, Removed,
           TimersDelivered;
      while true
        invariant tick == old(tick) + 1 && SENTINEL in timers
        invariant Ticking(before, tick, sent, renewed, timers)
        invariant taskTimerTimeout <==> renewed > 0
        invariant Inv(s0) && taskManager.State() == SendAll(s0, sent)
        decreases Due(timers, tick)
      {
        var i := Top();
        var t := timers[i];
        if t.timeout > tick {
          TickingEnds(before, tick, sent, renewed, timers);
          SendAllDelivers(s0, sent);
          break;
        }
        RemovedKeepsOthers(timers, i);
        if t.value == TASK_TIMER_VALUE {
          TickingRenews(before, tick, sent, renewed, timers, i);
          taskTimerTimeout, renewed := true, renewed + 1;
          timers := Removed(timers, i) + [Renewal(tick)];
          continue;
        }
        TickingSends(before, tick, sent, renewed, timers, i);
        SendOneMore(s0, sent, t);
        LevelsExist(taskManager.State());
        var _ := taskManager.SendMessage(MAIN_TASK, TimeoutMessage(t));
        timers := Removed(timers, i);
        sent := sent + [t];
      }
    }

    /** LAPICTimerOnInterrupt: a tick, and a task switch if the task timer was due. */
    method OnInterrupt() returns (ghost sent: seq<Timer>)
      requires Valid()
      modifies this, taskManager, taskManager.running
      ensures tick == old(tick) + 1 && SENTINEL in timers && Ticked(old(timers), tick, sent, timers)
      ensures var s := SendAll(old(taskManager.State()), sent);
              taskManager.State() == if DueTaskTimers(old(timers), tick) > 0 then Rotate(s, false) else s
    {
      var taskTimerTimeout;
      taskTimerTimeout, sent := Tick();
      if taskTimerTimeout {
        taskManager.SwitchTask();
      }
    }
  }
}
