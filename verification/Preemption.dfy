/** Bounded waiting: scheduler and task timer of kernel/task.cpp and kernel/timer.cpp together. */
module Preemption {
  import opened Tasks
  import opened Timers
  import opened TimerManagers
  import TimerRuns

  // ---------------------------------------------------------------- places in a queue

  /** The place of a task in a queue, or the queue's length. */
  function IndexOf(queue: seq<nat>, x: nat): (r: nat)
    ensures r <= |queue|
    ensures r < |queue| ==> queue[r] == x
    ensures x in queue ==> r < |queue|
  {
    if queue == [] || queue[0] == x then 0 else 1 + IndexOf(queue[1..], x)
  }

  lemma {:induction false} IndexBehind(queue: seq<nat>, y: nat, x: nat)
    requires x in queue
    ensures IndexOf(queue + [y], x) == IndexOf(queue, x)
    decreases |queue|
  {
    assert (queue + [y])[0] == queue[0];
    if queue[0] != x {
      IndexBehind(queue[1..], y, x);
      assert (queue + [y])[1..] == queue[1..] + [y];
    }
  }

  lemma {:induction false} IndexWithout(queue: seq<nat>, y: nat, x: nat)
    requires x in queue && x != y
    ensures x in Without(queue, y) && IndexOf(Without(queue, y), x) <= IndexOf(queue, x)
    decreases |queue|
  {
    if queue[0] != x {
      IndexWithout(queue[1..], y, x);
      if queue[0] != y {
        assert ([queue[0]] + Without(queue[1..], y))[1..] == Without(queue[1..], y);
      }
    }
  }

  lemma IndexPopped(queue: seq<nat>, x: nat)
    requires x in queue && queue[0] != x
    ensures x in queue[1..] && IndexOf(queue[1..], x) == IndexOf(queue, x) - 1
  {
  }

  // ---------------------------------------------------------------- undisturbed steps

  /** The task is ready on the current level, which is the highest one with tasks. */
  ghost predicate Ready(s: Sched, x: nat) {
    Inv(s) && OnTop(s) && !s.levelChanged && x in s.queues[s.level]
  }

  function Place(s: Sched, x: nat): nat
    requires Shape(s)
  {
    IndexOf(s.queues[s.level], x)
  }

  /** Waking this task does not put it above the current level. */
  predicate WakesBelow(s: Sched, id: nat) {
    id in s.tasks ==> s.tasks[id].level <= s.level
  }

  /**
   * x neither sleeps nor changes its level, the current task keeps its level, and nobody is woken or
   * moved above the current level.
   */
  predicate Quiet(s: Sched, op: Op, x: nat)
    requires Shape(s)
  {
    match op
    case Wake(id, level) =>
      id in s.tasks ==>
        && (level < 0 ==> s.tasks[id].running || s.tasks[id].level <= s.level)
        && level <= s.level
        && (id == x || id == Current(s) ==> level < 0 || level == s.tasks[id].level)
    case Suspend(id) => id != x
    case Send(id, _) => id in s.tasks ==> s.tasks[id].running || s.tasks[id].level <= s.level
    case Exit(_) => Current(s) in s.waiters ==> WakesBelow(s, s.waiters[Current(s)])
    case _ => true
  }

  /** Operations that take the processor away from the current task. */
  predicate Rotates(s: Sched, op: Op)
    requires Shape(s)
  {
    match op
    case Switch => true
    case Exit(_) => true
    case Suspend(id) => id == Current(s)
    case Await(id) => id !in s.finished
    case _ => false
  }

  /** After a step x is still ready on the same level, no further back, and further in front after a rotation. */
  ghost predicate Nearer(s: Sched, s': Sched, x: nat, rotated: bool)
    requires Shape(s)
  {
    && Ready(s', x)
    && s'.level == s.level
    && Place(s', x) + (if rotated then 1 else 0) <= Place(s, x)
  }

  /** A rotation takes x one place on; the level stays, since x is in its queue. */
  lemma RotateNearer(s: Sched, s': Sched, x: nat, sleep: bool)
    requires Ready(s, x) && Current(s) != x
    requires s'.queues == Rotate(s, sleep).queues && s'.level == Rotate(s, sleep).level && Inv(s') && !s'.levelChanged
    ensures Nearer(s, s', x, true)
  {
    var q := s.queues[s.level];
    IndexPopped(q, x);
    if !sleep {
      IndexBehind(q[1..], q[0], x);
    }
  }

  /** Waking or moving a task below the current level leaves x where it is, or one place nearer. */
  lemma WakeNearer(s: Sched, id: nat, level: int, x: nat)
    requires Ready(s, x) && id in s.tasks && level <= s.level
    requires level < 0 ==> s.tasks[id].running || s.tasks[id].level <= s.level
    requires id == x || id == Current(s) ==> level < 0 || level == s.tasks[id].level
    ensures Nearer(s, Wakeup(s, id, level), x, false)
  {
    var t, q := s.tasks[id], s.queues[s.level];
    WakeupKeepsInv(s, id, level);
    assert QueueExact(s, s.level);
    if !t.running {
      IndexBehind(q, id, x);
    } else if level >= 0 && level != t.level {
      IndexBehind(q, id, x);
      IndexWithout(q, id, x);
    }
  }

  lemma SuspendNearer(s: Sched, id: nat, x: nat)
    requires Ready(s, x) && id in s.tasks && id != x && id != IDLE_TASK && id != Current(s)
    ensures Nearer(s, Sleep(s, id), x, false)
  {
    SleepKeepsInv(s, id);
    if s.tasks[id].running {
      IndexWithout(s.queues[s.level], id, x);
    }
  }

  lemma SendNearer(s: Sched, id: nat, op: Op, x: nat)
    requires Ready(s, x) && id in s.tasks && op.Send? && op.id == id && Quiet(s, op, x)
    ensures Nearer(s, SendMessage(s, id, op.m), x, false)
  {
    var msgs := s.tasks[id].msgs + [op.m];
    MessagesKeepInv(s, id, msgs);
    var r := SetTask(s, id, s.tasks[id].(msgs := msgs));
    assert Ready(r, x);
    WakeNearer(r, id, -1, x);
  }

  lemma ExitNearer(s: Sched, code: int, x: nat)
    requires Ready(s, x) && Current(s) != x && Current(s) != IDLE_TASK && Quiet(s, Op.Exit(code), x)
    ensures Nearer(s, Finish(s, code), x, true)
  {
    var id, r := Current(s), Ended(s, code);
    EndedKeepsInv(s, code);
    RotateNearer(s, r, x, true);
    if id in r.waiters {
      var waiter, woken := r.waiters[id], r.(waiters := r.waiters - {id});
      SameQueues(r, woken);
      assert Ready(woken, x);
      if waiter in r.tasks {
        CurrentRuns(woken);
        WakeNearer(woken, waiter, -1, x);
      }
    }
  }

  lemma AwaitNearer(s: Sched, id: nat, x: nat)
    requires Ready(s, x) && Current(s) != x && Current(s) != IDLE_TASK
    ensures Current(s) in s.tasks
    ensures Nearer(s, WaitFinish(s, id).sched, x, id !in s.finished)
  {
    CurrentRuns(s);
    WaitKeepsInv(s, id);
    if id in s.finished {
      SameQueues(s, WaitFinish(s, id).sched);
    } else {
      var r := s.(waiters := s.waiters[id := Current(s)]);
      SameQueues(s, r);
      SleepKeepsInv(r, Current(s));
      RotateNearer(s, Sleep(r, Current(s)), x, true);
    }
  }

  /** Every undisturbed step brings the task nearer, if only a rotation does so for certain. */
  lemma StepNearer(s: Sched, op: Op, x: nat)
    requires Ready(s, x) && Current(s) != x && Allowed(s, op) && Quiet(s, op, x)
    ensures Nearer(s, Step(s, op), x, Rotates(s, op))
  {
    match op
    case Create => NewTaskKeepsInv(s);
    case Wake(id, level) => if id in s.tasks { WakeNearer(s, id, level, x); }
    case Suspend(id) =>
      CurrentRuns(s);
      if id == Current(s) {
        SleepKeepsInv(s, id);
        RotateNearer(s, Sleep(s, id), x, true);
      } else if id in s.tasks {
        SuspendNearer(s, id, x);
      }
    case Send(id, m) => if id in s.tasks { SendNearer(s, id, op, x); }
    case Receive(id) => if id in s.tasks && s.tasks[id].msgs != [] { MessagesKeepInv(s, id, s.tasks[id].msgs[1..]); }
    case Switch =>
      SwitchKeepsInv(s);
      RotateNearer(s, Rotate(s, false), x, false);
    case Exit(code) => ExitNearer(s, code, x);
    case Await(id) => AwaitNearer(s, id, x);
  }

  // ---------------------------------------------------------------- runs

  /** A run in which x is left alone until it becomes current. */
  ghost predicate Undisturbed(s: Sched, ops: seq<Op>, x: nat)
    requires Inv(s)
    decreases |ops|
  {
    ops == [] || Current(s) == x ||
    (Allowed(s, ops[0]) && Quiet(s, ops[0], x) && (StepKeepsInv(s, ops[0]); Undisturbed(Step(s, ops[0]), ops[1..], x)))
  }

  /** x becomes current at some point of the run. */
  ghost predicate GetsTurn(s: Sched, ops: seq<Op>, x: nat)
    requires Inv(s) && Undisturbed(s, ops, x)
    decreases |ops|
  {
    Current(s) == x || (ops != [] && (StepKeepsInv(s, ops[0]); GetsTurn(Step(s, ops[0]), ops[1..], x)))
  }

  function Switches(ops: seq<Op>): nat {
    if ops == [] then 0 else (if ops[0].Switch? then 1 else 0) + Switches(ops[1..])
  }

  /** A ready task at place p becomes current within p task switches, whatever else happens below its level. */
  lemma {:induction false} TurnWithinSwitches(s: Sched, ops: seq<Op>, x: nat)
    requires Ready(s, x) && Undisturbed(s, ops, x) && Place(s, x) <= Switches(ops)
    ensures GetsTurn(s, ops, x)
    decreases |ops|
  {
    if Current(s) != x {
      var s' := Step(s, ops[0]);
      StepNearer(s, ops[0], x);
      TurnWithinSwitches(s', ops[1..], x);
    }
  }

  // ---------------------------------------------------------------- ticks

  /** The messages of a tick, as operations. */
  function Messages(sent: seq<Timer>): seq<Op> {
    seq(|sent|, i requires 0 <= i < |sent| => Op.Send(MAIN_TASK, TimeoutMessage(sent[i])))
  }

  /**
   * Everything that happens in n ticks: what tasks and handlers do before each tick, the messages the
   * tick sends, and the switch if the task timer was due.
   */
  ghost function Timeline(tick: nat, pending: seq<Timer>, rounds: seq<TimerRuns.Round>, between: seq<seq<Op>>,
                          n: nat): seq<Op>
    requires n <= |rounds| && n <= |between|
  {
    if n == 0 then []
    else
      var r := rounds[n - 1];
      Timeline(tick, pending, rounds, between, n - 1) + between[n - 1] + Messages(r.sent)
      + if DueTaskTimers(TimerRuns.After(pending, rounds, n - 1) + r.added, tick + n) > 0 then [Switch] else []
  }

  lemma {:induction false} SwitchesAppend(a: seq<Op>, b: seq<Op>)
    ensures Switches(a + b) == Switches(a) + Switches(b)
    decreases |a|
  {
    if a == [] {
      assert a + b == b;
    } else {
      SwitchesAppend(a[1..], b);
      assert (a + b)[1..] == a[1..] + b;
    }
  }

  lemma LastSwitches(a: seq<Op>, b: seq<Op>, c: seq<Op>, d: seq<Op>)
    ensures Switches(a + b + c + d) >= Switches(a) + Switches(d)
  {
    SwitchesAppend(a + b + c, d);
    SwitchesAppend(a + b, c);
    SwitchesAppend(a, b);
  }

  lemma OneSwitch()
    ensures Switches([Switch]) == 1 && Switches([]) == 0
  {
    assert [Switch][1..] == [];
  }

  /** Ticks up to the n-th, counted from the last one at which a task timer armed for `next` could have fired. */
  function Since(tick: nat, next: nat, n: nat): nat
    requires tick < next <= tick + TASK_TIMER_PERIOD
  {
    n + TASK_TIMER_PERIOD - (next - tick)
  }

  lemma EverySecond(tick: nat, next: nat, n: nat)
    requires tick < next <= tick + TASK_TIMER_PERIOD && n > 0
    ensures Since(tick, next, n) / TASK_TIMER_PERIOD
         == Since(tick, next, n - 1) / TASK_TIMER_PERIOD + (n - 1 + next - tick) % 2
    ensures Since(tick, next, 0) / TASK_TIMER_PERIOD == 0
  {
  }

  lemma NoSwitchYet(tick: nat, pending: seq<Timer>, rounds: seq<TimerRuns.Round>, between: seq<seq<Op>>)
    ensures Switches(Timeline(tick, pending, rounds, between, 0)) == 0
  {
  }

  /** The task timers that come due in the n-th tick. */
  ghost function DueIn(tick: nat, pending: seq<Timer>, rounds: seq<TimerRuns.Round>, n: nat): nat
    requires 0 < n <= |rounds|
  {
    DueTaskTimers(TimerRuns.After(pending, rounds, n - 1) + rounds[n - 1].added, tick + n)
  }

  lemma DueEverySecond(tick: nat, pending: seq<Timer>, next: nat, rounds: seq<TimerRuns.Round>, n: nat)
    requires TimerRuns.Rounds(tick, pending, rounds) && TimerRuns.NoneAdded(rounds)
    requires TimerRuns.ArmedFor(tick, pending, next) && 0 < n <= |rounds|
    ensures DueIn(tick, pending, rounds, n) == (n - 1 + next - tick) % 2
  {
    hide TimerRuns.Rounds, TimerRuns.NoneAdded, TimerRuns.Armed, TimerRuns.After, DueTaskTimers;
    TimerRuns.FiresEverySecondTick(tick, pending, next, rounds, n - 1);
    assert tick + (n - 1) + 1 == tick + n;
  }

  /** The last round of a timeline adds a switch if a task timer was due. */
  lemma LastRound(tick: nat, pending: seq<Timer>, rounds: seq<TimerRuns.Round>, between: seq<seq<Op>>, n: nat)
    requires 0 < n <= |rounds| && n <= |between|
    ensures Switches(Timeline(tick, pending, rounds, between, n)) >=
              Switches(Timeline(tick, pending, rounds, between, n - 1)) +
              if DueIn(tick, pending, rounds, n) > 0 then 1 else 0
  {
    hide TimerRuns.After, DueTaskTimers, Messages, Switches;
    var due := DueIn(tick, pending, rounds, n) > 0;
    LastSwitches(Timeline(tick, pending, rounds, between, n - 1), between[n - 1], Messages(rounds[n - 1].sent),
                 if due then [Switch] else []);
    OneSwitch();
  }

  /** An armed task timer switches tasks once in every period. */
  lemma {:induction false} SwitchEverySecondTick(tick: nat, pending: seq<Timer>, next: nat,
                                                 rounds: seq<TimerRuns.Round>, between: seq<seq<Op>>, n: nat)
    requires TimerRuns.Rounds(tick, pending, rounds) && TimerRuns.NoneAdded(rounds)
    requires TimerRuns.ArmedFor(tick, pending, next)
    requires n <= |rounds| && n <= |between|
    ensures Switches(Timeline(tick, pending, rounds, between, n)) >= Since(tick, next, n) / TASK_TIMER_PERIOD
    decreases n
  {
    hide TimerRuns.Rounds, TimerRuns.NoneAdded, TimerRuns.Armed, DueIn, Switches, Timeline, Since;
    EverySecond(tick, next, if n > 0 then n else 1);
    if n > 0 {
      SwitchEverySecondTick(tick, pending, next, rounds, between, n - 1);
      DueEverySecond(tick, pending, next, rounds, n);
      LastRound(tick, pending, rounds, between, n);
    } else {
      NoSwitchYet(tick, pending, rounds, between);
    }
  }

  lemma EnoughTicks(tick: nat, next: nat, n: nat, place: nat)
    requires tick < next <= tick + TASK_TIMER_PERIOD
    requires place > 0 ==> next - tick + TASK_TIMER_PERIOD * (place - 1) <= n
    ensures place <= Since(tick, next, n) / TASK_TIMER_PERIOD
    ensures next - tick + TASK_TIMER_PERIOD * (place - 1) <= TASK_TIMER_PERIOD * place
  {
  }

  /**
   * Bounded waiting: whenever the armed task timer comes due next, a task at place p of the current level's queue that
   * is left alone becomes current when it has fired p times, which is within TASK_TIMER_PERIOD * p ticks.
   */
  lemma TurnWithinTicks(s: Sched, x: nat, tick: nat, pending: seq<Timer>, next: nat, rounds: seq<TimerRuns.Round>,
                        between: seq<seq<Op>>)
    requires Ready(s, x) && |rounds| == |between|
    requires Place(s, x) > 0 ==> next - tick + TASK_TIMER_PERIOD * (Place(s, x) - 1) <= |rounds|
    requires TimerRuns.Rounds(tick, pending, rounds) && TimerRuns.NoneAdded(rounds)
    requires TimerRuns.ArmedFor(tick, pending, next)
    requires Undisturbed(s, Timeline(tick, pending, rounds, between, |rounds|), x)
    ensures GetsTurn(s, Timeline(tick, pending, rounds, between, |rounds|), x)
    ensures next - tick + TASK_TIMER_PERIOD * (Place(s, x) - 1) <= TASK_TIMER_PERIOD * Place(s, x)
  {
    SwitchEverySecondTick(tick, pending, next, rounds, between, |rounds|);
    EnoughTicks(tick, next, |rounds|, Place(s, x));
    TurnWithinSwitches(s, Timeline(tick, pending, rounds, between, |rounds|), x);
  }
}
