/** What the scheduler's operations do to tasks and records, told without run queues and current level. */
module TaskMeanings {
  import opened Messages
  import opened Tasks

  /** The task's entry after it was made runnable, on this level unless that is negative. */
  function Awake(t: Task, level: int): Task {
    t.(running := true, level := if level < 0 then t.level else level)
  }

  /** What an operation does to the tasks, told without queues and levels that are current. */
  ghost predicate Means(s: Sched, op: Op, s': Sched)
    requires Shape(s)
  {
    var me := Current(s);
    match op
    case Create =>
      s'.tasks == s.tasks[s'.latestId := Task(DEFAULT_LEVEL, false, [])] && s'.latestId == s.latestId + 1
    case Wake(id, level) =>
      s'.tasks == if id in s.tasks then s.tasks[id := Awake(s.tasks[id], level)] else s.tasks
    case Suspend(id) =>
      s'.tasks == if id in s.tasks then s.tasks[id := s.tasks[id].(running := false)] else s.tasks
    case Send(id, m) =>
      s'.tasks == if id in s.tasks then s.tasks[id := Awake(s.tasks[id].(msgs := s.tasks[id].msgs + [m]), -1)]
          else s.tasks
    case Receive(id) =>
      && (id in s.tasks && s.tasks[id].msgs != [] ==>
            s'.tasks == s.tasks[id := s.tasks[id].(msgs := s.tasks[id].msgs[1..])])
      && (id !in s.tasks || s.tasks[id].msgs == [] ==> s' == s)
    case Switch => s'.tasks == s.tasks
    case Exit(code) =>
      var rest := s.tasks - {me};
      && s'.finished == s.finished[me := code]
      && s'.waiters == s.waiters - {me} && s'.latestId == s.latestId
      && s'.tasks == if me in s.waiters && s.waiters[me] in rest
                     then rest[s.waiters[me] := Awake(rest[s.waiters[me]], -1)] else rest
    case Await(id) =>
      && s'.finished == s.finished - {id} && s'.latestId == s.latestId
      && (id in s.finished ==> s'.tasks == s.tasks && s'.waiters == s.waiters)
      && (id !in s.finished ==> me in s.tasks && s'.tasks == s.tasks[me := s.tasks[me].(running := false)]
                                && s'.waiters == s.waiters[id := me])
  }

  ghost predicate SameRecords(s: Sched, s': Sched) {
    s'.finished == s.finished && s'.waiters == s.waiters && s'.latestId == s.latestId
  }

  /** The records of ends and waiters change only when a task finishes or waits, the last id when one is created. */
  ghost predicate RecordsKept(s: Sched, op: Op, s': Sched) {
    && (!op.Exit? && !op.Await? && !op.Create? ==> SameRecords(s, s'))
    && (op.Create? ==> s'.finished == s.finished && s'.waiters == s.waiters)
  }

  lemma SameEntry(tasks: map<nat, Task>, id: nat, t: Task)
    requires id in tasks && tasks[id] == t
    ensures tasks == tasks[id := t]
  {
  }

  lemma ChangeLevelMeans(s: Sched, id: nat, level: int)
    requires Inv(s) && id in s.tasks && s.tasks[id].running && level <= MAX_LEVEL
    ensures ChangeLevelRunning(s, id, level).tasks == s.tasks[id := Awake(s.tasks[id], level)]
  {
    var t := s.tasks[id];
    if level < 0 || level == t.level {
      SameEntry(s.tasks, id, Awake(t, level));
    } else {
      assert Awake(t, level) == t.(level := level);
    }
  }

  lemma WakeupMeans(s: Sched, id: nat, level: int)
    requires Inv(s) && id in s.tasks && level <= MAX_LEVEL
    ensures Wakeup(s, id, level).tasks == s.tasks[id := Awake(s.tasks[id], level)]
  {
    if s.tasks[id].running {
      ChangeLevelMeans(s, id, level);
    }
  }

  lemma SwitchMeans(s: Sched)
    requires Inv(s)
    ensures Rotate(s, false).tasks == s.tasks
  {
  }

  lemma ExitMeans(s: Sched, code: int)
    requires Inv(s) && Current(s) != IDLE_TASK
    ensures Means(s, Exit(code), Finish(s, code))
  {
    var me, r := Current(s), Ended(s, code);
    EndedKeepsInv(s, code);
    if me in r.waiters {
      var waiter, woken := r.waiters[me], r.(waiters := r.waiters - {me});
      SameQueues(r, woken);
      if waiter in r.tasks {
        WakeupMeans(woken, waiter, -1);
      }
    }
  }

  lemma SendMeans(s: Sched, id: nat, m: Message)
    requires Inv(s) && id in s.tasks
    ensures Means(s, Send(id, m), SendMessage(s, id, m))
  {
    var t := s.tasks[id];
    MessagesKeepInv(s, id, t.msgs + [m]);
    WakeupMeans(SetTask(s, id, t.(msgs := t.msgs + [m])), id, -1);
  }

  lemma SuspendMeans(s: Sched, id: nat)
    requires Inv(s) && id in s.tasks
    ensures Means(s, Suspend(id), Sleep(s, id))
  {
    SameEntry(s.tasks, id, s.tasks[id]);
  }

  lemma AwaitMeans(s: Sched, id: nat)
    requires Inv(s) && Current(s) in s.tasks && s.tasks[Current(s)].running
    ensures Means(s, Await(id), WaitFinish(s, id).sched)
  {
  }

  lemma RotateKeepsRecords(s: Sched)
    requires Shape(s)
    ensures SameRecords(s, Rotate(s, false))
  {
  }

  lemma SleepKeepsRecords(s: Sched, id: nat)
    requires Shape(s) && id in s.tasks && s.tasks[id].level <= MAX_LEVEL
    ensures SameRecords(s, Sleep(s, id))
  {
  }

  lemma WakeupKeepsRecords(s: Sched, id: nat, level: int)
    requires Shape(s) && id in s.tasks && s.tasks[id].level <= MAX_LEVEL && level <= MAX_LEVEL
    ensures SameRecords(s, Wakeup(s, id, level))
  {
  }

  /** Records of ends and waiters are no matter of waking, sleeping and messages. */
  lemma StepKeepsRecords(s: Sched, op: Op)
    requires Inv(s) && Allowed(s, op)
    ensures RecordsKept(s, op, Step(s, op))
  {
    hide OnTop, QueueExact, Finish, WaitFinish, Rotate, Sleep, Wakeup;
    match op
    case Create =>
    case Wake(id, level) => if id in s.tasks { WakeupKeepsRecords(s, id, level); }
    case Suspend(id) => if id in s.tasks { SleepKeepsRecords(s, id); }
    case Send(id, m) => if id in s.tasks {
      WakeupKeepsRecords(SetTask(s, id, s.tasks[id].(msgs := s.tasks[id].msgs + [m])), id, -1);
    }
    case Receive(id) =>
    case Switch => RotateKeepsRecords(s);
    case Exit(code) =>
    case Await(id) =>
  }

  /** The operations do to the tasks what they mean; with the invariant, that settles who is in which queue. */
  lemma StepMeans(s: Sched, op: Op)
    requires Inv(s) && Allowed(s, op)
    ensures Means(s, op, Step(s, op)) && RecordsKept(s, op, Step(s, op))
  {
    hide Rotate, Wakeup, Sleep, Finish, WaitFinish, SendMessage, Queues, OnTop;
    StepKeepsRecords(s, op);
    match op
    case Create =>
    case Wake(id, level) => if id in s.tasks { WakeupMeans(s, id, level); }
    case Suspend(id) => if id in s.tasks { SuspendMeans(s, id); }
    case Send(id, m) => if id in s.tasks { SendMeans(s, id, m); }
    case Receive(id) =>
    case Switch => SwitchMeans(s);
    case Exit(code) => ExitMeans(s, code);
    case Await(id) => CurrentRuns(s); AwaitMeans(s, id);
  }
}
