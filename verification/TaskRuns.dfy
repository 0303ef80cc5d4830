/**
 * Mailboxes and exit codes over whole runs of kernel/task.cpp, when tasks block only the way the
 * kernel's own loops do: check the mailbox, or the exit code, and sleep, in one step.
 */
module TaskRuns {
  import opened Messages
  import opened Tasks
  import opened TaskMeanings

  /**
   * The scheduler with a history: who is inside WaitFinish for which task, what was sent to and
   * received by each task, the codes passed to Finish and the codes WaitFinish returned.
   */
  datatype Kernel = Kernel(
    s: Sched,
    waiting: map<nat, nat>,
    sent: map<nat, seq<Message>>,
    got: map<nat, seq<Message>>,
    exits: map<nat, int>,
    taken: map<nat, int>)

  /** Poll: the current task receives a message, or sleeps if it has none. Await: one round of WaitFinish. */
  datatype Event =
    | Create
    | Wake(id: nat, level: int)
    | Send(id: nat, m: Message)
    | Switch
    | Poll
    | Exit(code: int)
    | Await(id: nat)

  /** Inside WaitFinish a task does nothing but wait for the same code again; the idle task never blocks or ends. */
  ghost predicate Enabled(k: Kernel, e: Event)
    requires Shape(k.s)
  {
    var current := Current(k.s);
    match e
    case Wake(_, level) => level <= MAX_LEVEL
    case Poll => current != IDLE_TASK && current !in k.waiting
    case Exit(_) => current != IDLE_TASK && current !in k.waiting
    case Await(id) => current != IDLE_TASK && (current in k.waiting ==> k.waiting[current] == id)
    case _ => true
  }

  ghost function Polled(k: Kernel): Kernel
    requires Inv(k.s)
  {
    CurrentRuns(k.s);
    var id := Current(k.s);
    var msgs := k.s.tasks[id].msgs;
    if msgs == [] then k.(s := Sleep(k.s, id))
    else k.(s := Received(k.s, id), got := k.got[id := (if id in k.got then k.got[id] else []) + [msgs[0]]])
  }

  ghost function Awaited(k: Kernel, id: nat): Kernel
    requires Inv(k.s)
  {
    CurrentRuns(k.s);
    match WaitFinish(k.s, id)
    case Delivered(s, code) => k.(s := s, waiting := k.waiting - {Current(k.s)}, taken := k.taken[id := code])
    case Blocked(s) => k.(s := s, waiting := k.waiting[Current(k.s) := id])
  }

  ghost function Happened(k: Kernel, e: Event): Kernel
    requires Inv(k.s) && Enabled(k, e)
  {
    match e
    case Create => k.(s := NewTask(k.s), sent := k.sent[k.s.latestId + 1 := []], got := k.got[k.s.latestId + 1 := []])
    case Wake(id, level) => if id in k.s.tasks then k.(s := Wakeup(k.s, id, level)) else k
    case Send(id, m) =>
      if id in k.s.tasks then
        k.(s := SendMessage(k.s, id, m), sent := k.sent[id := (if id in k.sent then k.sent[id] else []) + [m]])
      else k
    case Switch => k.(s := Rotate(k.s, false))
    case Poll => Polled(k)
    case Exit(code) => k.(s := Finish(k.s, code), exits := k.exits[Current(k.s) := code])
    case Await(id) => Awaited(k, id)
  }

  // ---------------------------------------------------------------- invariants of runs

  /** A task that does not run and is not inside WaitFinish has an empty mailbox. */
  ghost predicate NoLostWakeup(k: Kernel) {
    forall id | id in k.s.tasks && !k.s.tasks[id].running && id !in k.waiting :: k.s.tasks[id].msgs == []
  }

  /** What a task received, followed by what is in its mailbox, is what was sent to it, in that order. */
  ghost predicate Fifo(k: Kernel) {
    forall id | id in k.s.tasks :: id in k.sent && id in k.got && k.sent[id] == k.got[id] + k.s.tasks[id].msgs
  }

  /** Whoever is inside WaitFinish is alive. */
  ghost predicate Live(k: Kernel) {
    forall w | w in k.waiting :: w in k.s.tasks && w != IDLE_TASK
  }

  /** A registered waiter is inside WaitFinish for that task, which has not finished. */
  ghost predicate Registered(k: Kernel) {
    forall t | t in k.s.waiters :: k.s.waiters[t] in k.waiting && k.waiting[k.s.waiters[t]] == t && t !in k.s.finished
  }

  ghost predicate Waiters(k: Kernel) {
    Live(k) && Registered(k)
  }

  /** Every code passed to Finish is kept until WaitFinish returns it, once and unchanged. */
  ghost predicate Codes(k: Kernel) {
    && (forall t | t in k.s.finished :: t in k.exits && k.s.finished[t] == k.exits[t] && t !in k.taken)
    && (forall t | t in k.taken :: t in k.exits && k.taken[t] == k.exits[t])
    && (forall t | t in k.exits :: t !in k.s.tasks && t <= k.s.latestId && (t in k.s.finished || t in k.taken))
  }

  ghost predicate Good(k: Kernel) {
    Inv(k.s) && NoLostWakeup(k) && Fifo(k) && Waiters(k) && Codes(k)
  }

  /** Only the running flag and level of one task differ. */
  ghost predicate OnlyState(s: Sched, s': Sched, id: nat) {
    && id in s.tasks
    && s'.tasks.Keys == s.tasks.Keys
    && (forall x | x in s.tasks && x != id :: s'.tasks[x] == s.tasks[x])
    && s'.tasks[id].msgs == s.tasks[id].msgs
    && s'.waiters == s.waiters && s'.finished == s.finished && s'.latestId == s.latestId
  }

  lemma WakeupOnly(s: Sched, id: nat, level: int)
    requires Inv(s) && id in s.tasks && level <= MAX_LEVEL
    ensures Inv(Wakeup(s, id, level)) && OnlyState(s, Wakeup(s, id, level), id)
            && Wakeup(s, id, level).tasks[id].running
  {
    hide Wakeup, QueueExact;
    WakeupMeans(s, id, level);
    WakeupKeepsRecords(s, id, level);
    WakeupKeepsInv(s, id, level);
  }

  lemma SleepOnly(s: Sched, id: nat)
    requires Inv(s) && id in s.tasks && id != IDLE_TASK
    ensures Inv(Sleep(s, id)) && OnlyState(s, Sleep(s, id), id) && !Sleep(s, id).tasks[id].running
  {
    hide Sleep, QueueExact;
    SuspendMeans(s, id);
    SleepKeepsRecords(s, id);
    SleepKeepsInv(s, id);
  }

  /** The same tasks, records and history of waiting. */
  ghost predicate SameWaiting(k: Kernel, k': Kernel) {
    && k'.s.tasks.Keys == k.s.tasks.Keys
    && k'.s.waiters == k.s.waiters && k'.s.finished == k.s.finished && k'.s.latestId == k.s.latestId
    && k'.waiting == k.waiting && k'.taken == k.taken && k'.exits == k.exits
  }

  lemma SameWaitingKept(k: Kernel, k': Kernel)
    requires Waiters(k) && Codes(k) && SameWaiting(k, k')
    ensures Waiters(k') && Codes(k')
  {
  }

  /** A task that runs or has an empty mailbox may be woken or not. */
  lemma StateKeepsGood(k: Kernel, s': Sched, id: nat)
    requires Good(k) && Inv(s') && OnlyState(k.s, s', id)
    requires s'.tasks[id].running || (s'.tasks[id].msgs == [] && id !in k.waiting)
    ensures Good(k.(s := s'))
  {
    SameWaitingKept(k, k.(s := s'));
  }

  lemma SendKeepsGood(k: Kernel, id: nat, m: Message)
    requires Good(k) && id in k.s.tasks
    ensures Good(Happened(k, Event.Send(id, m)))
  {
    var t := k.s.tasks[id];
    var s1 := SetTask(k.s, id, t.(msgs := t.msgs + [m]));
    MessagesKeepInv(k.s, id, t.msgs + [m]);
    WakeupOnly(s1, id, -1);
    hide Inv, Wakeup;
    Delivery(k, Wakeup(s1, id, -1), id, m);
  }

  /** A message that was put into a mailbox, with its task running, keeps all promises. */
  lemma Delivery(k: Kernel, s': Sched, id: nat, m: Message)
    requires Good(k) && id in k.s.tasks && Inv(s')
    requires OnlyState(SetTask(k.s, id, k.s.tasks[id].(msgs := k.s.tasks[id].msgs + [m])), s', id)
             && s'.tasks[id].running
    ensures id in k.sent
    ensures Good(k.(s := s', sent := k.sent[id := k.sent[id] + [m]]))
  {
    hide Inv, Waiters, Codes;
    assert id in k.sent;
    DeliveryIsFifo(k, s', id, m);
    hide Fifo;
    SameWaitingKept(k, k.(s := s', sent := k.sent[id := k.sent[id] + [m]]));
  }

  lemma DeliveryIsFifo(k: Kernel, s': Sched, id: nat, m: Message)
    requires Fifo(k) && id in k.s.tasks
    requires OnlyState(SetTask(k.s, id, k.s.tasks[id].(msgs := k.s.tasks[id].msgs + [m])), s', id)
    ensures Fifo(k.(s := s', sent := k.sent[id := k.sent[id] + [m]]))
  {
    Joined(k.got[id], k.s.tasks[id].msgs, m);
  }

  lemma Joined(a: seq<Message>, b: seq<Message>, m: Message)
    ensures a + b + [m] == a + (b + [m])
  {
  }

  lemma PollKeepsGood(k: Kernel)
    requires Good(k) && Enabled(k, Poll)
    ensures Good(Happened(k, Poll))
  {
    var id := Current(k.s);
    CurrentRuns(k.s);
    var msgs := k.s.tasks[id].msgs;
    if msgs == [] {
      SleepOnly(k.s, id);
      StateKeepsGood(k, Sleep(k.s, id), id);
    } else {
      MessagesKeepInv(k.s, id, msgs[1..]);
      var k' := Polled(k);
      assert k.sent[id] == k.got[id] + [msgs[0]] + msgs[1..];
      assert Fifo(k');
    }
  }

  lemma CreateKeepsGood(k: Kernel)
    requires Good(k)
    ensures Good(Happened(k, Event.Create))
  {
    NewTaskKeepsInv(k.s);
  }

  // ---------------------------------------------------------------- exit codes

  /** What Finish does to tasks and records, if its waiter is alive. */
  ghost predicate FinishedState(s: Sched, code: int, s': Sched)
    requires Shape(s)
  {
    var id := Current(s);
    && s'.tasks.Keys == s.tasks.Keys - {id}
    && (forall x | x in s'.tasks :: s'.tasks[x].msgs == s.tasks[x].msgs)
    && (forall x | x in s'.tasks ::
          s'.tasks[x].running <==> s.tasks[x].running || (id in s.waiters && x == s.waiters[id]))
    && s'.finished == s.finished[id := code]
    && s'.waiters == s.waiters - {id}
    && s'.latestId == s.latestId
  }

  lemma FinishState(s: Sched, code: int)
    requires Inv(s) && Current(s) != IDLE_TASK
    requires Current(s) in s.waiters ==> s.waiters[Current(s)] in s.tasks && s.waiters[Current(s)] != Current(s)
    ensures FinishedState(s, code, Finish(s, code))
  {
    hide Finish, QueueExact;
    ExitMeans(s, code);
  }

  lemma ExitKeepsWaiters(k: Kernel, code: int, s': Sched)
    requires Inv(k.s) && Waiters(k) && Current(k.s) !in k.waiting
    requires FinishedState(k.s, code, s')
    ensures Waiters(k.(s := s', exits := k.exits[Current(k.s) := code]))
  {
    hide Inv;
  }

  lemma ExitKeepsCodes(k: Kernel, code: int)
    requires Good(k) && Enabled(k, Event.Exit(code)) && FinishedState(k.s, code, Finish(k.s, code))
    ensures Codes(Happened(k, Event.Exit(code)))
  {
    hide IdleRuns, Enabled, Finish, Fifo, NoLostWakeup, Waiters, QueueExact, OnTop;
    CurrentRuns(k.s);
  }

  lemma ExitKeepsGood(k: Kernel, code: int)
    requires Good(k) && Enabled(k, Event.Exit(code))
    ensures Good(Happened(k, Event.Exit(code)))
  {
    hide Finish, QueueExact, OnTop, Codes;
    CurrentRuns(k.s);
    FinishKeepsInv(k.s, code);
    FinishState(k.s, code);
    ExitKeepsWaiters(k, code, Finish(k.s, code));
    ExitKeepsCodes(k, code);
    hide Inv, Waiters;
  }

  /** A code that is there is the one that was passed to Finish, and was not returned before. */
  lemma DeliveredOnce(k: Kernel, id: nat)
    requires Good(k)
    ensures id in k.s.finished <==> id in k.exits && id !in k.taken
    ensures id in k.s.finished ==> k.s.finished[id] == k.exits[id]
  {
  }

  lemma TakeKeepsWaiters(k: Kernel, me: nat, id: nat)
    requires Waiters(k) && (me in k.waiting ==> k.waiting[me] == id) && id in k.s.finished
    ensures Waiters(k.(s := k.s.(finished := k.s.finished - {id}), waiting := k.waiting - {me},
                       taken := k.taken[id := k.s.finished[id]]))
  {
    forall t | t in k.s.waiters
      ensures k.s.waiters[t] != me
    {
    }
  }

  lemma BlockKeepsWaiters(k: Kernel, me: nat, id: nat, s': Sched)
    requires Waiters(k) && (me in k.waiting ==> k.waiting[me] == id)
    requires id !in k.s.finished && me in k.s.tasks && me != IDLE_TASK
    requires OnlyState(k.s.(waiters := k.s.waiters[id := me]), s', me)
    ensures Waiters(k.(s := s', waiting := k.waiting[me := id]))
  {
    forall t | t in k.s.waiters && t != id
      ensures k.s.waiters[t] != me
    {
    }
  }

  lemma TakeKeepsMail(k: Kernel, me: nat, id: nat)
    requires NoLostWakeup(k) && Fifo(k) && Codes(k) && id in k.s.finished && me in k.s.tasks && k.s.tasks[me].running
    ensures var k' := k.(s := k.s.(finished := k.s.finished - {id}), waiting := k.waiting - {me},
                         taken := k.taken[id := k.s.finished[id]]);
            NoLostWakeup(k') && Fifo(k') && Codes(k')
  {
  }

  lemma TakeKeepsGood(k: Kernel, id: nat)
    requires Good(k) && Enabled(k, Event.Await(id)) && id in k.s.finished
    ensures Good(Happened(k, Event.Await(id)))
  {
    hide Waiters, NoLostWakeup, Fifo, Codes, Queues;
    var me := Current(k.s);
    CurrentRuns(k.s);
    TakeKeepsWaiters(k, me, id);
    TakeKeepsMail(k, me, id);
    SameQueues(k.s, k.s.(finished := k.s.finished - {id}));
  }

  lemma BlockKeepsMail(k: Kernel, me: nat, id: nat, s': Sched)
    requires NoLostWakeup(k) && Fifo(k) && Codes(k) && OnlyState(k.s.(waiters := k.s.waiters[id := me]), s', me)
    ensures var k' := k.(s := s', waiting := k.waiting[me := id]);
            NoLostWakeup(k') && Fifo(k') && Codes(k')
  {
  }

  lemma BlockKeepsGood(k: Kernel, id: nat)
    requires Good(k) && Enabled(k, Event.Await(id)) && id !in k.s.finished
    ensures Good(Happened(k, Event.Await(id)))
  {
    hide Sleep, Queues, NoLostWakeup, Fifo, Waiters, Codes, OnlyState;
    var me := Current(k.s);
    CurrentRuns(k.s);
    var s1 := k.s.(waiters := k.s.waiters[id := me]);
    SameQueues(k.s, s1);
    SleepOnly(s1, me);
    BlockKeepsWaiters(k, me, id, Sleep(s1, me));
    BlockKeepsMail(k, me, id, Sleep(s1, me));
  }

  lemma AwaitKeepsGood(k: Kernel, id: nat)
    requires Good(k) && Enabled(k, Event.Await(id))
    ensures Good(Happened(k, Event.Await(id)))
  {
    if id in k.s.finished {
      TakeKeepsGood(k, id);
    } else {
      BlockKeepsGood(k, id);
    }
  }

  lemma SwitchKeepsGood(k: Kernel)
    requires Good(k)
    ensures Good(Happened(k, Event.Switch))
  {
    SwitchKeepsInv(k.s);
    RotateKeepsRecords(k.s);
    SwitchMeans(k.s);
    hide Rotate, Inv;
    SameWaitingKept(k, Happened(k, Event.Switch));
  }

  /** Every event keeps all promises. */
  lemma EventKeepsGood(k: Kernel, e: Event)
    requires Good(k) && Enabled(k, e)
    ensures Good(Happened(k, e))
  {
    match e
    case Create => CreateKeepsGood(k);
    case Wake(id, level) =>
      if id in k.s.tasks {
        WakeupOnly(k.s, id, level);
        StateKeepsGood(k, Wakeup(k.s, id, level), id);
      }
    case Send(id, m) => if id in k.s.tasks { SendKeepsGood(k, id, m); }
    case Switch => SwitchKeepsGood(k);
    case Poll => PollKeepsGood(k);
    case Exit(code) => ExitKeepsGood(k, code);
    case Await(id) => AwaitKeepsGood(k, id);
  }

  // ---------------------------------------------------------------- whole runs

  ghost function BootedKernel(): Kernel {
    Kernel(Booted(), map[], map[MAIN_TASK := [], IDLE_TASK := []], map[MAIN_TASK := [], IDLE_TASK := []], map[], map[])
  }

  lemma BootedIsGood()
    ensures Good(BootedKernel())
  {
    BootedInv();
  }

  ghost predicate Reaches(k: Kernel, events: seq<Event>, k': Kernel)
    requires Good(k)
    decreases |events|
  {
    if events == [] then k' == k
    else Enabled(k, events[0]) && (EventKeepsGood(k, events[0]); Reaches(Happened(k, events[0]), events[1..], k'))
  }

  lemma {:induction false} RunKeepsGood(k: Kernel, events: seq<Event>, k': Kernel)
    requires Good(k) && Reaches(k, events, k')
    ensures Good(k')
    decreases |events|
  {
    if events != [] {
      EventKeepsGood(k, events[0]);
      RunKeepsGood(Happened(k, events[0]), events[1..], k');
    }
  }

  ghost predicate FromBoot(events: seq<Event>, k: Kernel) {
    BootedIsGood();
    Reaches(BootedKernel(), events, k)
  }

  /**
   * In every run from boot: a task that is blocked outside WaitFinish has nothing to read; every task
   * reads its messages in the order they were sent; and every waiter pointer is to a live task that is
   * inside WaitFinish for that code.
   */
  lemma BlockedTasks(events: seq<Event>, k: Kernel, id: nat)
    requires FromBoot(events, k) && id in k.s.tasks
    ensures !k.s.tasks[id].running && id !in k.waiting ==> k.s.tasks[id].msgs == []
    ensures id in k.sent && id in k.got && k.sent[id] == k.got[id] + k.s.tasks[id].msgs
    ensures forall t | t in k.s.waiters ::
              && k.s.waiters[t] in k.s.tasks
              && k.s.waiters[t] in k.waiting
              && k.waiting[k.s.waiters[t]] == t
  {
    BootedIsGood();
    RunKeepsGood(BootedKernel(), events, k);
  }

  /**
   * In every run, however many tasks wait for one: WaitFinish returns if the task finished and its code was not
   * returned yet, and then it returns the code passed to Finish; so no code is returned twice.
   */
  lemma CodesAreHandedOver(events: seq<Event>, k: Kernel, id: nat)
    requires FromBoot(events, k) && Inv(k.s) && Enabled(k, Event.Await(id))
    ensures var k' := Happened(k, Event.Await(id));
            if id in k.exits && id !in k.taken then
              k'.taken == k.taken[id := k.exits[id]] && Current(k.s) !in k'.waiting
            else k'.taken == k.taken && k'.waiting == k.waiting[Current(k.s) := id]
  {
    BootedIsGood();
    RunKeepsGood(BootedKernel(), events, k);
    DeliveredOnce(k, id);
  }
}
