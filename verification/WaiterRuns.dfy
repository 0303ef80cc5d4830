/**
 * Who is woken from WaitFinish. The kernel records one waiter for each task id, so with several waiters, or
 * with a wait for a code that was returned already, a task can be asleep without being anybody's waiter.
 */
module WaiterRuns {
  import opened Messages
  import opened Tasks
  import opened TaskMeanings
  import opened TaskRuns

  /** The task sleeps inside WaitFinish. */
  ghost predicate Asleep(k: Kernel, w: nat) {
    w in k.waiting && w in k.s.tasks && !k.s.tasks[w].running
  }

  /** It is the registered waiter of a task that has not finished. */
  ghost predicate Served(k: Kernel, w: nat)
    requires w in k.waiting
  {
    var t := k.waiting[w];
    t in k.s.waiters && k.s.waiters[t] == w && t !in k.exits
  }

  ghost predicate AllServed(k: Kernel) {
    forall w | Asleep(k, w) :: Served(k, w)
  }

  /** Nothing will wake it: it sleeps and is not the registered waiter of an unfinished task. */
  ghost predicate Lost(k: Kernel, w: nat) {
    Asleep(k, w) && !Served(k, w)
  }

  /** Whoever goes to sleep for a code does so before it was returned, and while nobody else sleeps for it. */
  ghost predicate Timely(k: Kernel, e: Event) {
    match e
    case Await(id) => id in k.s.finished || (id !in k.taken && forall w | Asleep(k, w) :: k.waiting[w] != id)
    case _ => true
  }

  // ---------------------------------------------------------------- one event

  /** Everybody else sleeps and waits as before, and keeps what records concern it. */
  ghost predicate OthersAsBefore(k: Kernel, k': Kernel, me: nat) {
    && (forall w | w != me && Asleep(k, w) :: Asleep(k', w) && k'.waiting[w] == k.waiting[w])
    && (forall w | w != me && Asleep(k', w) :: Asleep(k, w))
    && k'.exits == k.exits
  }

  lemma AwaitState(k: Kernel, id: nat)
    requires Good(k) && Enabled(k, Event.Await(id)) && id !in k.s.finished
    ensures var k' := Happened(k, Event.Await(id));
            && OthersAsBefore(k, k', Current(k.s)) && Asleep(k', Current(k.s)) && !Asleep(k, Current(k.s))
            && k'.waiting[Current(k.s)] == id && k'.s.waiters == k.s.waiters[id := Current(k.s)]
  {
    hide Waiters, Codes, Fifo, NoLostWakeup, QueueExact, Sleep;
    CurrentRuns(k.s);
    AwaitMeans(k.s, id);
  }

  lemma BlockServesIff(k: Kernel, id: nat)
    requires Good(k) && Enabled(k, Event.Await(id)) && id !in k.s.finished && AllServed(k)
    ensures AllServed(Happened(k, Event.Await(id))) <==> Timely(k, Event.Await(id))
  {
    var me, k' := Current(k.s), Happened(k, Event.Await(id));
    DeliveredOnce(k, id);
    hide Inv, NoLostWakeup, Fifo, Waiters, Codes, Happened, Enabled;
    AwaitState(k, id);
    if Timely(k, Event.Await(id)) {
      forall w | Asleep(k', w)
        ensures Served(k', w)
      {
        assert w != me ==> Served(k, w);
      }
    } else if id in k.taken {
      assert Asleep(k', me) && !Served(k', me);
    } else {
      var w :| Asleep(k, w) && k.waiting[w] == id;
      assert Asleep(k', w) && !Served(k', w);
    }
  }

  /** The code is there: the task leaves WaitFinish, all others sleep on. */
  lemma TakeKeepsServed(k: Kernel, id: nat)
    requires Good(k) && Enabled(k, Event.Await(id)) && id in k.s.finished && AllServed(k)
    ensures AllServed(Happened(k, Event.Await(id)))
  {
    var k' := Happened(k, Event.Await(id));
    forall w | Asleep(k', w)
      ensures Served(k', w)
    {
      assert Asleep(k, w) && Served(k, w);
    }
  }

  /** What becomes of one sleeper when a task ends. */
  ghost predicate AfterExit(k: Kernel, k': Kernel, w: nat)
    requires Shape(k.s)
  {
    var t := Current(k.s);
    && (Asleep(k', w) <==> Asleep(k, w) && !(t in k.s.waiters && k.s.waiters[t] == w))
    && k'.waiting == k.waiting && k'.s.waiters == k.s.waiters - {t} && k'.exits.Keys == k.exits.Keys + {t}
    && t !in k.exits
  }

  lemma ExitState(k: Kernel, code: int, w: nat)
    requires Good(k) && Enabled(k, Event.Exit(code))
    ensures AfterExit(k, Happened(k, Event.Exit(code)), w)
  {
    hide Awaited, Finish, QueueExact, Fifo, NoLostWakeup;
    CurrentRuns(k.s);
    FinishState(k.s, code);
  }

  lemma ExitKeepsServed(k: Kernel, code: int)
    requires Good(k) && Enabled(k, Event.Exit(code)) && AllServed(k)
    ensures AllServed(Happened(k, Event.Exit(code)))
  {
    var k' := Happened(k, Event.Exit(code));
    forall w | Asleep(k', w)
      ensures Served(k', w)
    {
      hide Inv, NoLostWakeup, Fifo, Waiters, Codes, Happened, Enabled;
      ExitState(k, code, w);
      assert Served(k, w);
    }
  }

  /** When a task ends, a sleeper that waits for it runs if and only if it was served. */
  lemma ExitWakesIff(k: Kernel, code: int, w: nat)
    requires Good(k) && Enabled(k, Event.Exit(code)) && Asleep(k, w) && k.waiting[w] == Current(k.s)
    ensures Asleep(Happened(k, Event.Exit(code)), w) <==> Lost(k, w)
  {
    hide Inv, NoLostWakeup, Fifo, Waiters, Codes, Happened, Enabled;
    ExitState(k, code, w);
  }

  /** The events that neither wait nor end leave waiting and records alone, and put nobody in WaitFinish to sleep. */
  ghost predicate Quiet(k: Kernel, k': Kernel) {
    && k'.waiting == k.waiting && k'.exits == k.exits && k'.s.waiters == k.s.waiters
    && forall w | Asleep(k', w) :: Asleep(k, w)
  }

  /** Tasks of a state that slept in WaitFinish and were not the target of the event sleep on. */
  ghost predicate SleepOn(k: Kernel, k': Kernel, target: nat) {
    forall w | Asleep(k, w) && w != target :: Asleep(k', w)
  }

  function Target(e: Event): nat {
    match e
    case Wake(id, _) => id
    case Send(id, _) => id
    case _ => IDLE_TASK
  }

  lemma OneTaskIsQuiet(k: Kernel, k': Kernel, s: Sched, id: nat)
    requires OnlyState(s, k'.s, id) && s.tasks.Keys == k.s.tasks.Keys && s.waiters == k.s.waiters
    requires (forall w | w in k.s.tasks :: s.tasks[w].running == k.s.tasks[w].running)
    requires k'.waiting == k.waiting && k'.exits == k.exits
    requires id in k.waiting ==> k'.s.tasks[id].running
    ensures Quiet(k, k') && SleepOn(k, k', id)
  {
  }

  lemma WakeIsQuiet(k: Kernel, id: nat, level: int)
    requires Good(k) && Enabled(k, Event.Wake(id, level))
    ensures Quiet(k, Happened(k, Event.Wake(id, level))) && SleepOn(k, Happened(k, Event.Wake(id, level)), id)
  {
    if id in k.s.tasks {
      WakeupOnly(k.s, id, level);
      hide Wakeup, Inv;
      OneTaskIsQuiet(k, Happened(k, Event.Wake(id, level)), k.s, id);
    }
  }

  lemma SendIsQuiet(k: Kernel, id: nat, m: Message)
    requires Good(k)
    ensures Quiet(k, Happened(k, Event.Send(id, m))) && SleepOn(k, Happened(k, Event.Send(id, m)), id)
    ensures id in k.s.tasks ==>
              && id in Happened(k, Event.Send(id, m)).s.tasks
              && Happened(k, Event.Send(id, m)).s.tasks[id].running
  {
    hide Wakeup, Inv, NoLostWakeup, Fifo, Waiters, Codes;
    if id in k.s.tasks {
      var s1 := SetTask(k.s, id, k.s.tasks[id].(msgs := k.s.tasks[id].msgs + [m]));
      MessagesKeepInv(k.s, id, k.s.tasks[id].msgs + [m]);
      WakeupOnly(s1, id, -1);
      OneTaskIsQuiet(k, Happened(k, Event.Send(id, m)), s1, id);
    }
  }

  lemma PollIsQuiet(k: Kernel)
    requires Good(k) && Enabled(k, Poll)
    ensures Quiet(k, Happened(k, Poll)) && SleepOn(k, Happened(k, Poll), IDLE_TASK)
  {
    hide Waiters, Codes, Fifo, NoLostWakeup, QueueExact, Sleep;
    var me := Current(k.s);
    CurrentRuns(k.s);
    if k.s.tasks[me].msgs == [] {
      SleepOnly(k.s, me);
    }
  }

  lemma SwitchIsQuiet(k: Kernel)
    requires Good(k)
    ensures Quiet(k, Happened(k, Event.Switch)) && SleepOn(k, Happened(k, Event.Switch), IDLE_TASK)
  {
    RotateKeepsRecords(k.s);
    SwitchMeans(k.s);
    hide Rotate;
  }

  lemma CreateIsQuiet(k: Kernel)
    requires Good(k)
    ensures Quiet(k, Happened(k, Event.Create)) && SleepOn(k, Happened(k, Event.Create), IDLE_TASK)
  {
    NewTaskKeepsInv(k.s);
  }

  lemma EventIsQuiet(k: Kernel, e: Event)
    requires Good(k) && Enabled(k, e) && !e.Await? && !e.Exit?
    ensures Quiet(k, Happened(k, e)) && SleepOn(k, Happened(k, e), Target(e))
  {
    hide Inv, NoLostWakeup, Fifo, Waiters, Codes, Happened, Quiet, SleepOn;
    match e
    case Create => CreateIsQuiet(k);
    case Wake(id, level) => WakeIsQuiet(k, id, level);
    case Send(id, m) => SendIsQuiet(k, id, m);
    case Switch => SwitchIsQuiet(k);
    case Poll => PollIsQuiet(k);
  }

  lemma QuietKeepsServed(k: Kernel, k': Kernel)
    requires Quiet(k, k') && AllServed(k)
    ensures AllServed(k')
  {
    forall w | Asleep(k', w)
      ensures Served(k', w)
    {
      assert Served(k, w);
    }
  }

  /** From a state in which all sleepers are served, an event leads to such a state exactly when it is timely. */
  lemma EventServesIff(k: Kernel, e: Event)
    requires Good(k) && Enabled(k, e) && AllServed(k)
    ensures AllServed(Happened(k, e)) <==> Timely(k, e)
  {
    hide Inv, NoLostWakeup, Fifo, Waiters, Codes, Happened, AllServed, Quiet;
    match e
    case Await(id) => if id in k.s.finished { TakeKeepsServed(k, id); } else { BlockServesIff(k, id); }
    case Exit(code) => ExitKeepsServed(k, code);
    case _ =>
      EventIsQuiet(k, e);
      QuietKeepsServed(k, Happened(k, e));
  }

  // ---------------------------------------------------------------- whole runs

  /** In every state of the run, whoever sleeps in WaitFinish is the registered waiter of an unfinished task. */
  ghost predicate AlwaysServed(k: Kernel, events: seq<Event>, k': Kernel)
    requires Good(k) && Reaches(k, events, k')
    decreases |events|
  {
    AllServed(k) &&
    (events != [] ==> (EventKeepsGood(k, events[0]); AlwaysServed(Happened(k, events[0]), events[1..], k')))
  }

  ghost predicate AlwaysTimely(k: Kernel, events: seq<Event>, k': Kernel)
    requires Good(k) && Reaches(k, events, k')
    decreases |events|
  {
    events != [] ==>
      Timely(k, events[0]) && (EventKeepsGood(k, events[0]); AlwaysTimely(Happened(k, events[0]), events[1..], k'))
  }

  lemma {:induction false} RunServesIff(k: Kernel, events: seq<Event>, k': Kernel)
    requires Good(k) && Reaches(k, events, k') && AllServed(k)
    ensures AlwaysServed(k, events, k') <==> AlwaysTimely(k, events, k')
    decreases |events|
  {
    if events != [] {
      hide Inv, NoLostWakeup, Fifo, Waiters, Codes, Happened, Enabled, AllServed, Timely;
      EventKeepsGood(k, events[0]);
      EventServesIff(k, events[0]);
      if Timely(k, events[0]) {
        RunServesIff(Happened(k, events[0]), events[1..], k');
      } else {
        NotServedAtStart(Happened(k, events[0]), events[1..], k');
      }
    }
  }

  lemma NotServedAtStart(k: Kernel, events: seq<Event>, k': Kernel)
    requires Good(k) && Reaches(k, events, k') && !AllServed(k)
    ensures !AlwaysServed(k, events, k')
  {
  }

  /**
   * In a run from boot, whoever sleeps in WaitFinish is at all times the registered waiter of an unfinished task,
   * if and only if every wait that goes to sleep is timely: the code was not returned before, and nobody else
   * sleeps for it.
   */
  lemma ServedIffTimely(events: seq<Event>, k: Kernel)
    requires FromBoot(events, k) && Good(BootedKernel())
    ensures AlwaysServed(BootedKernel(), events, k) <==> AlwaysTimely(BootedKernel(), events, k)
  {
    RunServesIff(BootedKernel(), events, k);
  }

  // ---------------------------------------------------------------- lost sleepers

  lemma LostThroughAwait(k: Kernel, id: nat, w: nat)
    requires Good(k) && Enabled(k, Event.Await(id)) && Lost(k, w)
    ensures Lost(Happened(k, Event.Await(id)), w)
  {
    CurrentRuns(k.s);
    if id !in k.s.finished {
      hide Inv, NoLostWakeup, Fifo, Waiters, Codes, Happened, Enabled;
      AwaitState(k, id);
    }
  }

  lemma LostThroughExit(k: Kernel, code: int, w: nat)
    requires Good(k) && Enabled(k, Event.Exit(code)) && Lost(k, w)
    ensures Lost(Happened(k, Event.Exit(code)), w)
  {
    assert Registered(k);
    hide Happened, Enabled, Inv, Fifo, NoLostWakeup, Codes;
    ExitState(k, code, w);
  }

  /** A lost sleeper is not woken by anything but a message or a wake of its own. */
  lemma LostStays(k: Kernel, e: Event, w: nat)
    requires Good(k) && Enabled(k, e) && Lost(k, w) && w != Target(e)
    ensures Lost(Happened(k, e), w)
  {
    match e
    case Await(id) => LostThroughAwait(k, id, w);
    case Exit(code) => LostThroughExit(k, code, w);
    case _ =>
      hide Inv, NoLostWakeup, Fifo, Waiters, Codes, Happened, Enabled;
      EventIsQuiet(k, e);
  }

  /** So it never runs again in any continuation without a message or wake for it, whatever else happens. */
  lemma {:induction false} LostNeverRuns(k: Kernel, events: seq<Event>, k': Kernel, w: nat)
    requires Good(k) && Reaches(k, events, k') && Lost(k, w)
    requires forall i | 0 <= i < |events| :: Target(events[i]) != w
    ensures Lost(k', w)
    decreases |events|
  {
    if events != [] {
      hide Inv, NoLostWakeup, Fifo, Waiters, Codes, Happened, Enabled, Lost;
      EventKeepsGood(k, events[0]);
      LostStays(k, events[0], w);
      LostNeverRuns(Happened(k, events[0]), events[1..], k', w);
    }
  }

  /** A message brings it back: it runs, still inside WaitFinish. */
  lemma MessageWakes(k: Kernel, w: nat, m: Message)
    requires Good(k) && Asleep(k, w)
    ensures var k' := Happened(k, Event.Send(w, m));
            w in k'.waiting && k'.waiting[w] == k.waiting[w] && w in k'.s.tasks && k'.s.tasks[w].running
  {
    SendIsQuiet(k, w, m);
  }

  /** And the next round of its loop takes the code, or makes it the registered waiter again, in place of any other. */
  lemma NextRoundRegisters(k: Kernel, id: nat)
    requires Good(k) && Enabled(k, Event.Await(id))
    ensures var k' := Happened(k, Event.Await(id));
            if id in k.s.finished then Current(k.s) !in k'.waiting
            else Asleep(k', Current(k.s)) && k'.s.waiters[id] == Current(k.s) &&
                 forall w | Asleep(k, w) && k.waiting[w] == id :: Lost(k', w)
  {
    if id !in k.s.finished {
      hide Inv, NoLostWakeup, Fifo, Waiters, Codes, Happened, Enabled;
      AwaitState(k, id);
    }
  }

  // ---------------------------------------------------------------- two waiters

  /** The main task and task 3 wait for task 4, one after the other. */
  const TWO_WAITS: seq<Event> := [Event.Await(4), Event.Await(4)]
  const TWO_WAITERS: seq<Event> := [Event.Create] + ([Event.Create] + ([Event.Wake(3, 3)] + TWO_WAITS))

  /** A booted system with task 3 on the main task's level and task 4 asleep, and nobody's mail. */
  ghost function Four(mainRuns: bool, thirdRuns: bool, top: seq<nat>, level: nat, waiters: map<nat, nat>,
                      waiting: map<nat, nat>): Kernel {
    var none: map<nat, seq<Message>> := map[1 := [], 2 := [], 3 := [], 4 := []];
    Kernel(Sched(map[1 := Task(3, mainRuns, []), 2 := Task(0, true, []), 3 := Task(3, thirdRuns, []),
                     4 := Task(1, false, [])],
                 4, [[2], [], [], top], level, false, map[], waiters),
           waiting, none, none, map[], map[])
  }

  /** Before task 3 is woken. */
  ghost function Three(): Kernel {
    var none: map<nat, seq<Message>> := map[1 := [], 2 := [], 3 := []];
    Kernel(Booted().(tasks := Booted().tasks[3 := Task(1, false, [])], latestId := 3), map[], none, none, map[], map[])
  }

  ghost predicate StepTo(k: Kernel, e: Event, k': Kernel) {
    Good(k) && Enabled(k, e) && Happened(k, e) == k'
  }

  lemma FirstTaskMade()
    ensures StepTo(BootedKernel(), Event.Create, Three())
  {
    BootedIsGood();
  }

  lemma SecondTaskMade(k: Kernel)
    requires k == Three() && Good(k)
    ensures StepTo(k, Event.Create, Four(true, false, [1], 3, map[], map[]).(s := BeforeWake()))
  {
    hide Good;
    assert Three().s.tasks[4 := Task(1, false, [])] == BeforeWake().tasks;
  }

  /** Task 3 is still on its own level. */
  ghost function BeforeWake(): Sched {
    var s := Four(true, false, [1], 3, map[], map[]).s;
    s.(tasks := s.tasks[3 := Task(1, false, [])])
  }

  lemma ThirdWoken(k: Kernel)
    requires k == Four(true, false, [1], 3, map[], map[]).(s := BeforeWake()) && Good(k)
    ensures StepTo(k, Event.Wake(3, 3), Four(true, true, [1, 3], 3, map[], map[]))
  {
    hide Good;
    var s := Four(true, true, [1, 3], 3, map[], map[]).s;
    assert [1] + [3] == [1, 3];
    assert Wakeup(k.s, 3, 3).queues == s.queues;
    assert Wakeup(k.s, 3, 3).tasks == s.tasks;
  }

  lemma MainSleeps()
    ensures WaitFinish(Four(true, true, [1, 3], 3, map[], map[]).s, 4)
         == Blocked(Four(false, true, [3], 3, map[4 := 1], map[]).s)
  {
    var s := Four(false, true, [3], 3, map[4 := 1], map[]).s;
    var r := WaitFinish(Four(true, true, [1, 3], 3, map[], map[]).s, 4).sched;
    assert r.tasks == s.tasks;
    assert r.queues == s.queues;
  }

  lemma MainWaits(k: Kernel)
    requires k == Four(true, true, [1, 3], 3, map[], map[]) && Good(k)
    ensures StepTo(k, Event.Await(4), Four(false, true, [3], 3, map[4 := 1], map[1 := 4]))
  {
    MainSleeps();
    hide WaitFinish, NoLostWakeup, Fifo, Waiters, Codes;
  }

  lemma ThirdSleeps()
    ensures WaitFinish(Four(false, true, [3], 3, map[4 := 1], map[]).s, 4)
         == Blocked(Four(false, false, [], 0, map[4 := 3], map[]).s)
  {
    var s := Four(false, false, [], 0, map[4 := 3], map[]).s;
    var r := WaitFinish(Four(false, true, [3], 3, map[4 := 1], map[]).s, 4).sched;
    assert r.tasks == s.tasks;
    assert r.queues == s.queues;
    assert TopLevel(s.queues, 3, 3) == 0;
  }

  lemma ThirdWaits(k: Kernel)
    requires k == Four(false, true, [3], 3, map[4 := 1], map[1 := 4]) && Good(k)
    ensures StepTo(k, Event.Await(4), Four(false, false, [], 0, map[4 := 3], map[1 := 4, 3 := 4]))
  {
    ThirdSleeps();
    hide WaitFinish, NoLostWakeup, Fifo, Waiters, Codes;
  }

  /** The last state of a step is one of a run of events that all could happen. */
  lemma StepReaches(k: Kernel, e: Event, mid: Kernel, events: seq<Event>, k': Kernel)
    requires StepTo(k, e, mid) && Good(mid) && Reaches(mid, events, k')
    ensures Reaches(k, [e] + events, k')
  {
    assert ([e] + events)[1..] == events;
  }

  lemma StepIsGood(k: Kernel, e: Event, k': Kernel)
    requires StepTo(k, e, k')
    ensures Good(k')
  {
    EventKeepsGood(k, e);
  }

  ghost function TasksMade(): Kernel {
    Four(true, false, [1], 3, map[], map[]).(s := BeforeWake())
  }

  ghost function AllReady(): Kernel {
    Four(true, true, [1, 3], 3, map[], map[])
  }

  ghost function MainAsleep(): Kernel {
    Four(false, true, [3], 3, map[4 := 1], map[1 := 4])
  }

  ghost function BothAsleep(): Kernel {
    Four(false, false, [], 0, map[4 := 3], map[1 := 4, 3 := 4])
  }

  lemma TasksReady()
    ensures Good(BootedKernel()) && StepTo(BootedKernel(), Event.Create, Three()) && Good(Three())
    ensures StepTo(Three(), Event.Create, TasksMade()) && Good(TasksMade())
    ensures StepTo(TasksMade(), Event.Wake(3, 3), AllReady()) && Good(AllReady())
  {
    BootedIsGood();
    FirstTaskMade();
    hide Good, Four, Three, BeforeWake, StepTo;
    StepIsGood(BootedKernel(), Event.Create, Three());
    SecondTaskMade(Three());
    StepIsGood(Three(), Event.Create, TasksMade());
    ThirdWoken(TasksMade());
    StepIsGood(TasksMade(), Event.Wake(3, 3), AllReady());
  }

  lemma TasksWait()
    requires Good(AllReady())
    ensures Good(BothAsleep()) && Reaches(AllReady(), TWO_WAITS, BothAsleep())
  {
    hide Good, Four, StepTo;
    MainWaits(AllReady());
    StepIsGood(AllReady(), Event.Await(4), MainAsleep());
    ThirdWaits(MainAsleep());
    StepIsGood(MainAsleep(), Event.Await(4), BothAsleep());
    assert Reaches(BothAsleep(), [], BothAsleep());
    hide Reaches;
    StepReaches(MainAsleep(), Event.Await(4), BothAsleep(), [], BothAsleep());
    StepReaches(AllReady(), Event.Await(4), MainAsleep(), [Event.Await(4)], BothAsleep());
    assert [Event.Await(4)] + [Event.Await(4)] == [Event.Await(4), Event.Await(4)];
    assert [Event.Await(4)] + [] == [Event.Await(4)];
  }

  /** In that run from boot, task 3 has taken the main task's place as the waiter for task 4: the main task is lost. */
  lemma SecondWaiterReplacesFirst()
    ensures FromBoot(TWO_WAITERS, BothAsleep()) && Lost(BothAsleep(), MAIN_TASK)
    ensures Asleep(BothAsleep(), 3) && Served(BothAsleep(), 3)
  {
    assert Lost(BothAsleep(), MAIN_TASK) && Asleep(BothAsleep(), 3) && Served(BothAsleep(), 3);
    hide Good, Reaches, StepTo, Three, TasksMade, AllReady, BothAsleep, BootedKernel;
    TasksReady();
    TasksWait();
    StepReaches(TasksMade(), Event.Wake(3, 3), AllReady(), TWO_WAITS, BothAsleep());
    StepReaches(Three(), Event.Create, TasksMade(), [Event.Wake(3, 3)] + TWO_WAITS, BothAsleep());
    StepReaches(BootedKernel(), Event.Create, Three(), [Event.Create] + ([Event.Wake(3, 3)] + TWO_WAITS), BothAsleep());
  }
}
