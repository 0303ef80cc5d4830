/**
 * The scheduler of kernel/task.cpp as a state machine: run queues by level, a current level that is
 * repaired when it is needed, and the records of finished tasks and of those who wait for them.
 * Every operation runs with interrupts off and is one step.
 */
module Tasks {
  import opened Messages
  import opened Sequences

  const MAX_LEVEL: nat := 3
  const DEFAULT_LEVEL: nat := 1
  const MAIN_TASK: nat := 1
  const IDLE_TASK: nat := 2

  datatype Task = Task(level: nat, running: bool, msgs: seq<Message>)

  /** Tasks are named by their ids; queues holds the run queue of each level, its first task in front. */
  datatype Sched = Sched(
    tasks: map<nat, Task>,
    latestId: nat,
    queues: seq<seq<nat>>,
    level: nat,
    levelChanged: bool,
    finished: map<nat, int>,
    waiters: map<nat, nat>)

  // ---------------------------------------------------------------- operations

  /** The queue without a task. */
  function Without(queue: seq<nat>, id: nat): seq<nat> {
    if queue == [] then []
    else if queue[0] == id then Without(queue[1..], id)
    else [queue[0]] + Without(queue[1..], id)
  }

  /** The highest level from lv down with a task in its queue. */
  function TopLevel(queues: seq<seq<nat>>, lv: int, none: nat): nat
    requires lv < |queues|
  {
    if lv < 0 then none
    else if queues[lv] != [] then lv
    else TopLevel(queues, lv - 1, none)
  }

  predicate Shape(s: Sched) {
    && |s.queues| == MAX_LEVEL + 1
    && s.level <= MAX_LEVEL
    && s.queues[s.level] != []
  }

  function Current(s: Sched): nat
    requires Shape(s)
  {
    s.queues[s.level][0]
  }

  /** The task manager of a booted system: the main task on the highest level, the idle task on the lowest. */
  function Booted(): Sched {
    Sched(map[MAIN_TASK := Task(MAX_LEVEL, true, []), IDLE_TASK := Task(0, true, [])], 2,
          [[IDLE_TASK], [], [], [MAIN_TASK]], MAX_LEVEL, false, map[], map[])
  }

  function NewTask(s: Sched): Sched {
    s.(latestId := s.latestId + 1, tasks := s.tasks[s.latestId + 1 := Task(DEFAULT_LEVEL, false, [])])
  }

  function SetTask(s: Sched, id: nat, t: Task): Sched {
    s.(tasks := s.tasks[id := t])
  }

  function SetQueue(s: Sched, level: nat, queue: seq<nat>): Sched
    requires level < |s.queues|
  {
    s.(queues := s.queues[level := queue])
  }

  /** RotateCurrentRunQueue: the current task goes to the end of its queue, or out of it if it sleeps. */
  function Rotate(s: Sched, currentSleep: bool): Sched
    requires Shape(s)
  {
    var q := s.queues[s.level];
    var r := SetQueue(s, s.level, if currentSleep then q[1..] else q[1..] + [q[0]]);
    if s.levelChanged || r.queues[s.level] == [] then
      r.(levelChanged := false, level := TopLevel(r.queues, MAX_LEVEL, s.level))
    else r
  }

  function Sleep(s: Sched, id: nat): Sched
    requires Shape(s) && id in s.tasks && s.tasks[id].level <= MAX_LEVEL
  {
    var t := s.tasks[id];
    if !t.running then s
    else
      var r := SetTask(s, id, t.(running := false));
      if id == Current(s) then Rotate(r, true)
      else SetQueue(r, t.level, Without(s.queues[t.level], id))
  }

  function ChangeLevelRunning(s: Sched, id: nat, level: int): Sched
    requires Shape(s) && id in s.tasks && s.tasks[id].level <= MAX_LEVEL && level <= MAX_LEVEL
  {
    var t := s.tasks[id];
    if level < 0 || level == t.level then s
    else if id != Current(s) then
      var r := SetQueue(s, t.level, Without(s.queues[t.level], id));
      var r2 := SetTask(SetQueue(r, level, r.queues[level] + [id]), id, t.(level := level));
      if level > s.level then r2.(levelChanged := true) else r2
    else
      var r := SetQueue(s, s.level, s.queues[s.level][1..]);
      var r2 := SetTask(SetQueue(r, level, [id] + r.queues[level]), id, t.(level := level));
      if level >= s.level then r2.(level := level) else r2.(level := level, levelChanged := true)
  }

  /** Wakeup; a negative level keeps the task's own. */
  function Wakeup(s: Sched, id: nat, level: int): Sched
    requires Shape(s) && id in s.tasks && s.tasks[id].level <= MAX_LEVEL && level <= MAX_LEVEL
  {
    var t := s.tasks[id];
    if t.running then ChangeLevelRunning(s, id, level)
    else
      var lv := if level < 0 then t.level else level;
      var r := SetQueue(SetTask(s, id, t.(level := lv, running := true)), lv, s.queues[lv] + [id]);
      if lv > s.level then r.(levelChanged := true) else r
  }

  function SendMessage(s: Sched, id: nat, m: Message): Sched
    requires Shape(s) && id in s.tasks && s.tasks[id].level <= MAX_LEVEL
  {
    var t := s.tasks[id];
    Wakeup(SetTask(s, id, t.(msgs := t.msgs + [m])), id, -1)
  }

  /** ReceiveMessage when there is a message. */
  function Received(s: Sched, id: nat): Sched
    requires id in s.tasks && s.tasks[id].msgs != []
  {
    SetTask(s, id, s.tasks[id].(msgs := s.tasks[id].msgs[1..]))
  }

  /** The current task is gone, and its code is kept. */
  function Ended(s: Sched, code: int): Sched
    requires Shape(s)
  {
    var r := Rotate(s, true);
    r.(tasks := r.tasks - {Current(s)}, finished := r.finished[Current(s) := code])
  }

  /**
   * Finish: the current task ends, and whoever waits for it is woken. The waiter is alive in every
   * run of TaskRuns.dfy; nothing is said about a waiter pointer that dangles.
   */
  function Finish(s: Sched, code: int): Sched
    requires Shape(s)
  {
    var id, r := Current(s), Ended(s, code);
    if id in r.waiters then
      var woken := r.(waiters := r.waiters - {id});
      var waiter := r.waiters[id];
      if waiter in r.tasks && Shape(r) && r.tasks[waiter].level <= MAX_LEVEL then Wakeup(woken, waiter, -1) else woken
    else r
  }

  datatype Wait = Delivered(sched: Sched, code: int) | Blocked(sched: Sched)

  /** One round of the loop of WaitFinish: take the code, or register as waiter and sleep. */
  function WaitFinish(s: Sched, id: nat): Wait
    requires Shape(s) && Current(s) in s.tasks && s.tasks[Current(s)].level <= MAX_LEVEL
  {
    if id in s.finished then Delivered(s.(finished := s.finished - {id}), s.finished[id])
    else Blocked(Sleep(s.(waiters := s.waiters[id := Current(s)]), Current(s)))
  }

  // ---------------------------------------------------------------- the invariant

  /** The queue of a level holds exactly the live running tasks of that level, each once. */
  ghost predicate QueueExact(s: Sched, l: nat)
    requires l < |s.queues|
  {
    && NoDuplicates(s.queues[l])
    && forall id :: id in s.queues[l] <==> id in s.tasks && s.tasks[id].running && s.tasks[id].level == l
  }

  ghost predicate Queues(s: Sched) {
    && |s.queues| == MAX_LEVEL + 1
    && (forall l | 0 <= l <= MAX_LEVEL :: QueueExact(s, l))
    && forall id | id in s.tasks :: s.tasks[id].level <= MAX_LEVEL && id <= s.latestId
  }

  /** No level above the current one has a task. */
  ghost predicate OnTop(s: Sched)
    requires |s.queues| == MAX_LEVEL + 1
  {
    forall l | s.level < l <= MAX_LEVEL :: s.queues[l] == []
  }

  ghost predicate IdleRuns(s: Sched) {
    IDLE_TASK in s.tasks && s.tasks[IDLE_TASK].running
  }

  /** The scheduler invariant. */
  ghost predicate Inv(s: Sched) {
    && Queues(s)
    && Shape(s)
    && IdleRuns(s)
    && (!s.levelChanged ==> OnTop(s))
  }

  // ---------------------------------------------------------------- queues

  lemma {:induction false} WithoutIsExact(queue: seq<nat>, id: nat)
    ensures forall x :: x in Without(queue, id) <==> x in queue && x != id
    ensures NoDuplicates(queue) ==> NoDuplicates(Without(queue, id))
    decreases |queue|
  {
    if queue != [] {
      WithoutIsExact(queue[1..], id);
      var rest, r := queue[1..], Without(queue, id);
      assert forall x :: x in queue <==> x == queue[0] || x in rest;
      if queue[0] != id {
        assert r == [queue[0]] + Without(rest, id);
        if NoDuplicates(queue) {
          Popped(queue);
          assert queue[0] !in rest;
          forall i, j | 0 <= i < j < |r|
            ensures r[i] != r[j]
          {
            assert r[j] == Without(rest, id)[j - 1];
            assert r[j] in Without(rest, id);
          }
        }
      } else if NoDuplicates(queue) {
        Popped(queue);
      }
    }
  }

  lemma Appended(queue: seq<nat>, id: nat)
    requires NoDuplicates(queue) && id !in queue
    ensures NoDuplicates(queue + [id]) && NoDuplicates([id] + queue)
    ensures forall x :: x in queue + [id] <==> x in queue || x == id
    ensures forall x :: x in [id] + queue <==> x in queue || x == id
  {
    forall i, j | 0 <= i < j < |queue| + 1
      ensures (queue + [id])[i] != (queue + [id])[j]
      ensures ([id] + queue)[i] != ([id] + queue)[j]
    {
      assert queue[j - 1] in queue && queue[i] in queue;
    }
  }

  lemma Popped(queue: seq<nat>)
    requires NoDuplicates(queue) && queue != []
    ensures NoDuplicates(queue[1..]) && queue[0] !in queue[1..]
    ensures forall x :: x in queue[1..] <==> x in queue && x != queue[0]
  {
    var rest := queue[1..];
    assert forall i | 0 <= i < |rest| :: rest[i] == queue[i + 1];
    assert forall x :: x in queue <==> x == queue[0] || x in rest;
  }

  lemma {:induction false} TopLevelIsTop(queues: seq<seq<nat>>, lv: int, none: nat, l: nat)
    requires lv < |queues| && l <= lv && queues[l] != []
    ensures var top := TopLevel(queues, lv, none);
            && l <= top <= lv
            && queues[top] != []
            && forall k | top < k <= lv :: queues[k] == []
    decreases lv
  {
    if queues[lv] == [] {
      TopLevelIsTop(queues, lv - 1, none, l);
    }
  }

  // ---------------------------------------------------------------- rotation

  /** Rotating queues that are exact but for the current task, which left or stays running, repairs the level. */
  lemma RotateRepairs(s: Sched, currentSleep: bool)
    requires Shape(s) && (!s.levelChanged ==> OnTop(s))
    requires exists l | 0 <= l <= MAX_LEVEL :: s.queues[l] != [] && (l != s.level || !currentSleep || |s.queues[l]| > 1)
    ensures var r := Rotate(s, currentSleep);
            Shape(r) && OnTop(r) && !r.levelChanged
  {
    var q := s.queues[s.level];
    var q' := if currentSleep then q[1..] else q[1..] + [q[0]];
    var queues := s.queues[s.level := q'];
    var l :| 0 <= l <= MAX_LEVEL && s.queues[l] != [] && (l != s.level || !currentSleep || |s.queues[l]| > 1);
    assert queues[l] != [];
    TopLevelIsTop(queues, MAX_LEVEL, s.level, l);
  }

  /** A rotation away from a sleeping task finds a task to run exactly if another one is in a queue. */
  lemma RotateFindsOneIff(s: Sched)
    requires Shape(s) && (!s.levelChanged ==> OnTop(s))
    ensures Shape(Rotate(s, true))
       <==> exists l | 0 <= l <= MAX_LEVEL :: s.queues[l] != [] && (l != s.level || |s.queues[l]| > 1)
  {
    var r := Rotate(s, true);
    if Shape(r) {
      assert s.queues[r.level] != [];
    } else if l :| 0 <= l <= MAX_LEVEL && s.queues[l] != [] && (l != s.level || |s.queues[l]| > 1) {
      RotateRepairs(s, true);
    }
  }

  /** The idle task is in some queue, and not alone with a task that leaves it. */
  lemma SomebodyElse(s: Sched)
    requires Inv(s) && Current(s) != IDLE_TASK
    ensures exists l | 0 <= l <= MAX_LEVEL :: s.queues[l] != [] && (l != s.level || |s.queues[l]| > 1)
  {
    var l := s.tasks[IDLE_TASK].level;
    assert QueueExact(s, l);
    assert IDLE_TASK in s.queues[l];
  }

  lemma CurrentRuns(s: Sched)
    requires Inv(s)
    ensures Current(s) in s.tasks && s.tasks[Current(s)].running && s.tasks[Current(s)].level == s.level
  {
    assert QueueExact(s, s.level);
    assert Current(s) in s.queues[s.level];
  }

  /** Only the queue of one level and one task of that level changed. */
  ghost predicate OneQueue(s: Sched, s': Sched, l: nat, id: nat) {
    && |s.queues| == |s'.queues| == MAX_LEVEL + 1
    && l <= MAX_LEVEL
    && s'.queues == s.queues[l := s'.queues[l]]
    && (id in s.tasks && s.tasks[id].running ==> s.tasks[id].level == l)
    && (id in s'.tasks && s'.tasks[id].running ==> s'.tasks[id].level == l)
    && (id in s'.tasks ==> s'.tasks[id].level <= MAX_LEVEL && id <= s'.latestId)
    && s.latestId <= s'.latestId
    && (forall x | x != id :: x in s.tasks <==> x in s'.tasks)
    && forall x | x in s.tasks && x != id :: s'.tasks[x] == s.tasks[x]
  }

  lemma OneQueueKept(s: Sched, s': Sched, l: nat, id: nat)
    requires Queues(s) && OneQueue(s, s', l, id) && NoDuplicates(s'.queues[l])
    requires forall x | x != id :: x in s'.queues[l] <==> x in s.queues[l]
    requires id in s'.queues[l] <==> id in s'.tasks && s'.tasks[id].running
    ensures Queues(s')
  {
    assert QueueExact(s, l);
    forall k | 0 <= k <= MAX_LEVEL
      ensures QueueExact(s', k)
    {
      assert QueueExact(s, k);
    }
  }

  /** Timer switches keep the invariant, and leave the highest runnable level current. */
  lemma SwitchKeepsInv(s: Sched)
    requires Inv(s)
    ensures Inv(Rotate(s, false)) && OnTop(Rotate(s, false)) && !Rotate(s, false).levelChanged
  {
    var r, q := Rotate(s, false), s.queues[s.level];
    CurrentRuns(s);
    assert QueueExact(s, s.level);
    Popped(q);
    Appended(q[1..], q[0]);
    OneQueueKept(s, r, s.level, q[0]);
    RotateRepairs(s, false);
  }

  /** A task that is put to sleep leaves its queue; if it is current, so does the level if it must. */
  lemma SleepKeepsInv(s: Sched, id: nat)
    requires Inv(s) && id in s.tasks && id != IDLE_TASK
    ensures Inv(Sleep(s, id))
    ensures id == Current(s) && s.tasks[id].running ==> OnTop(Sleep(s, id)) && !Sleep(s, id).levelChanged
  {
    hide TopLevel, NoDuplicates;
    var t, r := s.tasks[id], Sleep(s, id);
    if t.running {
      assert QueueExact(s, t.level);
      if id == Current(s) {
        CurrentRuns(s);
        Popped(s.queues[s.level]);
        SomebodyElse(s);
        OneQueueKept(s, r, s.level, id);
        RotateRepairs(SetTask(s, id, t.(running := false)), true);
      } else {
        WithoutIsExact(s.queues[t.level], id);
        OneQueueKept(s, r, t.level, id);
        CurrentRuns(s);
        assert Current(s) in r.queues[s.level];
      }
    }
  }

  /** A running task out of its queue. */
  ghost function Left(s: Sched, id: nat, queue: seq<nat>): Sched
    requires |s.queues| == MAX_LEVEL + 1 && id in s.tasks && s.tasks[id].level <= MAX_LEVEL
  {
    SetTask(SetQueue(s, s.tasks[id].level, queue), id, s.tasks[id].(running := false))
  }

  lemma LeftKeepsQueues(s: Sched, id: nat, queue: seq<nat>)
    requires Queues(s) && id in s.tasks && s.tasks[id].running && NoDuplicates(queue)
    requires forall x :: x in queue <==> x in s.queues[s.tasks[id].level] && x != id
    ensures Queues(Left(s, id, queue))
  {
    OneQueueKept(s, Left(s, id, queue), s.tasks[id].level, id);
  }

  /** A task that is in no queue joins one, at its end or in front. */
  lemma JoinKeepsQueues(s: Sched, id: nat, level: nat, front: bool)
    requires Queues(s) && level <= MAX_LEVEL && id in s.tasks && !s.tasks[id].running
    ensures var q := if front then [id] + s.queues[level] else s.queues[level] + [id];
            Queues(SetTask(SetQueue(s, level, q), id, s.tasks[id].(level := level, running := true)))
  {
    var q := if front then [id] + s.queues[level] else s.queues[level] + [id];
    assert QueueExact(s, level);
    Appended(s.queues[level], id);
    OneQueueKept(s, SetTask(SetQueue(s, level, q), id, s.tasks[id].(level := level, running := true)), level, id);
  }

  /** Only tasks, queues and the last id matter to the queues. */
  lemma SameQueues(s: Sched, s': Sched)
    requires Queues(s) && s'.tasks == s.tasks && s'.queues == s.queues && s'.latestId == s.latestId
    ensures Queues(s')
  {
    forall l | 0 <= l <= MAX_LEVEL
      ensures QueueExact(s', l)
    {
      assert QueueExact(s, l);
    }
  }

  lemma MoveKeepsQueues(s: Sched, s': Sched, id: nat, queue: seq<nat>, level: nat, front: bool)
    requires Queues(s) && id in s.tasks && s.tasks[id].running && level <= MAX_LEVEL && level != s.tasks[id].level
    requires NoDuplicates(queue) && forall x :: x in queue <==> x in s.queues[s.tasks[id].level] && x != id
    requires s'.tasks == s.tasks[id := s.tasks[id].(level := level)] && s'.latestId == s.latestId
    requires s'.queues == s.queues[s.tasks[id].level := queue]
                            [level := if front then [id] + s.queues[level] else s.queues[level] + [id]]
    ensures Queues(s')
  {
    var r := Left(s, id, queue);
    LeftKeepsQueues(s, id, queue);
    JoinKeepsQueues(r, id, level, front);
    var q := if front then [id] + r.queues[level] else r.queues[level] + [id];
    SameQueues(SetTask(SetQueue(r, level, q), id, r.tasks[id].(level := level, running := true)), s');
  }

  lemma ChangeLevelKeepsQueues(s: Sched, id: nat, level: nat)
    requires Inv(s) && id in s.tasks && s.tasks[id].running && level <= MAX_LEVEL
    ensures Queues(ChangeLevelRunning(s, id, level))
  {
    var t := s.tasks[id];
    assert QueueExact(s, t.level);
    CurrentRuns(s);
    if level != t.level {
      if id == Current(s) {
        Popped(s.queues[s.level]);
        MoveKeepsQueues(s, ChangeLevelRunning(s, id, level), id, s.queues[t.level][1..], level, true);
      } else {
        WithoutIsExact(s.queues[t.level], id);
        MoveKeepsQueues(s, ChangeLevelRunning(s, id, level), id, Without(s.queues[t.level], id), level, false);
      }
    }
  }

  /** Changing the level of a running task never changes who is current. */
  lemma ChangeLevelKeepsInv(s: Sched, id: nat, level: int)
    requires Inv(s) && id in s.tasks && s.tasks[id].running && level <= MAX_LEVEL
    ensures Inv(ChangeLevelRunning(s, id, level)) && Current(ChangeLevelRunning(s, id, level)) == Current(s)
  {
    hide Without, NoDuplicates;
    if level >= 0 && level != s.tasks[id].level {
      ChangeLevelKeepsQueues(s, id, level);
      CurrentRuns(s);
      assert QueueExact(s, s.tasks[id].level);
      if id != Current(s) {
        WithoutKeepsFirst(s.queues[s.level], id);
      }
    }
  }

  lemma WithoutKeepsFirst(queue: seq<nat>, id: nat)
    requires queue != [] && queue[0] != id
    ensures Without(queue, id) != [] && Without(queue, id)[0] == queue[0]
  {
  }

  lemma WakeRunning(s: Sched, id: nat, level: int)
    requires Inv(s) && id in s.tasks && s.tasks[id].running && level <= MAX_LEVEL
    ensures Inv(Wakeup(s, id, level)) && Current(Wakeup(s, id, level)) == Current(s)
    ensures id in Wakeup(s, id, level).tasks && Wakeup(s, id, level).tasks[id].running
  {
    hide Without, QueueExact, OnTop;
    ChangeLevelKeepsInv(s, id, level);
  }

  lemma WakeAsleep(s: Sched, id: nat, level: int)
    requires Inv(s) && id in s.tasks && !s.tasks[id].running && level <= MAX_LEVEL
    ensures Inv(Wakeup(s, id, level)) && Current(Wakeup(s, id, level)) == Current(s)
    ensures id in Wakeup(s, id, level).tasks && Wakeup(s, id, level).tasks[id].running
  {
    hide ChangeLevelRunning, QueueExact;
    var t := s.tasks[id];
    var lv := if level < 0 then t.level else level;
    JoinKeepsQueues(s, id, lv, false);
    SameQueues(SetTask(SetQueue(s, lv, s.queues[lv] + [id]), id, t.(level := lv, running := true)),
               Wakeup(s, id, level));
  }

  /** Waking a task keeps the invariant, and never changes who is current. */
  lemma WakeupKeepsInv(s: Sched, id: nat, level: int)
    requires Inv(s) && id in s.tasks && level <= MAX_LEVEL
    ensures Inv(Wakeup(s, id, level)) && Current(Wakeup(s, id, level)) == Current(s)
    ensures id in Wakeup(s, id, level).tasks && Wakeup(s, id, level).tasks[id].running
  {
    hide Wakeup, QueueExact, OnTop;
    if s.tasks[id].running {
      WakeRunning(s, id, level);
    } else {
      WakeAsleep(s, id, level);
    }
  }

  /** Changing nothing but a task's messages. */
  lemma MessagesKeepInv(s: Sched, id: nat, msgs: seq<Message>)
    requires Inv(s) && id in s.tasks
    ensures Inv(SetTask(s, id, s.tasks[id].(msgs := msgs)))
            && Current(SetTask(s, id, s.tasks[id].(msgs := msgs))) == Current(s)
  {
    var s' := SetTask(s, id, s.tasks[id].(msgs := msgs));
    forall l | 0 <= l <= MAX_LEVEL
      ensures QueueExact(s', l)
    {
      assert QueueExact(s, l);
    }
  }

  lemma NewTaskKeepsInv(s: Sched)
    requires Inv(s)
    ensures Inv(NewTask(s)) && Current(NewTask(s)) == Current(s)
    ensures s.latestId + 1 !in s.tasks
  {
    forall l | 0 <= l <= MAX_LEVEL
      ensures QueueExact(NewTask(s), l)
    {
      assert QueueExact(s, l);
    }
  }

  lemma BootedInv()
    ensures Inv(Booted()) && Current(Booted()) == MAIN_TASK && OnTop(Booted())
  {
    forall l | 0 <= l <= MAX_LEVEL
      ensures QueueExact(Booted(), l)
    {
    }
  }

  lemma EndedKeepsInv(s: Sched, code: int)
    requires Inv(s) && Current(s) != IDLE_TASK
    ensures Inv(Ended(s, code)) && OnTop(Ended(s, code)) && !Ended(s, code).levelChanged
  {
    CurrentRuns(s);
    assert QueueExact(s, s.level);
    Popped(s.queues[s.level]);
    SomebodyElse(s);
    OneQueueKept(s, Ended(s, code), s.level, Current(s));
    RotateRepairs(s, true);
  }

  /** A finishing task disappears; its waiter, if it is alive, runs again. */
  lemma FinishKeepsInv(s: Sched, code: int)
    requires Inv(s) && Current(s) != IDLE_TASK
    ensures Inv(Finish(s, code)) && Current(s) !in Finish(s, code).tasks
  {
    var id, r := Current(s), Ended(s, code);
    EndedKeepsInv(s, code);
    if id in r.waiters {
      var waiter, woken := r.waiters[id], r.(waiters := r.waiters - {id});
      SameQueues(r, woken);
      if waiter in r.tasks {
        WakeupKeepsInv(woken, waiter, -1);
      }
    }
  }

  lemma WaitKeepsInv(s: Sched, id: nat)
    requires Inv(s) && Current(s) != IDLE_TASK
    ensures Current(s) in s.tasks
    ensures Inv(WaitFinish(s, id).sched)
  {
    CurrentRuns(s);
    if id in s.finished {
      SameQueues(s, s.(finished := s.finished - {id}));
    } else {
      var r := s.(waiters := s.waiters[id := Current(s)]);
      SameQueues(s, r);
      SleepKeepsInv(r, Current(s));
    }
  }

  // ---------------------------------------------------------------- runs

  datatype Op =
    | Create
    | Wake(id: nat, level: int)
    | Suspend(id: nat)
    | Send(id: nat, m: Message)
    | Receive(id: nat)
    | Switch
    | Exit(code: int)
    | Await(id: nat)

  /** The idle task is never put to sleep, never waits and never finishes; levels exist. */
  ghost predicate Allowed(s: Sched, op: Op)
    requires Shape(s)
  {
    match op
    case Wake(_, level) => level <= MAX_LEVEL
    case Suspend(id) => id != IDLE_TASK
    case Exit(_) => Current(s) != IDLE_TASK
    case Await(_) => Current(s) != IDLE_TASK
    case _ => true
  }

  /** One operation; those on a task id that does not exist only return an error. */
  ghost function Step(s: Sched, op: Op): Sched
    requires Inv(s) && Allowed(s, op)
  {
    match op
    case Create => NewTask(s)
    case Wake(id, level) => if id in s.tasks then Wakeup(s, id, level) else s
    case Suspend(id) => if id in s.tasks then Sleep(s, id) else s
    case Send(id, m) => if id in s.tasks then SendMessage(s, id, m) else s
    case Receive(id) => if id in s.tasks && s.tasks[id].msgs != [] then Received(s, id) else s
    case Switch => Rotate(s, false)
    case Exit(code) => Finish(s, code)
    case Await(id) => CurrentRuns(s); WaitFinish(s, id).sched
  }

  lemma SendKeepsInv(s: Sched, id: nat, m: Message)
    requires Inv(s) && id in s.tasks
    ensures Inv(SendMessage(s, id, m)) && Current(SendMessage(s, id, m)) == Current(s)
  {
    MessagesKeepInv(s, id, s.tasks[id].msgs + [m]);
    WakeupKeepsInv(SetTask(s, id, s.tasks[id].(msgs := s.tasks[id].msgs + [m])), id, -1);
  }

  /** Every operation keeps the scheduler invariant. */
  lemma StepKeepsInv(s: Sched, op: Op)
    requires Inv(s) && Allowed(s, op)
    ensures Inv(Step(s, op))
  {
    match op
    case Create => NewTaskKeepsInv(s);
    case Wake(id, level) => if id in s.tasks { WakeupKeepsInv(s, id, level); }
    case Suspend(id) => if id in s.tasks { SleepKeepsInv(s, id); }
    case Send(id, m) => if id in s.tasks { SendKeepsInv(s, id, m); }
    case Receive(id) => if id in s.tasks && s.tasks[id].msgs != [] { MessagesKeepInv(s, id, s.tasks[id].msgs[1..]); }
    case Switch => SwitchKeepsInv(s);
    case Exit(code) => FinishKeepsInv(s, code);
    case Await(id) => WaitKeepsInv(s, id);
  }

  /** s' is reached from s by these operations, each of them allowed. */
  ghost predicate Run(s: Sched, ops: seq<Op>, s': Sched)
    requires Inv(s)
    decreases |ops|
  {
    if ops == [] then s' == s
    else Allowed(s, ops[0]) && (StepKeepsInv(s, ops[0]); Run(Step(s, ops[0]), ops[1..], s'))
  }

  /** In every run of a booted system in which the idle task keeps running the invariant holds. */
  lemma {:induction false} RunKeepsInv(s: Sched, ops: seq<Op>, s': Sched)
    requires Inv(s) && Run(s, ops, s')
    ensures Inv(s')
    decreases |ops|
  {
    if ops != [] {
      StepKeepsInv(s, ops[0]);
      RunKeepsInv(Step(s, ops[0]), ops[1..], s');
    }
  }

  /**
   * Which operations hand over the processor; all others, also a wait for a code that is there, leave the current task
   * current.
   */
  lemma OnlyRotationSwitches(s: Sched, op: Op)
    requires Inv(s) && Allowed(s, op)
    requires !op.Switch? && !op.Exit? && (op.Await? ==> op.id in s.finished) && op != Suspend(Current(s))
    ensures Inv(Step(s, op)) && Current(Step(s, op)) == Current(s)
  {
    StepKeepsInv(s, op);
    match op
    case Create => NewTaskKeepsInv(s);
    case Wake(id, level) => if id in s.tasks { WakeupKeepsInv(s, id, level); }
    case Suspend(id) => if id in s.tasks && s.tasks[id].running && s.tasks[id].level == s.level {
      WithoutKeepsFirst(s.queues[s.level], id);
    }
    case Send(id, m) => if id in s.tasks { SendKeepsInv(s, id, m); }
    case Receive(id) => if id in s.tasks && s.tasks[id].msgs != [] { MessagesKeepInv(s, id, s.tasks[id].msgs[1..]); }
    case Await(id) =>
  }
}
