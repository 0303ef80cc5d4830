/**
 * The order of the run queues of kernel/task.cpp. Tasks of one level run in turn, so besides who is in a queue it
 * matters who stands in front of whom.
 */
module QueueOrder {
  import opened Messages
  import opened Sequences
  import opened Tasks

  /** x stands somewhere in front of y. */
  ghost predicate Before(queue: seq<nat>, x: nat, y: nat) {
    exists i, j :: 0 <= i < j < |queue| && queue[i] == x && queue[j] == y
  }

  /** In a queue without duplicates, of two tasks one stands in front of the other, and only one. */
  lemma BeforeIsAnOrder(queue: seq<nat>, x: nat, y: nat)
    requires NoDuplicates(queue) && x in queue && y in queue && x != y
    ensures Before(queue, x, y) <==> !Before(queue, y, x)
  {
    var i :| 0 <= i < |queue| && queue[i] == x;
    var j :| 0 <= j < |queue| && queue[j] == y;
    if i < j {
      assert Before(queue, x, y);
    } else {
      assert Before(queue, y, x);
    }
  }

  /** Tasks that stay in the queue keep their order. */
  ghost predicate OrderKept(queue: seq<nat>, queue': seq<nat>) {
    forall x, y | x in queue' && y in queue' && Before(queue, x, y) :: Before(queue', x, y)
  }

  /** Tasks that join the queue stand behind all that were in it. */
  ghost predicate JoinedBehind(queue: seq<nat>, queue': seq<nat>) {
    forall x, y | x in queue && x in queue' && y in queue' && y !in queue :: Before(queue', x, y)
  }

  /** The first task went behind all others, which keep their order. */
  ghost predicate Rotated(queue: seq<nat>, queue': seq<nat>, first: nat) {
    && (forall x :: x in queue' <==> x in queue)
    && (forall x, y | x != first && y != first && Before(queue, x, y) :: Before(queue', x, y))
    && (forall x | x in queue && x != first :: Before(queue', x, first))
  }

  /** The task that joins the queue stands in front of all others, which keep their order. */
  ghost predicate JoinedInFront(queue: seq<nat>, queue': seq<nat>, first: nat) {
    && (forall y | y in queue' && y !in queue :: y == first)
    && (first in queue' && first !in queue ==> forall x | x in queue :: Before(queue', first, x))
  }

  // ---------------------------------------------------------------- what becomes of one queue

  lemma AppendedKeepsOrder(queue: seq<nat>, id: nat)
    ensures OrderKept(queue, queue + [id]) && JoinedBehind(queue, queue + [id])
  {
    var queue' := queue + [id];
    forall x, y | Before(queue, x, y)
      ensures Before(queue', x, y)
    {
      var i, j :| 0 <= i < j < |queue| && queue[i] == x && queue[j] == y;
      assert queue'[i] == x && queue'[j] == y;
    }
    forall x | x in queue
      ensures Before(queue', x, id)
    {
      var i :| 0 <= i < |queue| && queue[i] == x;
      assert queue'[i] == x && queue'[|queue|] == id;
    }
  }

  lemma InFrontKeepsOrder(queue: seq<nat>, id: nat)
    ensures OrderKept(queue, [id] + queue) && JoinedInFront(queue, [id] + queue, id)
  {
    var queue' := [id] + queue;
    forall x, y | Before(queue, x, y)
      ensures Before(queue', x, y)
    {
      var i, j :| 0 <= i < j < |queue| && queue[i] == x && queue[j] == y;
      assert queue'[i + 1] == x && queue'[j + 1] == y;
    }
    forall x | x in queue
      ensures Before(queue', id, x)
    {
      var i :| 0 <= i < |queue| && queue[i] == x;
      assert queue'[0] == id && queue'[i + 1] == x;
    }
  }

  lemma BeforeInTail(queue: seq<nat>, x: nat, y: nat)
    requires queue != [] && Before(queue, x, y)
    ensures Before(queue[1..], x, y) || x == queue[0]
    ensures y in queue[1..]
  {
    var i, j :| 0 <= i < j < |queue| && queue[i] == x && queue[j] == y;
    assert queue[1..][j - 1] == y;
    if i > 0 {
      assert queue[1..][i - 1] == x;
    }
  }

  lemma TailKeepsOrder(queue: seq<nat>)
    requires queue != [] && NoDuplicates(queue)
    ensures OrderKept(queue, queue[1..]) && JoinedBehind(queue, queue[1..])
  {
    Popped(queue);
    forall x, y | x in queue[1..] && Before(queue, x, y)
      ensures Before(queue[1..], x, y)
    {
      BeforeInTail(queue, x, y);
    }
  }

  lemma {:induction false} WithoutKeepsOrder(queue: seq<nat>, id: nat)
    ensures OrderKept(queue, Without(queue, id)) && JoinedBehind(queue, Without(queue, id))
    decreases |queue|
  {
    WithoutIsExact(queue, id);
    if queue != [] {
      var rest, queue' := queue[1..], Without(queue, id);
      WithoutKeepsOrder(rest, id);
      WithoutIsExact(rest, id);
      forall x, y | x in queue' && y in queue' && Before(queue, x, y)
        ensures Before(queue', x, y)
      {
        BeforeInTail(queue, x, y);
        if queue[0] != id {
          InFrontKeepsOrder(Without(rest, id), queue[0]);
          FrontIsBefore(Without(rest, id), queue[0], y);
        }
      }
    }
  }

  lemma FrontIsBefore(queue: seq<nat>, x: nat, y: nat)
    ensures y in queue ==> Before([x] + queue, x, y)
  {
    if y in queue {
      var i :| 0 <= i < |queue| && queue[i] == y;
      assert ([x] + queue)[0] == x && ([x] + queue)[i + 1] == y;
    }
  }

  lemma RotatedKeepsOrder(queue: seq<nat>)
    requires queue != [] && NoDuplicates(queue)
    ensures Rotated(queue, queue[1..] + [queue[0]], queue[0])
  {
    Popped(queue);
    AppendedKeepsOrder(queue[1..], queue[0]);
    forall x, y | x != queue[0] && y != queue[0] && Before(queue, x, y)
      ensures Before(queue[1..] + [queue[0]], x, y)
    {
      BeforeInTail(queue, x, y);
      BeforeIsIn(queue[1..], x, y);
    }
  }

  lemma BeforeIsIn(queue: seq<nat>, x: nat, y: nat)
    ensures Before(queue, x, y) ==> x in queue && y in queue
  {
  }

  /** The first task leaves and another one joins. */
  lemma TailAndAppendedKeepsOrder(queue: seq<nat>, id: nat)
    requires queue != [] && NoDuplicates(queue) && id != queue[0]
    ensures OrderKept(queue, queue[1..] + [id]) && JoinedBehind(queue, queue[1..] + [id])
  {
    Popped(queue);
    AppendedKeepsOrder(queue[1..], id);
    var queue' := queue[1..] + [id];
    forall x, y | x in queue' && y in queue' && Before(queue, x, y)
      ensures Before(queue', x, y)
    {
      BeforeInTail(queue, x, y);
      BeforeIsIn(queue[1..], x, y);
    }
  }

  // ---------------------------------------------------------------- what an operation does to each queue

  lemma ChangeLevelKeepsOrder(s: Sched, id: nat, level: int, l: nat)
    requires Inv(s) && id in s.tasks && s.tasks[id].running && level <= MAX_LEVEL && l <= MAX_LEVEL
    ensures |ChangeLevelRunning(s, id, level).queues| == MAX_LEVEL + 1
    ensures var queue' := ChangeLevelRunning(s, id, level).queues[l];
            && OrderKept(s.queues[l], queue')
            && (id != Current(s) ==> JoinedBehind(s.queues[l], queue'))
            && (id == Current(s) ==> JoinedInFront(s.queues[l], queue', id))
  {
    hide Current;
    hide OrderKept, JoinedBehind, Without, OnTop;
    CurrentRuns(s);
    assert QueueExact(s, l);
    SameKeepsOrder(s.queues[l], id);
    AppendedKeepsOrder(s.queues[l], id);
    InFrontKeepsOrder(s.queues[l], id);
    WithoutKeepsOrder(s.queues[l], id);
    TailKeepsOrderIf(s.queues[l]);
  }

  lemma SameKeepsOrder(queue: seq<nat>, id: nat)
    ensures OrderKept(queue, queue) && JoinedBehind(queue, queue) && JoinedInFront(queue, queue, id)
  {
  }

  lemma TailKeepsOrderIf(queue: seq<nat>)
    requires NoDuplicates(queue)
    ensures queue != [] ==> OrderKept(queue, queue[1..]) && JoinedBehind(queue, queue[1..])
  {
    if queue != [] {
      TailKeepsOrder(queue);
    }
  }

  lemma WakeupKeepsOrder(s: Sched, id: nat, level: int, l: nat)
    requires Inv(s) && id in s.tasks && level <= MAX_LEVEL && l <= MAX_LEVEL
    ensures |Wakeup(s, id, level).queues| == MAX_LEVEL + 1
    ensures var queue' := Wakeup(s, id, level).queues[l];
            && OrderKept(s.queues[l], queue')
            && (id == Current(s) ==> JoinedInFront(s.queues[l], queue', id))
            && (id != Current(s) || level < 0 ==> JoinedBehind(s.queues[l], queue'))
  {
    hide OrderKept, JoinedBehind, JoinedInFront, ChangeLevelRunning, OnTop, QueueExact;
    CurrentRuns(s);
    if s.tasks[id].running {
      ChangeLevelKeepsOrder(s, id, level, l);
      NoLevelNoChange(s, id, level);
      SameKeepsOrder(s.queues[l], id);
    } else {
      SameKeepsOrder(s.queues[l], id);
      AppendedKeepsOrder(s.queues[l], id);
    }
  }

  lemma NoLevelNoChange(s: Sched, id: nat, level: int)
    requires Inv(s) && id in s.tasks && level <= MAX_LEVEL
    ensures level < 0 ==> ChangeLevelRunning(s, id, level) == s
  {
  }

  lemma SleepKeepsOrder(s: Sched, id: nat, l: nat)
    requires Inv(s) && id in s.tasks && id != IDLE_TASK && l <= MAX_LEVEL
    ensures |Sleep(s, id).queues| == MAX_LEVEL + 1
    ensures OrderKept(s.queues[l], Sleep(s, id).queues[l]) && JoinedBehind(s.queues[l], Sleep(s, id).queues[l])
  {
    hide OrderKept, JoinedBehind, Without, OnTop;
    assert QueueExact(s, l);
    SameKeepsOrder(s.queues[l], id);
    WithoutKeepsOrder(s.queues[l], id);
    TailKeepsOrderIf(s.queues[l]);
  }

  lemma SwitchKeepsOrder(s: Sched, l: nat)
    requires Inv(s) && l <= MAX_LEVEL
    ensures |Rotate(s, false).queues| == MAX_LEVEL + 1
    ensures var queue' := Rotate(s, false).queues[l];
            if l == s.level then Rotated(s.queues[l], queue', Current(s)) else queue' == s.queues[l]
  {
    hide Rotated, OnTop;
    assert QueueExact(s, s.level);
    RotatedKeepsOrder(s.queues[s.level]);
  }

  /** Only the current task leaves when it finishes, and its waiter joins. */
  lemma FinishKeepsOrder(s: Sched, code: int, l: nat)
    requires Inv(s) && Current(s) != IDLE_TASK && l <= MAX_LEVEL
    ensures |Finish(s, code).queues| == MAX_LEVEL + 1
    ensures OrderKept(s.queues[l], Finish(s, code).queues[l]) && JoinedBehind(s.queues[l], Finish(s, code).queues[l])
  {
    hide OrderKept, JoinedBehind, OnTop, QueueExact;
    CurrentRuns(s);
    EndedKeepsInv(s, code);
    var r := Ended(s, code);
    EndedQueues(s, code, l);
    FinishQueues(s, code, l);
    SameKeepsOrder(s.queues[l], 0);
    CurrentQueue(s);
    TailKeepsOrder(s.queues[s.level]);
    if Current(s) in s.waiters {
      AppendedKeepsOrder(s.queues[l], s.waiters[Current(s)]);
      if s.waiters[Current(s)] != Current(s) {
        TailAndAppendedKeepsOrder(s.queues[s.level], s.waiters[Current(s)]);
      }
    }
  }

  lemma CurrentQueue(s: Sched)
    requires Inv(s)
    ensures NoDuplicates(s.queues[s.level])
  {
    assert QueueExact(s, s.level);
  }

  lemma EndedQueues(s: Sched, code: int, l: nat)
    requires Inv(s) && l <= MAX_LEVEL
    ensures |Ended(s, code).queues| == MAX_LEVEL + 1
    ensures Ended(s, code).queues[l] == if l == s.level then s.queues[l][1..] else s.queues[l]
  {
  }

  lemma FinishQueues(s: Sched, code: int, l: nat)
    requires Inv(s) && Current(s) != IDLE_TASK && l <= MAX_LEVEL && Inv(Ended(s, code))
    ensures |Finish(s, code).queues| == MAX_LEVEL + 1
    ensures var queue := Ended(s, code).queues[l];
            || Finish(s, code).queues[l] == queue
            || (&& Current(s) in s.waiters && s.waiters[Current(s)] != Current(s)
                && Finish(s, code).queues[l] == queue + [s.waiters[Current(s)]])
  {
    hide QueueExact, OnTop;
    var id, r := Current(s), Ended(s, code);
    if id in r.waiters {
      var woken := r.(waiters := r.waiters - {id});
      if r.waiters[id] in r.tasks {
        WakeupQueues(woken, r.waiters[id], l);
      }
    }
  }

  lemma WakeupQueues(s: Sched, id: nat, l: nat)
    requires Shape(s) && id in s.tasks && s.tasks[id].level <= MAX_LEVEL && l <= MAX_LEVEL
    ensures |Wakeup(s, id, -1).queues| == MAX_LEVEL + 1
    ensures Wakeup(s, id, -1).queues[l] == s.queues[l] || Wakeup(s, id, -1).queues[l] == s.queues[l] + [id]
  {
  }

  // ---------------------------------------------------------------- every operation

  /** The current task joins the queue of its new level in front, so it stays current. */
  predicate MovesCurrent(s: Sched, op: Op)
    requires Shape(s)
  {
    op.Wake? && op.id == Current(s)
  }

  /**
   * In the queue of every level, whoever stays keeps their order and whoever joins stands behind all who were there,
   * but for two cases: a task switch puts the current task behind the others of its queue, and a new level for the
   * current task puts it in front of those of that level.
   */
  lemma StepKeepsOrder(s: Sched, op: Op, l: nat)
    requires Inv(s) && Allowed(s, op) && l <= MAX_LEVEL
    ensures |Step(s, op).queues| == MAX_LEVEL + 1
    ensures var queue, queue' := s.queues[l], Step(s, op).queues[l];
            if op.Switch? && l == s.level then Rotated(queue, queue', Current(s))
            else
              && OrderKept(queue, queue')
              && if MovesCurrent(s, op) then JoinedInFront(queue, queue', Current(s)) else JoinedBehind(queue, queue')
  {
    hide Wakeup, Sleep, Finish, Rotate, OrderKept, JoinedBehind, JoinedInFront, Rotated, Queues, OnTop;
    SameKeepsOrder(s.queues[l], if Shape(s) then Current(s) else 0);
    match op
    case Create =>
    case Wake(id, level) => if id in s.tasks { WakeupKeepsOrder(s, id, level, l); }
    case Suspend(id) => if id in s.tasks { SleepKeepsOrder(s, id, l); }
    case Send(id, m) =>
      if id in s.tasks {
        MessagesKeepInv(s, id, s.tasks[id].msgs + [m]);
        WakeupKeepsOrder(SetTask(s, id, s.tasks[id].(msgs := s.tasks[id].msgs + [m])), id, -1, l);
      }
    case Receive(id) =>
    case Switch => SwitchKeepsOrder(s, l);
    case Exit(code) => FinishKeepsOrder(s, code, l);
    case Await(id) => AwaitKeepsOrder(s, id, l);
  }

  lemma AwaitKeepsOrder(s: Sched, id: nat, l: nat)
    requires Inv(s) && Current(s) != IDLE_TASK && l <= MAX_LEVEL
    ensures Current(s) in s.tasks && |WaitFinish(s, id).sched.queues| == MAX_LEVEL + 1
    ensures OrderKept(s.queues[l], WaitFinish(s, id).sched.queues[l])
    ensures JoinedBehind(s.queues[l], WaitFinish(s, id).sched.queues[l])
  {
    hide Sleep, OrderKept, JoinedBehind, QueueExact;
    CurrentRuns(s);
    SameKeepsOrder(s.queues[l], id);
    if id !in s.finished {
      var r := s.(waiters := s.waiters[id := Current(s)]);
      SameQueues(s, r);
      SleepKeepsOrder(r, Current(s), l);
    }
  }
}
