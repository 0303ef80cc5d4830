/** The task manager of kernel/task.cpp, with its queues and records updated in place. */
module TaskManagers {
  import opened Messages
  import opened Tasks

  datatype Error = Success | NoSuchTask

  datatype Option<T> = None | Some(value: T)

  /** Erase: the elements of a queue that are not the task, in their order. */
  method Erase(queue: seq<nat>, id: nat) returns (rest: seq<nat>)
    ensures rest == Without(queue, id)
  {
    rest := [];
    var i := 0;
    while i < |queue|
      invariant i <= |queue|
      invariant rest + Without(queue[i..], id) == Without(queue, id)
    {
      assert queue[i..][1..] == queue[i + 1..];
      if queue[i] != id {
        rest := rest + [queue[i]];
      }
      i := i + 1;
    }
    assert rest + [] == rest;
  }

  class TaskManager {
    var tasks: map<nat, Task>
    var latestId: nat
    const running: array<seq<nat>>
    var currentLevel: nat
    var levelChanged: bool
    var finishTasks: map<nat, int>
    var finishWaiter: map<nat, nat>

    ghost function State(): Sched
      reads this, running
    {
      Sched(tasks, latestId, running[..], currentLevel, levelChanged, finishTasks, finishWaiter)
    }

    /** The main task on the highest level is current, the idle task waits on the lowest. */
    constructor ()
      ensures State() == Booted() && fresh(running)
    {
      tasks, latestId := map[], 0;
      running := new seq<nat>[MAX_LEVEL + 1](_ => []);
      currentLevel, levelChanged := MAX_LEVEL, false;
      finishTasks, finishWaiter := map[], map[];
      new;
      assert running[..] == [[], [], [], []];
      var task := CreateTask();
      tasks := tasks[task := tasks[task].(level := currentLevel, running := true)];
      running[currentLevel] := running[currentLevel] + [task];
      var idle := CreateTask();
      tasks := tasks[idle := tasks[idle].(level := 0, running := true)];
      running[0] := running[0] + [idle];
      assert running[0] == [idle] && running[MAX_LEVEL] == [task];
      assert running[..] == [[idle], [], [], [task]];
    }

    method CreateTask() returns (id: nat)
      modifies `latestId, `tasks
      ensures State() == NewTask(old(State())) && id == latestId
    {
      latestId := latestId + 1;
      tasks := tasks[latestId := Task(DEFAULT_LEVEL, false, [])];
      id := latestId;
    }

    method CurrentTask() returns (id: nat)
      requires Shape(State())
      ensures id == Current(State())
    {
      id := running[currentLevel][0];
    }

    /** Moves the current task to the end of its queue, or drops it, and repairs the current level if needed. */
    method RotateCurrentRunQueue(currentSleep: bool) returns (currentTask: nat)
      requires Shape(State())
      modifies `levelChanged, `currentLevel, running
      ensures State() == Rotate(old(State()), currentSleep) && currentTask == old(Current(State()))
    {
      currentTask := running[currentLevel][0];
      ghost var before := running[..];
      running[currentLevel] := running[currentLevel][1..];
      if !currentSleep {
        running[currentLevel] := running[currentLevel] + [currentTask];
      }
      if running[currentLevel] == [] {
        levelChanged := true;
      }
      if levelChanged {
        levelChanged := false;
        ghost var none := currentLevel;
        var lv: int := MAX_LEVEL;
        while lv >= 0
          invariant -1 <= lv <= MAX_LEVEL
          invariant currentLevel == none && TopLevel(running[..], MAX_LEVEL, none) == TopLevel(running[..], lv, none)
        {
          if running[lv] != [] {
            currentLevel := lv;
            break;
          }
          lv := lv - 1;
        }
      }
      assert running[..] == Rotate(old(State()), currentSleep).queues;
    }

    /** The timer's task switch; the register contexts are hardware state and not part of the model. */
    method SwitchTask()
      requires Shape(State())
      modifies `levelChanged, `currentLevel, running
      ensures State() == Rotate(old(State()), false)
    {
      var _ := RotateCurrentRunQueue(false);
    }

    method SleepTask(id: nat)
      requires Shape(State()) && id in tasks && tasks[id].level <= MAX_LEVEL
      modifies this, running
      ensures State() == Sleep(old(State()), id)
    {
      if !tasks[id].running {
        return;
      }
      tasks := tasks[id := tasks[id].(running := false)];
      if id == running[currentLevel][0] {
        var _ := RotateCurrentRunQueue(true);
        return;
      }
      var level := tasks[id].level;
      running[level] := Erase(running[level], id);
      assert running[..] == Sleep(old(State()), id).queues;
    }

    method ChangeLevel(id: nat, level: int)
      requires Shape(State()) && id in tasks && tasks[id].level <= MAX_LEVEL && level <= MAX_LEVEL
      modifies this, running
      ensures State() == ChangeLevelRunning(old(State()), id, level)
    {
      if level < 0 || level == tasks[id].level {
        return;
      }
      if id != running[currentLevel][0] {
        running[tasks[id].level] := Erase(running[tasks[id].level], id);
        running[level] := running[level] + [id];
        tasks := tasks[id := tasks[id].(level := level)];
        if level > currentLevel {
          levelChanged := true;
        }
        assert running[..] == ChangeLevelRunning(old(State()), id, level).queues;
        return;
      }
      running[currentLevel] := running[currentLevel][1..];
      running[level] := [id] + running[level];
      tasks := tasks[id := tasks[id].(level := level)];
      if level >= currentLevel {
        currentLevel := level;
      } else {
        currentLevel, levelChanged := level, true;
      }
      assert running[..] == ChangeLevelRunning(old(State()), id, level).queues;
    }

    method WakeTask(id: nat, level: int)
      requires Shape(State()) && id in tasks && tasks[id].level <= MAX_LEVEL && level <= MAX_LEVEL
      modifies this, running
      ensures State() == Wakeup(old(State()), id, level)
    {
      if tasks[id].running {
        ChangeLevel(id, level);
        return;
      }
      var lv := if level < 0 then tasks[id].level else level;
      tasks := tasks[id := tasks[id].(level := lv, running := true)];
      running[lv] := running[lv] + [id];
      if lv > currentLevel {
        levelChanged := true;
      }
      assert running[..] == Wakeup(old(State()), id, level).queues;
    }

    method SendMessage(id: nat, msg: Message) returns (error: Error)
      requires Shape(State()) && (id in tasks ==> tasks[id].level <= MAX_LEVEL)
      modifies this, running
      ensures error == (if id in old(tasks) then Success else NoSuchTask)
      ensures State() == if id in old(tasks) then Tasks.SendMessage(old(State()), id, msg) else old(State())
    {
      if id !in tasks {
        return NoSuchTask;
      }
      tasks := tasks[id := tasks[id].(msgs := tasks[id].msgs + [msg])];
      WakeTask(id, -1);
      return Success;
    }

    method ReceiveMessage(id: nat) returns (msg: Option<Message>)
      requires id in tasks
      modifies `tasks
      ensures msg == if old(tasks[id].msgs) == [] then None else Some(old(tasks[id].msgs)[0])
      ensures State() == if msg.None? then old(State()) else Received(old(State()), id)
    {
      var msgs := tasks[id].msgs;
      if msgs == [] {
        return None;
      }
      tasks := tasks[id := tasks[id].(msgs := msgs[1..])];
      return Some(msgs[0]);
    }

    /** Ends the current task; its waiter must be alive, as it is in every run of TaskRuns.dfy. */
    method FinishTask(exitCode: int)
      requires Inv(State()) && Current(State()) != IDLE_TASK
      requires Current(State()) in finishWaiter ==>
                 finishWaiter[Current(State())] in tasks && finishWaiter[Current(State())] != Current(State())
      modifies this, running
      ensures State() == Finish(old(State()), exitCode)
    {
      EndedKeepsInv(State(), exitCode);
      var taskId := RotateCurrentRunQueue(true);
      tasks := tasks - {taskId};
      finishTasks := finishTasks[taskId := exitCode];
      if taskId in finishWaiter {
        var waiter := finishWaiter[taskId];
        finishWaiter := finishWaiter - {taskId};
        WakeTask(waiter, -1);
      }
    }

    /**
     * One round of the loop of WaitFinish, up to its Sleep: the exit code, or None when the current
     * task was put to sleep and has to come back.
     */
    method WaitRound(taskId: nat) returns (code: Option<int>)
      requires Inv(State())
      modifies this, running
      ensures Current(old(State())) in old(tasks)
      ensures WaitFinish(old(State()), taskId) == if code.Some? then Delivered(State(), code.value)
                else Blocked(State())
    {
      CurrentRuns(State());
      if taskId in finishTasks {
        var exitCode := finishTasks[taskId];
        finishTasks := finishTasks - {taskId};
        return Some(exitCode);
      }
      var current := CurrentTask();
      finishWaiter := finishWaiter[taskId := current];
      SleepTask(current);
      return None;
    }
  }
}
