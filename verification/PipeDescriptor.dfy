/** The pipe descriptor of kernel/terminal.cpp, over the task manager that carries its messages. */
module PipeDescriptors {
  import opened Division
  import Words
  import opened Messages
  import opened Tasks
  import opened TaskManagers
  import Pipe

  type Byte = Words.Byte

  /** The scheduler after these messages were sent to a task, one after the other. */
  ghost function SendEach(s: Sched, id: nat, ms: seq<Message>): (r: Sched)
    requires Inv(s)
    ensures Inv(r)
    decreases |ms|
  {
    if ms == [] then s
    else
      var op := Op.Send(id, ms[0]);
      StepKeepsInv(s, op);
      SendEach(Step(s, op), id, ms[1..])
  }

  /** They arrive in the task's mailbox in order, the task runs, and the current task stays current. */
  lemma {:induction false} SendEachDelivers(s: Sched, id: nat, ms: seq<Message>)
    requires Inv(s) && id in s.tasks
    ensures var r := SendEach(s, id, ms);
            && id in r.tasks
            && r.tasks[id].msgs == s.tasks[id].msgs + ms
            && (ms != [] ==> r.tasks[id].running)
            && Current(r) == Current(s)
    decreases |ms|
  {
    hide SendMessage;
    if ms != [] {
      SendKeepsInv(s, id, ms[0]);
      var s' := SendMessage(s, id, ms[0]);
      SendDelivers(s, id, ms[0]);
      SendEachDelivers(s', id, ms[1..]);
      assert s.tasks[id].msgs + [ms[0]] + ms[1..] == s.tasks[id].msgs + ms;
      if ms[1..] == [] {
        assert SendEach(s', id, ms[1..]) == s';
      }
    }
  }

  lemma SendDelivers(s: Sched, id: nat, m: Message)
    requires Inv(s) && id in s.tasks
    ensures var r := SendMessage(s, id, m);
            id in r.tasks && r.tasks[id].msgs == s.tasks[id].msgs + [m] && r.tasks[id].running
  {
  }

  /** Sending the first packet of a buffer, then those of the rest. */
  lemma SendPacket(s: Sched, id: nat, rest: seq<Byte>, n: nat)
    requires Inv(s) && id in s.tasks && rest != [] && n == Min(|rest|, PIPE_DATA)
    ensures Inv(SendMessage(s, id, Message.Pipe(rest[..n])))
    ensures SendEach(s, id, Pipe.Packets(rest))
              == SendEach(SendMessage(s, id, Message.Pipe(rest[..n])), id, Pipe.Packets(rest[n..]))
    ensures id in SendMessage(s, id, Message.Pipe(rest[..n])).tasks
  {
    SendKeepsInv(s, id, Message.Pipe(rest[..n]));
    SendDelivers(s, id, Message.Pipe(rest[..n]));
    assert Pipe.Packets(rest)[1..] == Pipe.Packets(rest[n..]);
    hide Inv, SendMessage;
  }

  class PipeDescriptor {
    const taskManager: TaskManager
    const task: nat
    const data: array<Byte>
    var len: nat
    var closed: bool

    /** The reading end as a value: the kept bytes, the end flag and the reader's mailbox. */
    ghost function Reader(): Pipe.Reader
      requires len <= data.Length
      reads this, data, taskManager
    {
      Pipe.Reader(data[..len], closed, if task in taskManager.tasks then taskManager.tasks[task].msgs else [])
    }

    /** The reader is alive, and its end of the pipe is well-formed. */
    ghost predicate Valid()
      reads this, data, taskManager, taskManager.running
    {
      && data.Length == PIPE_DATA
      && len <= PIPE_DATA
      && Inv(taskManager.State())
      && task in taskManager.tasks
      && task != IDLE_TASK
      && Pipe.Valid(Reader())
    }

    constructor (taskManager: TaskManager, task: nat)
      requires Inv(taskManager.State()) && task in taskManager.tasks && task != IDLE_TASK
      requires forall m | m in taskManager.tasks[task].msgs :: !m.Pipe?
      ensures this.taskManager == taskManager && this.task == task && fresh(data)
      ensures Valid() && Pipe.Pending(Reader()) == [] && !Pipe.Finished(Reader())
    {
      this.taskManager, this.task := taskManager, task;
      data := new Byte[PIPE_DATA](_ => 0);
      len, closed := 0, false;
      new;
      NoPayload(taskManager.tasks[task].msgs);
    }

    static lemma {:induction false} NoPayload(box: seq<Message>)
      requires forall m | m in box :: !m.Pipe?
      ensures Pipe.Payload(box) == []
      decreases |box|
    {
      if box != [] {
        NoPayload(box[1..]);
      }
    }

    /** Keeps the first n bytes of a sequence in the descriptor. */
    method Keep(bytes: seq<Byte>)
      requires data.Length == PIPE_DATA && |bytes| <= PIPE_DATA
      modifies `len, data
      ensures len == |bytes| && data[..len] == bytes
    {
      len := |bytes|;
      var i := 0;
      while i < len
        invariant len == |bytes| && i <= len && data[..i] == bytes[..i]
        modifies data
      {
        data[i] := bytes[i];
        i := i + 1;
      }
    }

    /**
     * Read by the current task. None: the mailbox ran empty, the task was put to sleep, and it comes
     * back to the loop when it is woken.
     */
    method Read(length: nat) returns (buf: Option<seq<Byte>>)
      requires Valid() && Current(taskManager.State()) == task
      modifies `len, `closed, data, taskManager, taskManager.running
      ensures len <= data.Length
      ensures Pipe.Read(old(Reader()), length)
           == if buf.Some? then Pipe.Returned(Reader(), buf.value) else Pipe.Blocked(Reader())
      ensures buf.None? ==> task in taskManager.tasks && !taskManager.tasks[task].running
    {
      hide QueueExact;
      if len > 0 {
        var n := Min(len, length);
        buf := Some(data[..n]);
        var rest := data[n..len];
        Keep(rest);
        return;
      }
      if closed {
        return Some([]);
      }
      ghost var r0 := Reader();
      while true
        invariant len == 0 && !closed && data.Length == PIPE_DATA && Inv(taskManager.State())
        invariant task in taskManager.tasks && Current(taskManager.State()) == task
        invariant forall m | m in taskManager.tasks[task].msgs && m.Pipe? :: |m.data| <= PIPE_DATA
        invariant Pipe.Read(Reader(), length) == Pipe.Read(r0, length)
        decreases |taskManager.tasks[task].msgs|
        modifies `len, `closed, data, taskManager, taskManager.running
      {
        ghost var box := taskManager.tasks[task].msgs;
        if box != [] {
          MessagesKeepInv(taskManager.State(), task, box[1..]);
        }
        var msg := taskManager.ReceiveMessage(task);
        if msg.None? {
          taskManager.SleepTask(task);
          return None;
        }
        assert msg.value in box && forall m | m in box[1..] :: m in box;
        if !msg.value.Pipe? {
          continue;
        }
        var packet := msg.value.data;
        if packet == [] {
          closed := true;
          return Some([]);
        }
        var n := Min(|packet|, length);
        Keep(packet[n..]);
        return Some(packet[..n]);
      }
    }

    /** Write sends the bytes in packets, each with interrupts off. */
    method Write(buf: seq<Byte>) returns (n: nat)
      requires Inv(taskManager.State()) && task in taskManager.tasks
      modifies taskManager, taskManager.running
      ensures n == |buf|
      ensures taskManager.State() == SendEach(old(taskManager.State()), task, Pipe.Packets(buf))
      ensures task in taskManager.tasks
              && taskManager.tasks[task].msgs == old(taskManager.tasks[task].msgs) + Pipe.Packets(buf)
    {
      ghost var s0 := taskManager.State();
      SendEachDelivers(s0, task, Pipe.Packets(buf));
      var sentBytes := 0;
      while sentBytes < |buf|
        invariant sentBytes <= |buf| && Inv(taskManager.State()) && task in taskManager.tasks
        invariant SendEach(taskManager.State(), task, Pipe.Packets(buf[sentBytes..]))
                    == SendEach(s0, task, Pipe.Packets(buf))
      {
        var rest := buf[sentBytes..];
        var length := Min(|rest|, PIPE_DATA);
        SendKeepsInv(taskManager.State(), task, Message.Pipe(rest[..length]));
        SendPacket(taskManager.State(), task, rest, length);
        assert rest[length..] == buf[sentBytes + length..];
        hide SendEach, Pipe.Packets, Inv;
        sentBytes := sentBytes + length;
        var _ := taskManager.SendMessage(task, Message.Pipe(rest[..length]));
      }
      return |buf|;
    }

    method FinishWrite()
      requires Inv(taskManager.State()) && task in taskManager.tasks
      modifies taskManager, taskManager.running
      ensures taskManager.State() == SendEach(old(taskManager.State()), task, [Message.Pipe([])])
    {
      SendKeepsInv(taskManager.State(), task, Message.Pipe([]));
      var _ := taskManager.SendMessage(task, Message.Pipe([]));
    }
  }
}
