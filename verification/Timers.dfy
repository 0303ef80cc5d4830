/** The timers of kernel/timer.cpp: a priority queue, one tick, and runs of ticks. */
module Timers {

  const TASK_TIMER_PERIOD: nat := 2
  const TASK_TIMER_VALUE: int := -0x8000_0000
  const NEVER: nat := 0xffff_ffff_ffff_ffff

  datatype Timer = Timer(timeout: nat, value: int)

  /** The periodic timer that drives task switches, and the one-shot timers that send a message. */
  predicate IsTaskTimer(t: Timer) {
    t.value == TASK_TIMER_VALUE
  }

  // ---------------------------------------------------------------- queues of timers, up to order

  /** The one-shot timers that are due. */
  function OneShots(ts: seq<Timer>, tick: nat): seq<Timer> {
    if ts == [] then []
    else if ts[0].timeout <= tick && !IsTaskTimer(ts[0]) then [ts[0]] + OneShots(ts[1..], tick)
    else OneShots(ts[1..], tick)
  }

  /** The timers that are not due yet. */
  function Later(ts: seq<Timer>, tick: nat): seq<Timer> {
    if ts == [] then []
    else if ts[0].timeout > tick then [ts[0]] + Later(ts[1..], tick)
    else Later(ts[1..], tick)
  }

  /** How many task timers are due. */
  function DueTaskTimers(ts: seq<Timer>, tick: nat): nat {
    if ts == [] then 0
    else (if ts[0].timeout <= tick && IsTaskTimer(ts[0]) then 1 else 0) + DueTaskTimers(ts[1..], tick)
  }

  function Due(ts: seq<Timer>, tick: nat): nat {
    |OneShots(ts, tick)| + DueTaskTimers(ts, tick)
  }

  function Removed(ts: seq<Timer>, i: nat): seq<Timer>
    requires i < |ts|
  {
    ts[..i] + ts[i + 1..]
  }

  lemma RemovedRest(ts: seq<Timer>, i: nat)
    requires i < |ts|
    ensures i == 0 ==> Removed(ts, i) == ts[1..]
    ensures i > 0 ==>
              && Removed(ts, i) != []
              && Removed(ts, i)[0] == ts[0]
              && Removed(ts, i)[1..] == Removed(ts[1..], i - 1)
  {
  }

  /** Taking a timer out takes it out of the part it is in. */
  lemma {:induction false} RemovedLater(ts: seq<Timer>, i: nat, tick: nat)
    requires i < |ts|
    ensures multiset(Later(ts, tick))
         == multiset(Later(Removed(ts, i), tick)) + if ts[i].timeout > tick then multiset{ts[i]} else multiset{}
    decreases |ts|
  {
    hide Removed;
    RemovedRest(ts, i);
    if i > 0 {
      RemovedLater(ts[1..], i - 1, tick);
    }
  }

  lemma {:induction false} RemovedOneShots(ts: seq<Timer>, i: nat, tick: nat)
    requires i < |ts|
    ensures multiset(OneShots(ts, tick))
         == multiset(OneShots(Removed(ts, i), tick))
            + if ts[i].timeout <= tick && !IsTaskTimer(ts[i]) then multiset{ts[i]} else multiset{}
    decreases |ts|
  {
    hide Removed;
    RemovedRest(ts, i);
    if i > 0 {
      RemovedOneShots(ts[1..], i - 1, tick);
    }
  }

  lemma {:induction false} RemovedDue(ts: seq<Timer>, i: nat, tick: nat)
    requires i < |ts|
    ensures DueTaskTimers(ts, tick)
         == DueTaskTimers(Removed(ts, i), tick) + if ts[i].timeout <= tick && IsTaskTimer(ts[i]) then 1 else 0
    ensures |OneShots(ts, tick)|
         == |OneShots(Removed(ts, i), tick)| + if ts[i].timeout <= tick && !IsTaskTimer(ts[i]) then 1 else 0
    decreases |ts|
  {
    RemovedRest(ts, i);
    hide Removed;
    if i > 0 {
      RemovedDue(ts[1..], i - 1, tick);
    }
  }

  lemma RemovedParts(ts: seq<Timer>, i: nat, tick: nat)
    requires i < |ts|
    ensures var t, r := ts[i], Removed(ts, i);
            && (t.timeout <= tick && IsTaskTimer(t) ==>
                  && multiset(OneShots(r, tick)) == multiset(OneShots(ts, tick))
                  && DueTaskTimers(ts, tick) == DueTaskTimers(r, tick) + 1
                  && |OneShots(ts, tick)| == |OneShots(r, tick)|)
            && (t.timeout <= tick && !IsTaskTimer(t) ==>
                  && multiset(OneShots(ts, tick)) == multiset(OneShots(r, tick)) + multiset{t}
                  && DueTaskTimers(r, tick) == DueTaskTimers(ts, tick)
                  && |OneShots(ts, tick)| == |OneShots(r, tick)| + 1)
            && (t.timeout <= tick ==> multiset(Later(r, tick)) == multiset(Later(ts, tick)))
  {
    RemovedLater(ts, i, tick);
    RemovedOneShots(ts, i, tick);
    RemovedDue(ts, i, tick);
    hide Later, OneShots, DueTaskTimers, Removed;
  }

  lemma {:induction false} AddedParts(ts: seq<Timer>, t: Timer, tick: nat)
    requires t.timeout > tick
    ensures OneShots(ts + [t], tick) == OneShots(ts, tick)
    ensures DueTaskTimers(ts + [t], tick) == DueTaskTimers(ts, tick)
    ensures Later(ts + [t], tick) == Later(ts, tick) + [t]
    decreases |ts|
  {
    if ts == [] {
      assert [] + [t] == [t];
    } else {
      AddedParts(ts[1..], t, tick);
      assert (ts + [t])[1..] == ts[1..] + [t];
    }
  }

  /** Nothing is due exactly if every timer is later. */
  lemma {:induction false} NothingDueIff(ts: seq<Timer>, tick: nat)
    ensures Due(ts, tick) == 0 <==> forall t | t in ts :: t.timeout > tick
    ensures Due(ts, tick) == 0 ==> Later(ts, tick) == ts
    decreases |ts|
  {
    if ts != [] {
      NothingDueIff(ts[1..], tick);
      assert ts == [ts[0]] + ts[1..];
    }
  }

  lemma {:induction false} PartsAreExact(ts: seq<Timer>, tick: nat)
    ensures forall t :: t in OneShots(ts, tick) <==> t in ts && t.timeout <= tick && !IsTaskTimer(t)
    ensures forall t :: t in Later(ts, tick) <==> t in ts && t.timeout > tick
    ensures DueTaskTimers(ts, tick) > 0 <==> exists t :: t in ts && t.timeout <= tick && IsTaskTimer(t)
    decreases |ts|
  {
    if ts != [] {
      PartsAreExact(ts[1..], tick);
      assert forall t :: t in ts <==> t == ts[0] || t in ts[1..];
    }
  }

  // ---------------------------------------------------------------- one tick

  /** Messages go out in the order of their timeouts. */
  ghost predicate Ordered(sent: seq<Timer>) {
    forall i, j | 0 <= i < j < |sent| :: sent[i].timeout <= sent[j].timeout
  }

  /** The renewed task timers after a tick. */
  function Renewed(n: nat, tick: nat): seq<Timer> {
    seq(n, _ => Timer(tick + TASK_TIMER_PERIOD, TASK_TIMER_VALUE))
  }

  /**
   * A tick to the given number: the due one-shot timers are sent, in order of their timeouts, the due
   * task timers are renewed, and all others stay.
   */
  ghost predicate Ticked(before: seq<Timer>, tick: nat, sent: seq<Timer>, after: seq<Timer>) {
    && multiset(sent) == multiset(OneShots(before, tick))
    && Ordered(sent)
    && multiset(after) == multiset(Later(before, tick)) + multiset(Renewed(DueTaskTimers(before, tick), tick))
  }

  lemma TickedLeavesLater(before: seq<Timer>, tick: nat, sent: seq<Timer>, after: seq<Timer>)
    requires Ticked(before, tick, sent, after)
    ensures forall t | t in after :: t.timeout > tick
    ensures forall t :: t in sent <==> t in before && t.timeout <= tick && t.value != -0x8000_0000
  {
    PartsAreExact(before, tick);
    assert forall t :: t in sent <==> t in multiset(sent);
    assert forall t :: t in OneShots(before, tick) <==> t in multiset(OneShots(before, tick));
    forall t | t in after
      ensures t.timeout > tick
    {
      assert t in multiset(after);
      assert t in Later(before, tick) || t in Renewed(DueTaskTimers(before, tick), tick);
    }
    forall t | t in sent
      ensures t in OneShots(before, tick)
    {
      assert t in multiset(sent);
    }
  }
}
