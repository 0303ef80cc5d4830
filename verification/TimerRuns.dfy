/** Whole runs of timers: any timers added between ticks, and a tick, over and over. */
module TimerRuns {
  import opened Timers

  /** What happens up to and in one tick: timers added before it, timers it sends, timers pending after it. */
  datatype Round = Round(added: seq<Timer>, sent: seq<Timer>, pending: seq<Timer>)

  /** The timers that are pending after n rounds. */
  function After(pending: seq<Timer>, rounds: seq<Round>, n: nat): seq<Timer>
    requires n <= |rounds|
  {
    if n == 0 then pending else rounds[n - 1].pending
  }

  /** The round with number n: a tick with the timers pending before it and those added meanwhile. */
  ghost predicate RoundAt(tick: nat, pending: seq<Timer>, rounds: seq<Round>, n: nat)
    requires n < |rounds|
  {
    Ticked(After(pending, rounds, n) + rounds[n].added, tick + n + 1, rounds[n].sent, rounds[n].pending)
  }

  ghost predicate Rounds(tick: nat, pending: seq<Timer>, rounds: seq<Round>) {
    forall n | 0 <= n < |rounds| :: RoundAt(tick, pending, rounds, n)
  }

  /** Pending timers are not due. */
  ghost predicate AllLater(ts: seq<Timer>, tick: nat) {
    forall t | t in ts :: t.timeout > tick
  }

  // ---------------------------------------------------------------- each timer is sent once

  function OneShotTimers(ts: seq<Timer>): seq<Timer> {
    if ts == [] then []
    else if IsTaskTimer(ts[0]) then OneShotTimers(ts[1..])
    else [ts[0]] + OneShotTimers(ts[1..])
  }

  lemma {:induction false} OneShotsSplit(ts: seq<Timer>, tick: nat)
    ensures multiset(OneShotTimers(ts)) == multiset(OneShots(ts, tick)) + multiset(OneShotTimers(Later(ts, tick)))
    decreases |ts|
  {
    if ts != [] {
      OneShotsSplit(ts[1..], tick);
      var rest := Later(ts[1..], tick);
      assert ([ts[0]] + rest)[1..] == rest;
    }
  }

  lemma {:induction false} OneShotTimersAppend(ts: seq<Timer>, us: seq<Timer>)
    ensures OneShotTimers(ts + us) == OneShotTimers(ts) + OneShotTimers(us)
    decreases |ts|
  {
    if ts == [] {
      assert ts + us == us;
    } else {
      OneShotTimersAppend(ts[1..], us);
      assert (ts + us)[1..] == ts[1..] + us && (ts + us)[0] == ts[0];
      var rest, more := OneShotTimers(ts[1..]), OneShotTimers(us);
      assert [ts[0]] + rest + more == [ts[0]] + (rest + more);
    }
  }

  /** How often a timer stands among the one-shot timers depends on the multiset only. */
  lemma {:induction false} OneShotCount(ts: seq<Timer>, t: Timer)
    ensures multiset(OneShotTimers(ts))[t] == if IsTaskTimer(t) then 0 else multiset(ts)[t]
    decreases |ts|
  {
    if ts != [] {
      OneShotCount(ts[1..], t);
      assert ts == [ts[0]] + ts[1..];
    }
  }

  lemma OneShotsOfEqual(ts: seq<Timer>, us: seq<Timer>)
    requires multiset(ts) == multiset(us)
    ensures multiset(OneShotTimers(ts)) == multiset(OneShotTimers(us))
  {
    forall t: Timer
      ensures multiset(OneShotTimers(ts))[t] == multiset(OneShotTimers(us))[t]
    {
      OneShotCount(ts, t);
      OneShotCount(us, t);
    }
  }

  lemma {:induction false} RenewedHasNoOneShot(n: nat, tick: nat)
    ensures OneShotTimers(Renewed(n, tick)) == []
  {
    if n > 0 {
      RenewedHasNoOneShot(n - 1, tick);
      assert Renewed(n, tick)[1..] == Renewed(n - 1, tick);
    }
  }

  /** A tick sends a one-shot timer or keeps it, never both and never neither. */
  lemma TickConserves(before: seq<Timer>, tick: nat, sent: seq<Timer>, after: seq<Timer>)
    requires Ticked(before, tick, sent, after)
    ensures multiset(OneShotTimers(before)) == multiset(sent) + multiset(OneShotTimers(after))
  {
    var later, renewed := Later(before, tick), Renewed(DueTaskTimers(before, tick), tick);
    OneShotsSplit(before, tick);
    OneShotsOfEqual(after, later + renewed);
    OneShotTimersAppend(later, renewed);
    RenewedHasNoOneShot(DueTaskTimers(before, tick), tick);
    assert OneShotTimers(later) + [] == OneShotTimers(later);
  }

  /** The one-shot timers added in the first n rounds, and the timers sent in them. */
  ghost function AllAdded(rounds: seq<Round>, n: nat): multiset<Timer>
    requires n <= |rounds|
  {
    if n == 0 then multiset{} else AllAdded(rounds, n - 1) + multiset(OneShotTimers(rounds[n - 1].added))
  }

  ghost function AllSent(rounds: seq<Round>, n: nat): multiset<Timer>
    requires n <= |rounds|
  {
    if n == 0 then multiset{} else AllSent(rounds, n - 1) + multiset(rounds[n - 1].sent)
  }

  /** Over any run every one-shot timer sent one message, or is still pending. */
  lemma {:induction false} EachIsSentOnce(tick: nat, pending: seq<Timer>, rounds: seq<Round>, n: nat)
    requires Rounds(tick, pending, rounds) && n <= |rounds|
    ensures multiset(OneShotTimers(pending)) + AllAdded(rounds, n)
         == AllSent(rounds, n) + multiset(OneShotTimers(After(pending, rounds, n)))
  {
    hide Ticked, OneShotTimers;
    if n > 0 {
      EachIsSentOnce(tick, pending, rounds, n - 1);
      assert RoundAt(tick, pending, rounds, n - 1);
      var r, before := rounds[n - 1], After(pending, rounds, n - 1);
      TickConserves(before + r.added, tick + n, r.sent, r.pending);
      OneShotTimersAppend(before, r.added);
      var a, b := OneShotTimers(before), OneShotTimers(r.added);
      assert multiset(a + b) == multiset(a) + multiset(b);
      Balance(multiset(OneShotTimers(pending)), AllAdded(rounds, n - 1), AllSent(rounds, n - 1), multiset(a),
              multiset(b),
              multiset(r.sent), multiset(OneShotTimers(r.pending)));
    }
  }

  lemma Balance(start: multiset<Timer>, added: multiset<Timer>, sent: multiset<Timer>, before: multiset<Timer>,
                more: multiset<Timer>, out: multiset<Timer>, after: multiset<Timer>)
    requires start + added == sent + before && before + more == out + after
    ensures start + (added + more) == sent + out + after
  {
    forall t: Timer
      ensures (start + (added + more))[t] == (sent + out + after)[t]
    {
      assert (start + added)[t] == (sent + before)[t] && (before + more)[t] == (out + after)[t];
    }
  }

  // ---------------------------------------------------------------- and in time

  /** The one-shot timers of exactly this tick. */
  function DueNow(ts: seq<Timer>, tick: nat): seq<Timer> {
    if ts == [] then []
    else if ts[0].timeout == tick && !IsTaskTimer(ts[0]) then [ts[0]] + DueNow(ts[1..], tick)
    else DueNow(ts[1..], tick)
  }

  lemma {:induction false} OneShotsAppend(ts: seq<Timer>, us: seq<Timer>, tick: nat)
    ensures OneShots(ts + us, tick) == OneShots(ts, tick) + OneShots(us, tick)
    decreases |ts|
  {
    if ts == [] {
      assert ts + us == us;
    } else {
      OneShotsAppend(ts[1..], us, tick);
      assert (ts + us)[1..] == ts[1..] + us;
    }
  }

  lemma {:induction false} PendingIsDueNow(ts: seq<Timer>, tick: nat)
    requires AllLater(ts, tick)
    ensures OneShots(ts, tick + 1) == DueNow(ts, tick + 1)
    decreases |ts|
  {
    if ts != [] {
      assert ts[0] in ts;
      PendingIsDueNow(ts[1..], tick);
    }
  }

  /**
   * A tick on time: it sends the timers that were pending for exactly this tick and those that were
   * added since the last one and are due already, in the order of their timeouts, and no other.
   */
  ghost predicate OnTime(before: seq<Timer>, tick: nat, r: Round)
    requires tick > 0
  {
    && AllLater(before, tick - 1)
    && AllLater(r.pending, tick)
    && multiset(r.sent) == multiset(DueNow(before, tick)) + multiset(OneShots(r.added, tick))
    && Ordered(r.sent)
  }

  /** In any run every one-shot timer is sent at the first tick that reaches its timeout. */
  lemma SentAtFirstTick(tick: nat, pending: seq<Timer>, rounds: seq<Round>, n: nat)
    requires Rounds(tick, pending, rounds) && AllLater(pending, tick) && n < |rounds|
    ensures OnTime(After(pending, rounds, n), tick + n + 1, rounds[n])
  {
    hide Ticked, OnTime;
    assert RoundAt(tick, pending, rounds, n);
    var before := After(pending, rounds, n);
    if n > 0 {
      assert RoundAt(tick, pending, rounds, n - 1);
      TickedLeavesLater(After(pending, rounds, n - 1) + rounds[n - 1].added, tick + n, rounds[n - 1].sent, before);
    }
    TickOnTime(tick + n, before, rounds[n]);
  }

  lemma TickOnTime(tick: nat, pending: seq<Timer>, r: Round)
    requires Ticked(pending + r.added, tick + 1, r.sent, r.pending) && AllLater(pending, tick)
    ensures OnTime(pending, tick + 1, r)
  {
    TickedLeavesLater(pending + r.added, tick + 1, r.sent, r.pending);
    SentInTick(tick, pending, r);
    hide OneShots, DueNow, Later;
  }

  lemma SentInTick(tick: nat, pending: seq<Timer>, r: Round)
    requires Ticked(pending + r.added, tick + 1, r.sent, r.pending) && AllLater(pending, tick)
    ensures multiset(r.sent) == multiset(DueNow(pending, tick + 1)) + multiset(OneShots(r.added, tick + 1))
  {
    OneShotsAppend(pending, r.added, tick + 1);
    PendingIsDueNow(pending, tick);
    var a, b := OneShots(pending, tick + 1), OneShots(r.added, tick + 1);
    assert multiset(a + b) == multiset(a) + multiset(b);
  }

  // ---------------------------------------------------------------- the task timer

  function TaskTimers(ts: seq<Timer>): seq<Timer> {
    if ts == [] then []
    else if IsTaskTimer(ts[0]) then [ts[0]] + TaskTimers(ts[1..])
    else TaskTimers(ts[1..])
  }

  lemma {:induction false} TaskTimerCount(ts: seq<Timer>, t: Timer)
    ensures multiset(TaskTimers(ts))[t] == if IsTaskTimer(t) then multiset(ts)[t] else 0
    decreases |ts|
  {
    if ts != [] {
      TaskTimerCount(ts[1..], t);
      assert ts == [ts[0]] + ts[1..];
    }
  }

  /** The only task timer among ts is due at the given tick. */
  ghost predicate Armed(ts: seq<Timer>, timeout: nat) {
    multiset(TaskTimers(ts)) == multiset{Timer(timeout, TASK_TIMER_VALUE)}
  }

  lemma {:induction false} ArmedParts(ts: seq<Timer>, timeout: nat, tick: nat)
    requires Armed(ts, timeout)
    ensures DueTaskTimers(ts, tick) == if timeout <= tick then 1 else 0
    ensures multiset(TaskTimers(Later(ts, tick)))
         == if timeout <= tick then multiset{} else multiset{Timer(timeout, TASK_TIMER_VALUE)}
  {
    TaskTimersSplit(ts, tick);
    var own := Timer(timeout, TASK_TIMER_VALUE);
    assert |TaskTimers(ts)| == |multiset(TaskTimers(ts))| == 1;
    assert TaskTimers(ts)[0] in multiset(TaskTimers(ts));
    assert TaskTimers(ts) == [own];
    LaterOfOne(own, tick);
  }

  lemma LaterOfOne(t: Timer, tick: nat)
    requires IsTaskTimer(t)
    ensures Later([t], tick) == if t.timeout > tick then [t] else []
    ensures DueTaskTimers([t], tick) == if t.timeout > tick then 0 else 1
  {
    assert [t][1..] == [];
  }

  /** Only task timers matter to what happens to task timers. */
  lemma {:induction false} TaskTimersSplit(ts: seq<Timer>, tick: nat)
    ensures TaskTimers(Later(ts, tick)) == Later(TaskTimers(ts), tick)
    ensures DueTaskTimers(ts, tick) == DueTaskTimers(TaskTimers(ts), tick)
    decreases |ts|
  {
    if ts != [] {
      TaskTimersSplit(ts[1..], tick);
      var rest, own := Later(ts[1..], tick), TaskTimers(ts[1..]);
      assert ([ts[0]] + rest)[1..] == rest;
      assert ([ts[0]] + own)[1..] == own;
    }
  }

  lemma {:induction false} TaskTimersAppend(ts: seq<Timer>, us: seq<Timer>)
    ensures TaskTimers(ts + us) == TaskTimers(ts) + TaskTimers(us)
    decreases |ts|
  {
    if ts == [] {
      assert ts + us == us;
    } else {
      TaskTimersAppend(ts[1..], us);
      assert (ts + us)[1..] == ts[1..] + us;
    }
  }

  lemma TaskTimersOfEqual(ts: seq<Timer>, us: seq<Timer>)
    requires multiset(ts) == multiset(us)
    ensures multiset(TaskTimers(ts)) == multiset(TaskTimers(us))
  {
    forall t: Timer
      ensures multiset(TaskTimers(ts))[t] == multiset(TaskTimers(us))[t]
    {
      TaskTimerCount(ts, t);
      TaskTimerCount(us, t);
    }
  }

  /** A tick keeps the only task timer: renewed by its period if it was due, as it is otherwise. */
  lemma TickKeepsTaskTimer(before: seq<Timer>, timeout: nat, tick: nat, sent: seq<Timer>, after: seq<Timer>)
    requires Armed(before, timeout) && Ticked(before, tick, sent, after)
    ensures Armed(after, NextTimeout(timeout, tick))
    ensures DueTaskTimers(before, tick) == if timeout <= tick then 1 else 0
  {
    ArmedParts(before, timeout, tick);
    var later, renewed := Later(before, tick), Renewed(DueTaskTimers(before, tick), tick);
    TaskTimersOfEqual(after, later + renewed);
    TaskTimersAppend(later, renewed);
    if timeout <= tick {
      var next := Timer(tick + TASK_TIMER_PERIOD, TASK_TIMER_VALUE);
      assert renewed == [next] && [next][1..] == [];
      assert TaskTimers(renewed) == [next];
    } else {
      assert renewed == [];
    }
  }

  /** No task timer is ever added but the one that was armed at boot. */
  ghost predicate NoneAdded(rounds: seq<Round>) {
    forall n | 0 <= n < |rounds| :: TaskTimers(rounds[n].added) == []
  }

  /** The armed task timer comes due within its period. */
  ghost predicate ArmedFor(tick: nat, pending: seq<Timer>, next: nat) {
    tick < next <= tick + TASK_TIMER_PERIOD && Armed(pending, next)
  }

  /** When the task timer that was armed for a tick comes due, seen n ticks later. */
  function NextFiring(tick: nat, next: nat, n: nat): nat
    requires tick < next
  {
    tick + n + if (n + next - tick) % 2 == 0 then 2 else 1
  }

  /**
   * Once armed, the single task timer stays the only one and fires exactly at every second tick, from the one it was
   * armed for on.
   */
  lemma {:induction false} FiresEverySecondTick(tick: nat, pending: seq<Timer>, next: nat, rounds: seq<Round>, n: nat)
    requires Rounds(tick, pending, rounds) && NoneAdded(rounds) && n <= |rounds|
    requires ArmedFor(tick, pending, next)
    ensures ArmedFor(tick + n, After(pending, rounds, n), NextFiring(tick, next, n))
    ensures n < |rounds| ==>
              DueTaskTimers(After(pending, rounds, n) + rounds[n].added, tick + n + 1) == (n + next - tick) % 2
    decreases n
  {
    hide Armed, DueTaskTimers, Ticked;
    if n > 0 {
      FiresEverySecondTick(tick, pending, next, rounds, n - 1);
      assert RoundAt(tick, pending, rounds, n - 1) && TaskTimers(rounds[n - 1].added) == [];
      TaskTimerInTick(tick + n, After(pending, rounds, n - 1), rounds[n - 1], NextFiring(tick, next, n - 1));
    }
    if n < |rounds| {
      assert RoundAt(tick, pending, rounds, n) && TaskTimers(rounds[n].added) == [];
      TaskTimerInTick(tick + n + 1, After(pending, rounds, n), rounds[n], NextFiring(tick, next, n));
    }
  }

  lemma ArmedWithMore(ts: seq<Timer>, us: seq<Timer>, timeout: nat)
    requires Armed(ts, timeout) && TaskTimers(us) == []
    ensures Armed(ts + us, timeout)
  {
    TaskTimersAppend(ts, us);
    assert TaskTimers(ts) + [] == TaskTimers(ts);
  }

  /** When the only task timer comes due after a tick. */
  function NextTimeout(timeout: nat, tick: nat): nat {
    if timeout <= tick then tick + TASK_TIMER_PERIOD else timeout
  }

  lemma TaskTimerInTick(tick: nat, before: seq<Timer>, r: Round, timeout: nat)
    requires Ticked(before + r.added, tick, r.sent, r.pending)
    requires Armed(before, timeout) && TaskTimers(r.added) == []
    ensures Armed(r.pending, NextTimeout(timeout, tick))
    ensures DueTaskTimers(before + r.added, tick) == if timeout <= tick then 1 else 0
  {
    hide Ticked, TaskTimers, DueTaskTimers, Armed;
    ArmedWithMore(before, r.added, timeout);
    TickKeepsTaskTimer(before + r.added, timeout, tick, r.sent, r.pending);
  }
}
