// What a caller of timer_sleep, sema_down and sema_up can rely on in every run of the
// scheduler (Pintos/devices/timer.c and Pintos/threads/synch.c).
module SchedulerRuns {
  import opened Prelude
  import opened SchedulerSpec
  import opened Semaphore

  /** How many timer interrupts are among the operations. */
  function Interrupts(ops: seq<Op>): nat {
    if ops == [] then 0 else Interrupts(ops[..|ops| - 1]) + if ops[|ops| - 1].OpTimerInterrupt? then 1 else 0
  }

  /** How many times semaphore n is upped. */
  function Ups(ops: seq<Op>, n: nat): nat {
    if ops == [] then 0 else Ups(ops[..|ops| - 1], n) + if ops[|ops| - 1] == OpSemaUp(n) then 1 else 0
  }

  /** How many of the first k operations down semaphore n in a thread that then runs on. */
  ghost function Passes(states: seq<State>, ops: seq<Op>, n: nat, k: nat): nat
    requires k <= |ops| < |states|
  {
    if k == 0 then 0
    else Passes(states, ops, n, k - 1)
         + if ops[k - 1] == OpSemaDown(n) && states[k].current == states[k - 1].current then 1 else 0
  }

  // ----- One step -----

  lemma InterruptLeaves(s: State)
    ensures var s' := TimerInterrupt(s);
            s'.ticks == s.ticks + 1 && s'.pending == s.pending && s'.semas == s.semas
  {
    hide WakeDue;
    WakeDueLists(s.(ticks := s.ticks + 1, sleepers := []), s.sleepers);
  }

  lemma StepTicks(s: State, op: Op)
    requires Enabled(s, op)
    ensures Apply(s, op).ticks == s.ticks + if op.OpTimerInterrupt? then 1 else 0
  {
    hide Next, TimerInterrupt;
    InterruptLeaves(s);
  }

  lemma StepPending(s: State, op: Op, t: Tid)
    requires Enabled(s, op) && t in Apply(s, op).pending
    ensures if op.OpReadTicks? && s.current == t then Apply(s, op).pending[t] == s.ticks + op.ticks
            else t in s.pending && Apply(s, op).pending[t] == s.pending[t]
  {
    hide Next, TimerInterrupt;
    InterruptLeaves(s);
  }

  lemma StepJoins(s: State)
    requires Enabled(s, OpSleep)
    ensures Sleeper(s.current, s.pending[s.current]) in Apply(s, OpSleep).sleepers
  {
    InsertMembers(s.sleepers, Sleeper(s.current, s.pending[s.current]));
  }

  lemma StepSema(s: State, op: Op, n: nat)
    requires Inv(s) && Enabled(s, op) && n in s.semas
    ensures n in Apply(s, op).semas
    ensures op == OpSemaDown(n) ==> (Apply(s, op).current == s.current <==> s.semas[n].value > 0)
    ensures var now, was := Apply(s, op).semas[n], s.semas[n];
            if op == OpSemaUp(n) then
              now.value == was.value + 1 && now.waiters == if was.waiters == [] then [] else was.waiters[1..]
            else if op == OpSemaDown(n) then
              if was.value > 0 then now.value == was.value - 1 && now.waiters == was.waiters
              else now.value == was.value && now.waiters == was.waiters + [s.current]
            else now == was
  {
    hide Inv, WakeDue;
    if op.OpSemaDown? {
      NextIsOther(s);
    } else if op.OpSemaUp? {
      hide Enabled;
    } else {
      OtherStepSema(s, op);
      hide Apply, Enabled;
    }
  }

  lemma OtherStepSema(s: State, op: Op)
    requires Enabled(s, op) && !op.OpSemaDown? && !op.OpSemaUp?
    ensures Apply(s, op).semas == s.semas
  {
    hide Next, TimerInterrupt;
    InterruptLeaves(s);
  }

  lemma NextIsOther(s: State)
    requires Inv(s)
    ensures s.current != s.idle ==> Next(s) != s.current
  {
    if s.ready != [] { assert s.ready[0] in s.ready; }
  }

  // ----- Runs -----

  /** ticks counts the timer interrupts. */
  lemma {:induction false} TicksCount(states: seq<State>, ops: seq<Op>, i: nat, k: nat)
    requires Run(states, ops) && i <= k <= |ops|
    ensures states[k].ticks == states[i].ticks + Interrupts(ops[i..k])
  {
    hide Run, Enabled, Apply;
    if i < k {
      TicksCount(states, ops, i, k - 1);
      RunStep(states, ops, k - 1);
      StepTicks(states[k - 1], ops[k - 1]);
      assert ops[i..k][..k - 1 - i] == ops[i..k - 1];
    }
  }

  lemma {:induction false} InterruptsGrow(ops: seq<Op>, i: nat, k: nat, m: nat)
    requires i <= k <= m <= |ops|
    ensures Interrupts(ops[i..k]) <= Interrupts(ops[i..m])
  {
    if k < m {
      InterruptsGrow(ops, i, k, m - 1);
      assert ops[i..m][..m - 1 - i] == ops[i..m - 1];
    }
  }

  // ----- timer_sleep -----

  /** Thread t calls timer_sleep(n): it reads ticks before step i and goes to sleep in step j. */
  ghost predicate CallsSleep(states: seq<State>, ops: seq<Op>, t: Tid, n: int, i: nat, j: nat) {
    && i < j < |ops| < |states|
    && states[i].current == t && ops[i] == OpReadTicks(n) && states[j].current == t && ops[j] == OpSleep
    && forall k | i < k < j && states[k].current == t :: !ops[k].OpReadTicks?
  }

  /** Until it goes to sleep the thread keeps what it has computed. */
  lemma {:induction false} KeepsTick(states: seq<State>, ops: seq<Op>, t: Tid, n: int, i: nat, j: nat, k: nat)
    requires Run(states, ops) && CallsSleep(states, ops, t, n, i, j) && i < k <= j
    ensures t in states[k].pending ==> states[k].pending[t] == states[i].ticks + n
  {
    hide Run, Enabled, Apply;
    RunStep(states, ops, k - 1);
    if t in states[k].pending {
      StepPending(states[k - 1], ops[k - 1], t);
      if i + 1 < k { KeepsTick(states, ops, t, n, i, j, k - 1); }
    }
  }

  lemma JoinsSleepers(states: seq<State>, ops: seq<Op>, t: Tid, n: int, i: nat, j: nat)
    requires Run(states, ops) && CallsSleep(states, ops, t, n, i, j)
    ensures Sleeper(t, states[i].ticks + n) in states[j + 1].sleepers
  {
    KeepsTick(states, ops, t, n, i, j, j);
    RunStep(states, ops, j);
    hide Run, Apply;
    StepJoins(states[j]);
  }

  /** No interrupt in the steps from j + 1 to m - 1 is the n-th since step i, or a later one. */
  ghost predicate NotYet(ops: seq<Op>, n: int, i: nat, j: nat, m: nat)
    requires i <= j < m <= |ops|
  {
    forall k | j < k < m && ops[k].OpTimerInterrupt? :: Interrupts(ops[i..k + 1]) < n
  }

  lemma {:induction false} StaysAsleep(states: seq<State>, ops: seq<Op>, t: Tid, n: int, i: nat, j: nat, m: nat)
    requires Run(states, ops) && Inv(states[0]) && CallsSleep(states, ops, t, n, i, j)
    requires j < m <= |ops| && NotYet(ops, n, i, j, m)
    ensures Sleeper(t, states[i].ticks + n) in states[m].sleepers
  {
    hide Run, Inv, Enabled, Apply;
    if m == j + 1 {
      JoinsSleepers(states, ops, t, n, i, j);
    } else {
      hide CallsSleep;
      StaysAsleep(states, ops, t, n, i, j, m - 1) by { assert i < j; }
      RunStep(states, ops, m - 1);
      InvAt(states, ops, m - 1);
      TicksCount(states, ops, i, m);
      if Sleeper(t, states[i].ticks + n) !in states[m].sleepers {
        NoEarlyWakeUp(states[m - 1], ops[m - 1], Sleeper(t, states[i].ticks + n));
      }
    }
  }

  /** t does not run and is not about to. */
  predicate Waits(s: State, t: Tid) { t in s.status && s.status[t].Blocked? && t != s.current && t !in s.ready }

  /** After timer_sleep(n) a thread is blocked until the timer has interrupted n times since it read
      ticks; the first interrupt in its sleep that makes it so many makes the thread ready. */
  lemma SleepLasts(states: seq<State>, ops: seq<Op>, t: Tid, n: int, i: nat, j: nat, m: nat)
    requires Run(states, ops) && Inv(states[0]) && CallsSleep(states, ops, t, n, i, j)
    requires j < m <= |ops| && NotYet(ops, n, i, j, m)
    ensures Waits(states[m], t)
    ensures m < |ops| && ops[m].OpTimerInterrupt? && Interrupts(ops[i..m + 1]) >= n ==>
              t in states[m + 1].ready && t in states[m + 1].status && states[m + 1].status[t].Ready?
  {
    hide Run, Inv, Enabled, Apply, NotYet, Waits;
    var x := Sleeper(t, states[i].ticks + n);
    StaysAsleep(states, ops, t, n, i, j, m);
    hide CallsSleep;
    InvAt(states, ops, m);
    WaitsAsleep(states[m], x);
    if m < |ops| && ops[m].OpTimerInterrupt? && Interrupts(ops[i..m + 1]) >= n {
      RunStep(states, ops, m);
      TicksCount(states, ops, i, m + 1);
      InvAt(states, ops, m + 1);
      WakesUp(states[m], x);
    }
  }

  lemma WaitsAsleep(s: State, x: Sleeper)
    requires Inv(s) && x in s.sleepers
    ensures Waits(s, x.t)
  {
    WaitersAreBlocked(s, x.t);
  }

  lemma WakesUp(s: State, x: Sleeper)
    requires Inv(s) && x in s.sleepers && Enabled(s, OpTimerInterrupt)
    requires Inv(Apply(s, OpTimerInterrupt)) && x.wakeUpTick <= Apply(s, OpTimerInterrupt).ticks
    ensures var s' := Apply(s, OpTimerInterrupt);
            x.t in s'.ready && x.t in s'.status && s'.status[x.t].Ready?
  {
    hide TimerInterrupt;
    if x in TimerInterrupt(s).sleepers { NoneDueAfterInterrupt(s, x); }
    NoEarlyWakeUp(s, OpTimerInterrupt, x);
  }

  /** So it is blocked in every later state that fewer than n interrupts lead to. */
  lemma BlockedBefore(states: seq<State>, ops: seq<Op>, t: Tid, n: int, i: nat, j: nat, m: nat)
    requires Run(states, ops) && Inv(states[0]) && CallsSleep(states, ops, t, n, i, j)
    requires j < m <= |ops| && Interrupts(ops[i..m]) < n
    ensures Waits(states[m], t)
  {
    hide Run, Inv, Waits;
    forall k | j < k < m && ops[k].OpTimerInterrupt?
      ensures Interrupts(ops[i..k + 1]) < n
    {
      InterruptsGrow(ops, i, k + 1, m);
    }
    SleepLasts(states, ops, t, n, i, j, m);
  }

  // ----- Semaphores -----

  /** The value of a semaphore is what it was, and one more for each up and one less for each thread
      that has passed; so no more threads pass than that allows. */
  lemma {:induction false} SemaCounts(states: seq<State>, ops: seq<Op>, n: nat, k: nat)
    requires Run(states, ops) && Inv(states[0]) && n in states[0].semas && k <= |ops|
    ensures n in states[k].semas
    ensures states[k].semas[n].value == states[0].semas[n].value + Ups(ops[..k], n) - Passes(states, ops, n, k)
  {
    hide Run, Inv, Enabled, Apply;
    if k > 0 {
      SemaCounts(states, ops, n, k - 1);
      RunStep(states, ops, k - 1);
      InvAt(states, ops, k - 1);
      StepSema(states[k - 1], ops[k - 1], n);
      assert ops[..k][..k - 1] == ops[..k - 1];
    }
  }

  /** The waiter at position p is woken by the up number p + 1; until then it moves up with every up. */
  lemma {:induction false} WokenInTurn(states: seq<State>, ops: seq<Op>, n: nat, p: nat, k: nat)
    requires Run(states, ops) && Inv(states[0]) && n in states[0].semas && p < |states[0].semas[n].waiters|
    requires k <= |ops| && Ups(ops[..k], n) <= p
    ensures n in states[k].semas && p - Ups(ops[..k], n) < |states[k].semas[n].waiters|
    ensures states[k].semas[n].waiters[p - Ups(ops[..k], n)] == states[0].semas[n].waiters[p]
    ensures k < |ops| && ops[k] == OpSemaUp(n) && Ups(ops[..k], n) == p ==>
              states[k + 1].ready == states[k].ready + [states[0].semas[n].waiters[p]]
  {
    hide Run, Inv, Enabled, Apply;
    if k > 0 {
      assert ops[..k][..k - 1] == ops[..k - 1];
      WokenInTurn(states, ops, n, p, k - 1);
      RunStep(states, ops, k - 1);
      InvAt(states, ops, k - 1);
      StepSema(states[k - 1], ops[k - 1], n);
    }
    if k < |ops| && ops[k] == OpSemaUp(n) {
      RunStep(states, ops, k);
      UpWakesFirst(states[k], n);
    }
  }

  lemma UpWakesFirst(s: State, n: nat)
    requires n in s.semas
    ensures Enabled(s, OpSemaUp(n))
    ensures s.semas[n].waiters != [] ==> Apply(s, OpSemaUp(n)).ready == s.ready + [s.semas[n].waiters[0]]
  {
  }

  // ----- No thread is lost -----

  /** The thread is in the queue that it waits in; a new thread is with its creator. */
  ghost predicate InQueue(semas: map<nat, Sema>, sleepers: seq<Sleeper>, t: Tid, p: Place) {
    match p
    case AtSema(n) => n in semas && t in semas[n].waiters
    case Asleep => exists x :: x in sleepers && x.t == t
    case Newborn => true
  }

  /** Whoever is blocked waits somewhere, except the idle thread, which runs when nobody else does. */
  ghost predicate NoneLost(s: State) {
    forall t | t in s.status && s.status[t].Blocked? && t != s.idle ::
      t in s.place && InQueue(s.semas, s.sleepers, t, s.place[t])
  }

  lemma ScheduleLosesNone(s: State)
    requires NoneLost(s)
    ensures NoneLost(Schedule(s))
  {
    hide InQueue, Next;
  }

  lemma WaiterNotLost(s: State, n: nat)
    requires NoneLost(s) && n in s.semas
    ensures AtWaiters(s, n).current == s.current && NoneLost(AtWaiters(s, n).Mark(s.current, Blocked))
  {
    var w := AtWaiters(s, n);
    assert w.semas[n].waiters[|s.semas[n].waiters|] == s.current;
    forall t, p | InQueue(s.semas, s.sleepers, t, p)
      ensures InQueue(w.semas, w.sleepers, t, p)
    {
    }
  }

  lemma SleeperNotLost(s: State)
    requires NoneLost(s) && s.current in s.pending
    ensures AtSleepers(s).current == s.current && NoneLost(AtSleepers(s).Mark(s.current, Blocked))
  {
    var x, w := Sleeper(s.current, s.pending[s.current]), AtSleepers(s);
    InsertMembers(s.sleepers, x);
    hide InsertSleeper;
    assert x in w.sleepers;
    forall t, p | InQueue(s.semas, s.sleepers, t, p)
      ensures InQueue(w.semas, w.sleepers, t, p)
    {
    }
  }

  lemma UpLosesNone(s: State, n: nat)
    requires NoneLost(s) && n in s.semas
    ensures NoneLost(SemaUp(s, n))
  {
    var waiters := s.semas[n].waiters;
    if waiters != [] { assert waiters == [waiters[0]] + waiters[1..]; }
  }

  lemma {:induction false} WakeDueLosesNone(s: State, l: seq<Sleeper>)
    requires NoneLost(With(s, l))
    ensures NoneLost(WakeDue(s, l))
    decreases |l|
  {
    if l == [] {
      assert s.sleepers + l == s.sleepers;
    } else if s.ticks >= l[0].wakeUpTick {
      WakeOneLosesNone(s, l);
      hide NoneLost;
      WakeDueLosesNone(Unblock(s.(place := s.place - {l[0].t}), l[0].t), l[1..]);
    } else {
      hide NoneLost;
      assert (s.sleepers + [l[0]]) + l[1..] == s.sleepers + l;
      WakeDueLosesNone(s.(sleepers := s.sleepers + [l[0]]), l[1..]);
    }
  }

  lemma WakeOneLosesNone(s: State, l: seq<Sleeper>)
    requires l != [] && NoneLost(With(s, l))
    ensures NoneLost(With(Unblock(s.(place := s.place - {l[0].t}), l[0].t), l[1..]))
  {
    var all, rest := s.sleepers + l, s.sleepers + l[1..];
    assert l == [l[0]] + l[1..];
    assert forall x | x in all :: x == l[0] || x in rest;
  }

  lemma InterruptLosesNone(s: State)
    requires NoneLost(s)
    ensures NoneLost(TimerInterrupt(s))
  {
    hide WakeDue;
    assert [] + s.sleepers == s.sleepers;
    assert With(s.(ticks := s.ticks + 1, sleepers := []), s.sleepers) == s.(ticks := s.ticks + 1);
    WakeDueLosesNone(s.(ticks := s.ticks + 1, sleepers := []), s.sleepers);
  }

  lemma StepLosesNone(s: State, op: Op)
    requires NoneLost(s) && Enabled(s, op)
    ensures NoneLost(Apply(s, op))
  {
    hide Schedule, TimerInterrupt, SemaUp, AtWaiters, AtSleepers;
    match op
    case OpBlockIdle => ScheduleLosesNone(s.Mark(s.current, Blocked));
    case OpYield =>
      ScheduleLosesNone(s.(ready := if s.current != s.idle then s.ready + [s.current] else s.ready)
                         .Mark(s.current, Ready));
    case OpExit => ScheduleLosesNone(s.Mark(s.current, Dying));
    case OpCreate(t) =>
    case OpStart(t) =>
    case OpSemaDown(n) =>
      if s.semas[n].value == 0 {
        WaiterNotLost(s, n);
        ScheduleLosesNone(AtWaiters(s, n).Mark(AtWaiters(s, n).current, Blocked));
      }
    case OpSemaUp(n) => UpLosesNone(s, n);
    case OpReadTicks(ticks) =>
    case OpSleep =>
      SleeperNotLost(s);
      ScheduleLosesNone(AtSleepers(s).Mark(AtSleepers(s).current, Blocked));
    case OpTimerInterrupt => InterruptLosesNone(s);
  }

  /** In every run each thread runs, is ready and in the ready list, or is blocked and in the queue
      that it waits in; only the idle thread may be in none, and the initial one once it has exited. */
  lemma {:induction false} NoThreadIsLost(states: seq<State>, ops: seq<Op>, k: nat)
    requires Run(states, ops) && Booted(states[0]) && k <= |ops|
    ensures NoneLost(states[k])
    ensures forall t | t in states[k].status && t != states[k].idle && states[k].status[t].Ready? ::
              t in states[k].ready
  {
    hide StepAt, Enabled, Apply, NoneLost, Inv, Booted;
    RunInv(states, ops);
    ReadyAreQueued(states[k]);
    if k == 0 {
      BootedLosesNone(states[0]);
    } else {
      NoThreadIsLost(states, ops, k - 1);
      RunStep(states, ops, k - 1);
      StepLosesNone(states[k - 1], ops[k - 1]);
    }
  }

  lemma ReadyAreQueued(s: State)
    requires Inv(s)
    ensures forall t | t in s.status && t != s.idle && s.status[t].Ready? :: t in s.ready
  {
  }

  lemma BootedLosesNone(s: State)
    requires Booted(s)
    ensures NoneLost(s)
  {
  }
}
