// The scheduler of Pintos/threads/thread.c, the semaphores of Pintos/threads/synch.c and
// the sleep list of Pintos/devices/timer.c, as steps on one state.  A section that runs
// with interrupts off, up to and including a context switch, is one step.
// Scheduler.dfy proves that the code takes these steps.
module SchedulerSpec {
  import opened Prelude
  import opened Semaphore

  datatype Status = Running | Ready | Blocked | Dying

  datatype Sleeper = Sleeper(t: Tid, wakeUpTick: int)

  /** What a blocked thread waits for; no step depends on it. */
  datatype Place = AtSema(n: nat) | Asleep | Newborn

  /** `pending` holds what timer_sleep has computed before it turns interrupts off, and `ran`
      the threads that schedule has chosen, in order. */
  datatype State = State(
    status: map<Tid, Status>, ready: seq<Tid>, current: Tid, idle: Tid, initial: Tid,
    semas: map<nat, Sema>, sleepers: seq<Sleeper>, ticks: int, pending: map<Tid, int>,
    place: map<Tid, Place>, ran: seq<Tid>)
  {
    function Mark(t: Tid, st: Status): State { this.(status := status[t := st]) }

    function Put(t: Tid, p: Place): State { this.(place := place[t := p]) }
  }

  // ----- The steps -----

  /** next_thread_to_run */
  function Next(s: State): Tid { if s.ready == [] then s.idle else s.ready[0] }

  /** schedule, with thread_schedule_tail of the next thread. */
  function Schedule(s: State): State {
    var next := Next(s);
    var switched := s.(ready := if s.ready == [] then [] else s.ready[1..], current := next, ran := s.ran + [next]);
    var tail := switched.Mark(next, Running);
    if s.current != next && s.current in s.status && s.status[s.current].Dying? && s.current != s.initial
    then tail.(status := tail.status - {s.current})
    else tail
  }

  function Block(s: State): State { Schedule(s.Mark(s.current, Blocked)) }

  function Unblock(s: State, t: Tid): State { s.(ready := s.ready + [t]).Mark(t, Ready) }

  function Yield(s: State): State {
    Schedule(s.(ready := if s.current != s.idle then s.ready + [s.current] else s.ready).Mark(s.current, Ready))
  }

  function Exit(s: State): State { Schedule(s.Mark(s.current, Dying)) }

  /** thread_create up to thread_unblock. */
  function Create(s: State, t: Tid): State { s.Mark(t, Blocked).Put(t, Newborn) }

  function Start(s: State, t: Tid): State { Unblock(s.(place := s.place - {t}), t) }

  /** The current thread has joined the waiters of semaphore n. */
  function AtWaiters(s: State, n: nat): State
    requires n in s.semas
  {
    s.(semas := s.semas[n := Wait(s.semas[n], s.current)]).Put(s.current, AtSema(n))
  }

  /** One round of sema_down's loop, or its end. */
  function SemaDown(s: State, n: nat): State
    requires n in s.semas
  {
    var sema := s.semas[n];
    if sema.value == 0 then Block(AtWaiters(s, n)) else s.(semas := s.semas[n := Semaphore.Down(sema)])
  }

  function SemaUp(s: State, n: nat): State
    requires n in s.semas
  {
    var sema := s.semas[n];
    if sema.waiters == [] then s.(semas := s.semas[n := Semaphore.Up(sema)])
    else
      var t := sema.waiters[0];
      Unblock(s.(semas := s.semas[n := Semaphore.Up(sema)], place := s.place - {t}), t)
  }

  /** timer_sleep up to where it turns interrupts off. */
  function ReadTicks(s: State, ticks: int): State { s.(pending := s.pending[s.current := s.ticks + ticks]) }

  /** Where list_insert_ordered puts an element: before the first that it is less than. */
  function SleepPoint(l: seq<Sleeper>, wakeUpTick: int): (k: nat)
    ensures k <= |l|
    ensures forall i | 0 <= i < k :: l[i].wakeUpTick <= wakeUpTick
    ensures k < |l| ==> wakeUpTick < l[k].wakeUpTick
  {
    if l == [] || wakeUpTick < l[0].wakeUpTick then 0 else 1 + SleepPoint(l[1..], wakeUpTick)
  }

  function InsertSleeper(l: seq<Sleeper>, x: Sleeper): seq<Sleeper> {
    var k := SleepPoint(l, x.wakeUpTick);
    l[..k] + [x] + l[k..]
  }

  /** The current thread has joined the sleep list. */
  function AtSleepers(s: State): State
    requires s.current in s.pending
  {
    s.(sleepers := InsertSleeper(s.sleepers, Sleeper(s.current, s.pending[s.current])),
       pending := s.pending - {s.current}).Put(s.current, Asleep)
  }

  /** The rest of timer_sleep. */
  function Sleep(s: State): State
    requires s.current in s.pending
  {
    Block(AtSleepers(s))
  }

  /** The loop of timer_interrupt over l: the sleepers that stay, and the state after the others are unblocked. */
  function WakeDue(s: State, l: seq<Sleeper>): State
    decreases |l|
  {
    if l == [] then s
    else if s.ticks >= l[0].wakeUpTick then
      WakeDue(Unblock(s.(place := s.place - {l[0].t}), l[0].t), l[1..])
    else
      WakeDue(s.(sleepers := s.sleepers + [l[0]]), l[1..])
  }

  function TimerInterrupt(s: State): State {
    WakeDue(s.(ticks := s.ticks + 1, sleepers := []), s.sleepers)
  }

  /** What can happen next: the running thread calls an operation, or the timer interrupts it.
      The idle thread only blocks and is preempted. */
  datatype Op =
    | OpBlockIdle | OpYield | OpExit | OpCreate(t: Tid) | OpStart(t: Tid)
    | OpSemaDown(n: nat) | OpSemaUp(n: nat) | OpReadTicks(ticks: int) | OpSleep | OpTimerInterrupt

  predicate Enabled(s: State, op: Op) {
    match op
    case OpBlockIdle => s.current == s.idle
    case OpYield => true
    case OpExit => s.current != s.idle
    case OpCreate(t) => t !in s.status && t !in s.place
    case OpStart(t) => t in s.place && s.place[t].Newborn?
    case OpSemaDown(n) => n in s.semas && s.current != s.idle
    case OpSemaUp(n) => n in s.semas
    case OpReadTicks(ticks) => ticks > 0
    case OpSleep => s.current in s.pending && s.current != s.idle
    case OpTimerInterrupt => true
  }

  function Apply(s: State, op: Op): State
    requires Enabled(s, op)
  {
    match op
    case OpBlockIdle => Block(s)
    case OpYield => Yield(s)
    case OpExit => Exit(s)
    case OpCreate(t) => Create(s, t)
    case OpStart(t) => Start(s, t)
    case OpSemaDown(n) => SemaDown(s, n)
    case OpSemaUp(n) => SemaUp(s, n)
    case OpReadTicks(ticks) => ReadTicks(s, ticks)
    case OpSleep => Sleep(s)
    case OpTimerInterrupt => TimerInterrupt(s)
  }

  // ----- The invariant -----

  /** Exactly the current thread is running. */
  ghost predicate OneRunning(s: State) {
    s.current in s.status && forall t | t in s.status :: s.status[t].Running? <==> t == s.current
  }

  /** The ready list holds every ready thread but the idle one, once. */
  ghost predicate ReadyInv(s: State) {
    && s.idle in s.status && !s.status[s.idle].Dying? && s.idle !in s.ready && Distinct(s.ready)
    && (forall t | t in s.ready :: t in s.status && s.status[t].Ready?)
    && (forall t | t in s.status && s.status[t].Ready? && t != s.idle :: t in s.ready)
  }

  predicate IsAt(place: map<Tid, Place>, t: Tid, p: Place) { t in place && place[t] == p }

  ghost predicate SemaPlaces(semas: map<nat, Sema>, place: map<Tid, Place>) {
    && (forall n, t | n in semas && t in semas[n].waiters :: IsAt(place, t, AtSema(n)))
    && (forall n | n in semas :: Distinct(semas[n].waiters))
  }

  ghost predicate SleepPlaces(l: seq<Sleeper>, place: map<Tid, Place>) {
    && (forall x | x in l :: IsAt(place, x.t, Asleep))
    && (forall i, j | 0 <= i < j < |l| :: l[i].t != l[j].t)
  }

  /** Semaphore waiters, sleepers and new threads are blocked, each in one place and there once. */
  ghost predicate PlaceInv(s: State) {
    && (forall t | t in s.place :: t in s.status && s.status[t].Blocked? && t != s.idle)
    && SemaPlaces(s.semas, s.place) && SleepPlaces(s.sleepers, s.place)
  }

  ghost predicate Ordered(l: seq<Sleeper>) {
    forall i, j | 0 <= i < j < |l| :: l[i].wakeUpTick <= l[j].wakeUpTick
  }

  ghost predicate Inv(s: State) {
    OneRunning(s) && ReadyInv(s) && PlaceInv(s) && Ordered(s.sleepers)
  }

  /** The state in which schedule is called. */
  ghost predicate Switching(s: State) {
    && (forall t | t in s.status :: !s.status[t].Running?) && s.current in s.status
    && ReadyInv(s) && PlaceInv(s) && Ordered(s.sleepers)
  }

  lemma ScheduleInv(s: State)
    requires Switching(s)
    ensures Inv(Schedule(s))
  {
    hide Ordered;
    if s.ready != [] { assert s.ready[0] in s.ready; }
    ScheduleReady(s);
    SchedulePlaces(s);
  }

  lemma ScheduleReady(s: State)
    requires Switching(s)
    ensures ReadyInv(Schedule(s))
  {
    hide PlaceInv, Ordered, Distinct;
    var s' := Schedule(s);
    if s.ready != [] {
      FrontAndRest(s.ready);
    } else {
      assert s'.ready == [];
    }
  }

  lemma FrontAndRest(l: seq<Tid>)
    requires l != [] && Distinct(l)
    ensures Distinct(l[1..]) && l[0] in l && l[0] !in l[1..]
    ensures forall t :: t in l <==> t == l[0] || t in l[1..]
  {
    forall t | t in l
      ensures t == l[0] || t in l[1..]
    {
      var i :| 0 <= i < |l| && l[i] == t;
      if i > 0 { assert l[1..][i - 1] == t; }
    }
  }

  lemma SchedulePlaces(s: State)
    requires Switching(s)
    ensures PlaceInv(Schedule(s))
  {
    hide Ordered;
    if s.ready != [] { assert s.ready[0] in s.ready; }
  }

  // ----- Every step keeps the invariant -----

  lemma UnblockInv(s: State, t: Tid)
    requires Inv(s) && t in s.status && s.status[t].Blocked? && t != s.idle && t !in s.place
    ensures Inv(Unblock(s, t))
  {
    hide Ordered;
    assert forall x :: x in s.ready + [t] <==> x in s.ready || x == t;
  }

  lemma BlockInv(s: State)
    requires Inv(s)
    ensures Switching(s.Mark(s.current, Blocked))
    ensures Inv(Block(s))
  {
    assert s.current !in s.ready && s.current !in s.place;
    assert Switching(s.Mark(s.current, Blocked));
    ScheduleInv(s.Mark(s.current, Blocked));
  }

  lemma ExitInv(s: State)
    requires Inv(s) && s.current != s.idle
    ensures Inv(Exit(s))
  {
    assert s.current !in s.ready && s.current !in s.place;
    assert Switching(s.Mark(s.current, Dying));
    ScheduleInv(s.Mark(s.current, Dying));
  }

  lemma YieldInv(s: State)
    requires Inv(s)
    ensures Inv(Yield(s))
  {
    var ready := if s.current != s.idle then s.ready + [s.current] else s.ready;
    assert forall x :: x in ready <==> x in s.ready || (x == s.current && s.current != s.idle);
    var y := s.(ready := ready).Mark(s.current, Ready);
    hide Ordered;
    assert PlaceInv(y);
    assert Switching(y) by { hide PlaceInv; }
    ScheduleInv(y);
  }

  /** Taking a new place, or giving up one that is in no queue, does not disturb the queues. */
  lemma PlacesPut(semas: map<nat, Sema>, l: seq<Sleeper>, place: map<Tid, Place>, t: Tid, p: Place)
    requires SemaPlaces(semas, place) && SleepPlaces(l, place) && t !in place
    ensures SemaPlaces(semas, place[t := p]) && SleepPlaces(l, place[t := p])
  {
  }

  lemma PlacesTake(semas: map<nat, Sema>, l: seq<Sleeper>, place: map<Tid, Place>, t: Tid)
    requires SemaPlaces(semas, place) && SleepPlaces(l, place)
    requires forall n | n in semas :: t !in semas[n].waiters
    requires forall x | x in l :: x.t != t
    ensures SemaPlaces(semas, place - {t}) && SleepPlaces(l, place - {t})
  {
  }

  lemma JoinSema(semas: map<nat, Sema>, place: map<Tid, Place>, t: Tid, n: nat)
    requires SemaPlaces(semas, place) && n in semas && t !in place
    ensures SemaPlaces(semas[n := semas[n].(waiters := semas[n].waiters + [t])], place[t := AtSema(n)])
  {
    var l := semas[n].waiters + [t];
    var semas', place' := semas[n := semas[n].(waiters := l)], place[t := AtSema(n)];
    forall m, u | m in semas' && u in semas'[m].waiters
      ensures IsAt(place', u, AtSema(m))
    {
      if u in semas[m].waiters { assert IsAt(place, u, AtSema(m)); }
    }
    assert t in semas[n].waiters ==> IsAt(place, t, AtSema(n));
  }

  lemma JoinSleepers(l: seq<Sleeper>, place: map<Tid, Place>, x: Sleeper)
    requires SleepPlaces(l, place) && x.t !in place
    ensures SleepPlaces(InsertSleeper(l, x), place[x.t := Asleep])
  {
    assert forall y | y in l :: IsAt(place, y.t, Asleep) && y.t != x.t;
    assert forall i | 0 <= i < |l| :: l[i] in l;
    InsertMembers(l, x);
    InsertDistinct(l, x);
    hide InsertSleeper;
  }

  lemma InsertOrdered(l: seq<Sleeper>, x: Sleeper)
    requires Ordered(l)
    ensures Ordered(InsertSleeper(l, x))
  {
  }

  lemma InsertMembers(l: seq<Sleeper>, x: Sleeper)
    ensures forall y :: y in InsertSleeper(l, x) <==> y == x || y in l
  {
    var k := SleepPoint(l, x.wakeUpTick);
    assert l == l[..k] + l[k..];
    hide SleepPoint;
  }

  lemma InsertDistinct(l: seq<Sleeper>, x: Sleeper)
    requires forall i | 0 <= i < |l| :: l[i].t != x.t
    requires forall i, j | 0 <= i < j < |l| :: l[i].t != l[j].t
    ensures forall i, j | 0 <= i < j < |InsertSleeper(l, x)| :: InsertSleeper(l, x)[i].t != InsertSleeper(l, x)[j].t
  {
    var k, m := SleepPoint(l, x.wakeUpTick), InsertSleeper(l, x);
    forall i, j | 0 <= i < j < |m|
      ensures m[i].t != m[j].t
    {
      assert m[i] == if i < k then l[i] else if i == k then x else l[i - 1];
      assert m[j] == if j < k then l[j] else if j == k then x else l[j - 1];
    }
  }

  /** The current thread has joined a queue and blocks. */
  lemma WaitInv(s: State, s': State, p: Place)
    requires Inv(s) && s.current != s.idle
    requires s' == s.(semas := s'.semas, sleepers := s'.sleepers, pending := s'.pending).Put(s.current, p)
    requires SemaPlaces(s'.semas, s'.place) && SleepPlaces(s'.sleepers, s'.place) && Ordered(s'.sleepers)
    ensures Switching(s'.Mark(s.current, Blocked))
    ensures Inv(Block(s'))
  {
    hide SemaPlaces, SleepPlaces, Ordered;
    assert s.current !in s.ready && s.current !in s.place;
    var b := s'.Mark(s.current, Blocked);
    assert PlaceInv(b) by { hide ReadyInv; }
    assert Switching(b);
    ScheduleInv(b);
  }

  lemma JoinWaitersInv(s: State, n: nat)
    requires Inv(s) && n in s.semas && s.current != s.idle
    ensures Switching(AtWaiters(s, n).Mark(s.current, Blocked)) && Inv(Block(AtWaiters(s, n)))
  {
    assert s.current !in s.place;
    JoinSema(s.semas, s.place, s.current, n);
    PlacesPut(s.semas, s.sleepers, s.place, s.current, AtSema(n));
    InvOrdered(s);
    hide Inv, PlaceInv, SemaPlaces, SleepPlaces, Ordered;
    WaitInv(s, AtWaiters(s, n), AtSema(n));
  }

  lemma SemaDownInv(s: State, n: nat)
    requires Inv(s) && n in s.semas && s.current != s.idle
    ensures Inv(SemaDown(s, n))
  {
    if s.semas[n].value == 0 { JoinWaitersInv(s, n); }
  }

  lemma InvOrdered(s: State)
    requires Inv(s)
    ensures Ordered(s.sleepers)
  {
  }

  lemma SleepInv(s: State)
    requires Inv(s) && s.current in s.pending && s.current != s.idle
    ensures Switching(AtSleepers(s).Mark(s.current, Blocked)) && Inv(Sleep(s))
  {
    assert s.current !in s.place;
    var x := Sleeper(s.current, s.pending[s.current]);
    JoinSleepers(s.sleepers, s.place, x);
    PlacesPut(s.semas, s.sleepers, s.place, s.current, Asleep);
    InvOrdered(s);
    InsertOrdered(s.sleepers, x);
    hide Inv, PlaceInv, SemaPlaces, SleepPlaces, Ordered, InsertSleeper;
    WaitInv(s, AtSleepers(s), Asleep);
  }

  /** A thread that is in no queue any more is unblocked. */
  lemma LeaveInv(s: State, s': State, t: Tid)
    requires Inv(s) && t in s.place
    requires s' == s.(semas := s'.semas, sleepers := s'.sleepers, place := s.place - {t})
    requires SemaPlaces(s'.semas, s'.place) && SleepPlaces(s'.sleepers, s'.place) && Ordered(s'.sleepers)
    ensures Inv(Unblock(s', t))
  {
    hide SemaPlaces, SleepPlaces, Ordered;
    UnblockInv(s', t);
  }

  lemma SemaUpInv(s: State, n: nat)
    requires Inv(s) && n in s.semas
    ensures Inv(SemaUp(s, n))
  {
    var sema := s.semas[n];
    InvOrdered(s);
    if sema.waiters == [] {
    } else {
      var t := sema.waiters[0];
      FrontAndRest(sema.waiters);
      assert IsAt(s.place, t, AtSema(n));
      LeaveSema(s.semas, s.sleepers, s.place, n);
      hide Inv, SemaPlaces, SleepPlaces, Ordered;
      LeaveInv(s, s.(semas := s.semas[n := Sema(sema.value + 1, sema.waiters[1..])], place := s.place - {t}), t);
    }
  }

  lemma LeaveSema(semas: map<nat, Sema>, l: seq<Sleeper>, place: map<Tid, Place>, n: nat)
    requires SemaPlaces(semas, place) && SleepPlaces(l, place) && n in semas && semas[n].waiters != []
    ensures var t := semas[n].waiters[0];
            var semas' := semas[n := Sema(semas[n].value + 1, semas[n].waiters[1..])];
            SemaPlaces(semas', place - {t}) && SleepPlaces(l, place - {t})
  {
    var t := semas[n].waiters[0];
    FrontAndRest(semas[n].waiters);
    assert IsAt(place, t, AtSema(n));
    var semas' := semas[n := Sema(semas[n].value + 1, semas[n].waiters[1..])];
    assert SemaPlaces(semas', place);
    PlacesTake(semas', l, place, t);
  }

  lemma StartInv(s: State, t: Tid)
    requires Inv(s) && t in s.place && s.place[t].Newborn?
    ensures Inv(Start(s, t))
  {
    InvOrdered(s);
    PlacesTake(s.semas, s.sleepers, s.place, t);
    LeaveInv(s, s.(place := s.place - {t}), t);
  }

  lemma CreateInv(s: State, t: Tid)
    requires Inv(s) && t !in s.status && t !in s.place
    ensures Inv(Create(s, t))
  {
    PlacesPut(s.semas, s.sleepers, s.place, t, Newborn);
    hide SemaPlaces, SleepPlaces, Ordered;
  }

  // ----- The timer -----

  /** The sleepers that are not due. */
  function Stay(l: seq<Sleeper>, ticks: int): seq<Sleeper> {
    if l == [] then [] else (if ticks >= l[0].wakeUpTick then [] else [l[0]]) + Stay(l[1..], ticks)
  }

  /** The threads that are due, in the order of the list. */
  function Due(l: seq<Sleeper>, ticks: int): seq<Tid> {
    if l == [] then [] else (if ticks >= l[0].wakeUpTick then [l[0].t] else []) + Due(l[1..], ticks)
  }

  lemma {:induction false} StayMembers(l: seq<Sleeper>, ticks: int, x: Sleeper)
    ensures x in Stay(l, ticks) <==> x in l && x.wakeUpTick > ticks
    ensures x in l && x.wakeUpTick <= ticks ==> x.t in Due(l, ticks)
  {
    if l != [] { StayMembers(l[1..], ticks, x); }
  }

  lemma {:induction false} WakeDueLists(s: State, l: seq<Sleeper>)
    ensures WakeDue(s, l).sleepers == s.sleepers + Stay(l, s.ticks)
    ensures WakeDue(s, l).ready == s.ready + Due(l, s.ticks)
    ensures WakeDue(s, l).ran == s.ran && WakeDue(s, l).ticks == s.ticks && WakeDue(s, l).current == s.current
    ensures WakeDue(s, l).pending == s.pending && WakeDue(s, l).semas == s.semas
    decreases |l|
  {
    if l != [] {
      var x, rest := l[0], l[1..];
      var woken, kept := Unblock(s.(place := s.place - {x.t}), x.t), s.(sleepers := s.sleepers + [x]);
      assert WakeDue(s, l) == if s.ticks >= x.wakeUpTick then WakeDue(woken, rest) else WakeDue(kept, rest);
      assert Stay(l, s.ticks) == (if s.ticks >= x.wakeUpTick then [] else [x]) + Stay(rest, s.ticks);
      assert Due(l, s.ticks) == (if s.ticks >= x.wakeUpTick then [x.t] else []) + Due(rest, s.ticks);
      hide WakeDue, Stay, Due;
      if s.ticks >= x.wakeUpTick {
        WakeDueLists(woken, rest);
        Associate(s.ready, [x.t], Due(rest, s.ticks));
      } else {
        WakeDueLists(kept, rest);
        Associate(s.sleepers, [x], Stay(rest, s.ticks));
      }
    }
  }

  /** The state as if the sleepers not yet looked at were still in the list. */
  function With(s: State, l: seq<Sleeper>): State { s.(sleepers := s.sleepers + l) }

  lemma {:induction false} WakeDueInv(s: State, l: seq<Sleeper>)
    requires Inv(With(s, l))
    ensures Inv(WakeDue(s, l))
    decreases |l|
  {
    if l == [] {
      assert s.sleepers + l == s.sleepers;
    } else if s.ticks >= l[0].wakeUpTick {
      WakeOne(s, l);
      WakeDueInv(Unblock(s.(place := s.place - {l[0].t}), l[0].t), l[1..]);
    } else {
      assert (s.sleepers + [l[0]]) + l[1..] == s.sleepers + l;
      WakeDueInv(s.(sleepers := s.sleepers + [l[0]]), l[1..]);
    }
  }

  lemma WakeOne(s: State, l: seq<Sleeper>)
    requires l != [] && Inv(With(s, l))
    ensures Inv(With(Unblock(s.(place := s.place - {l[0].t}), l[0].t), l[1..]))
  {
    var all, rest, t := s.sleepers + l, s.sleepers + l[1..], l[0].t;
    var w := With(s, l);
    InvOrdered(w);
    assert all[|s.sleepers|] == l[0] && IsAt(s.place, t, Asleep);
    RestSleeps(s.sleepers, l, s.place);
    PlacesTake(s.semas, rest, s.place, t) by {
      assert forall n | n in s.semas && t in s.semas[n].waiters :: IsAt(s.place, t, AtSema(n));
    }
    var w' := w.(sleepers := rest, place := s.place - {t});
    hide Inv, SemaPlaces, SleepPlaces, Ordered;
    LeaveInv(w, w', t);
    assert Unblock(w', t) == With(Unblock(s.(place := s.place - {t}), t), l[1..]);
  }

  lemma RestSleeps(a: seq<Sleeper>, l: seq<Sleeper>, place: map<Tid, Place>)
    requires l != [] && SleepPlaces(a + l, place) && Ordered(a + l)
    ensures SleepPlaces(a + l[1..], place) && Ordered(a + l[1..])
    ensures forall x | x in a + l[1..] :: x.t != l[0].t
  {
    var all, rest := a + l, a + l[1..];
    forall i | 0 <= i < |rest|
      ensures rest[i] == all[if i < |a| then i else i + 1]
    {
    }
    assert all[|a|] == l[0];
  }

  lemma TicksInv(s: State)
    requires Inv(s)
    ensures Inv(s.(ticks := s.ticks + 1))
  {
    hide SemaPlaces, SleepPlaces, Ordered;
  }

  lemma TimerInterruptInv(s: State)
    requires Inv(s)
    ensures Inv(TimerInterrupt(s))
  {
    hide Inv, WakeDue;
    var s' := s.(ticks := s.ticks + 1, sleepers := []);
    assert [] + s.sleepers == s.sleepers;
    assert With(s', s.sleepers) == s.(ticks := s.ticks + 1);
    TicksInv(s);
    WakeDueInv(s', s.sleepers);
  }

  // ----- The results -----

  lemma ApplyInv(s: State, op: Op)
    requires Inv(s) && Enabled(s, op)
    ensures Inv(Apply(s, op))
  {
    hide Inv, Block, Yield, Exit, Create, Start, SemaDown, SemaUp, Sleep, TimerInterrupt;
    match op
    case OpBlockIdle => BlockInv(s);
    case OpYield => YieldInv(s);
    case OpExit => ExitInv(s);
    case OpCreate(t) => CreateInv(s, t);
    case OpStart(t) => StartInv(s, t);
    case OpSemaDown(n) => SemaDownInv(s, n);
    case OpSemaUp(n) => SemaUpInv(s, n);
    case OpReadTicks(ticks) => ReadTicksInv(s, ticks);
    case OpSleep => SleepInv(s);
    case OpTimerInterrupt => TimerInterruptInv(s);
  }

  lemma ReadTicksInv(s: State, ticks: int)
    requires Inv(s)
    ensures Inv(ReadTicks(s, ticks))
  {
    hide SemaPlaces, SleepPlaces, Ordered;
  }

  /** After thread_start: the initial thread runs and the idle thread has blocked. */
  ghost predicate Booted(s: State) {
    && s.initial != s.idle && s.current == s.initial && s.status == map[s.initial := Running, s.idle := Blocked]
    && s.ready == [] && s.sleepers == [] && s.place == map[] && forall n | n in s.semas :: s.semas[n].waiters == []
  }

  predicate StepAt(states: seq<State>, ops: seq<Op>, i: nat)
    requires i < |ops| < |states|
  {
    Enabled(states[i], ops[i]) && states[i + 1] == Apply(states[i], ops[i])
  }

  ghost predicate Run(states: seq<State>, ops: seq<Op>) {
    && |states| == |ops| + 1
    && forall i {:trigger StepAt(states, ops, i)} | 0 <= i < |ops| :: StepAt(states, ops, i)
  }

  lemma RunPrefix(states: seq<State>, ops: seq<Op>, n: nat)
    requires Run(states, ops) && n + 1 == |ops|
    ensures Run(states[..n + 1], ops[..n]) && states[..n + 1][n] == states[n] && states[..n + 1][0] == states[0]
    ensures Enabled(states[n], ops[n]) && states[n + 1] == Apply(states[n], ops[n])
  {
    hide Enabled, Apply;
    assert StepAt(states, ops, n);
    var before, first := states[..n + 1], ops[..n];
    forall i {:trigger StepAt(before, first, i)} | 0 <= i < n
      ensures StepAt(before, first, i)
    {
      assert StepAt(states, ops, i);
    }
  }

  lemma RunStep(states: seq<State>, ops: seq<Op>, k: nat)
    requires Run(states, ops) && k < |ops|
    ensures |states| == |ops| + 1 && Enabled(states[k], ops[k]) && states[k + 1] == Apply(states[k], ops[k])
  {
    assert StepAt(states, ops, k);
  }

  lemma {:induction false} InvAt(states: seq<State>, ops: seq<Op>, k: nat)
    requires Run(states, ops) && Inv(states[0]) && k <= |ops|
    ensures Inv(states[k])
  {
    hide Run, Inv, Enabled, Apply;
    if k > 0 {
      InvAt(states, ops, k - 1);
      RunStep(states, ops, k - 1);
      ApplyInv(states[k - 1], ops[k - 1]);
    }
  }

  lemma RunInv(states: seq<State>, ops: seq<Op>)
    requires Run(states, ops) && Booted(states[0])
    ensures forall k | 0 <= k <= |ops| :: Inv(states[k])
  {
    BootedInv(states[0]);
    hide Inv, Run, Booted;
    forall k | 0 <= k <= |ops|
      ensures Inv(states[k])
    {
      InvAt(states, ops, k);
    }
  }

  lemma BootedInv(s: State)
    requires Booted(s)
    ensures Inv(s)
  {
  }

  /** A step appends to what has run followed by what is ready. */
  lemma StepAppends(s: State, op: Op)
    requires Enabled(s, op)
    ensures s.ran + s.ready <= Apply(s, op).ran + Apply(s, op).ready
    ensures |s.ran| <= |Apply(s, op).ran|
  {
    if op.OpTimerInterrupt? {
      WakeDueLists(s.(ticks := s.ticks + 1, sleepers := []), s.sleepers);
    } else if op.OpYield? {
      var ready := if s.current != s.idle then s.ready + [s.current] else s.ready;
      assert s.ran + s.ready <= s.ran + ready;
      ScheduleAppends(s.(ready := ready).Mark(s.current, Ready));
    } else {
      hide Schedule;
      if op.OpBlockIdle? { ScheduleAppends(s.Mark(s.current, Blocked)); }
      if op.OpExit? { ScheduleAppends(s.Mark(s.current, Dying)); }
      if op.OpSemaDown? && s.semas[op.n].value == 0 { ScheduleAppends(AtWaiters(s, op.n).Mark(s.current, Blocked)); }
      if op.OpSleep? { ScheduleAppends(AtSleepers(s).Mark(s.current, Blocked)); }
    }
  }

  lemma ScheduleAppends(s: State)
    ensures s.ran + s.ready <= Schedule(s).ran + Schedule(s).ready
    ensures |Schedule(s).ran| == |s.ran| + 1
  {
    if s.ready != [] { assert s.ready == [s.ready[0]] + s.ready[1..]; }
  }

  /** The thread at position k of the ready list is the one that the (k+1)-th schedule from
      now on chooses; until then it moves up by one with every schedule. */
  lemma {:induction false} RunsInTurn(states: seq<State>, ops: seq<Op>, k: nat)
    requires Run(states, ops) && k < |states[0].ready|
    ensures |states[|ops|].ran| >= |states[0].ran|
    ensures var n := |states[|ops|].ran| - |states[0].ran|;
            if n > k then states[|ops|].ran[|states[0].ran| + k] == states[0].ready[k]
            else k - n < |states[|ops|].ready| && states[|ops|].ready[k - n] == states[0].ready[k]
  {
    RunAppends(states, ops);
    var a, b := states[0], states[|ops|];
    assert (a.ran + a.ready)[|a.ran| + k] == (b.ran + b.ready)[|a.ran| + k];
  }

  lemma {:induction false} RunAppends(states: seq<State>, ops: seq<Op>)
    requires Run(states, ops)
    ensures states[0].ran + states[0].ready <= states[|ops|].ran + states[|ops|].ready
    ensures |states[0].ran| <= |states[|ops|].ran|
  {
    if ops != [] {
      hide Apply, Enabled, Run;
      var n := |ops| - 1;
      RunPrefix(states, ops, n);
      RunAppends(states[..n + 1], ops[..n]);
      StepAppends(states[n], ops[n]);
    }
  }

  /** The loop of timer_interrupt leaves no sleeper that is due. */
  lemma NoneDueAfterInterrupt(s: State, x: Sleeper)
    requires x in TimerInterrupt(s).sleepers
    ensures x.wakeUpTick > TimerInterrupt(s).ticks
  {
    WakeDueLists(s.(ticks := s.ticks + 1, sleepers := []), s.sleepers);
    StayMembers(s.sleepers, s.ticks + 1, x);
  }

  /** Only the timer interrupt ends a sleep, not before its tick, and it makes the thread ready. */
  lemma NoEarlyWakeUp(s: State, op: Op, x: Sleeper)
    requires Inv(s) && Enabled(s, op) && x in s.sleepers && x !in Apply(s, op).sleepers
    ensures op == OpTimerInterrupt && x.wakeUpTick <= Apply(s, op).ticks && x.t in Apply(s, op).ready
  {
    if op.OpTimerInterrupt? {
      WakeDueLists(s.(ticks := s.ticks + 1, sleepers := []), s.sleepers);
      StayMembers(s.sleepers, s.ticks + 1, x);
    } else if op.OpSleep? {
      InsertMembers(s.sleepers, Sleeper(s.current, s.pending[s.current]));
    }
  }

  /** A sleeper and a semaphore waiter do not run, and are not about to. */
  lemma WaitersAreBlocked(s: State, t: Tid)
    requires Inv(s)
    requires (exists n :: n in s.semas && t in s.semas[n].waiters) || (exists x :: x in s.sleepers && x.t == t)
    ensures t in s.status && s.status[t].Blocked? && t != s.current && t !in s.ready
  {
    if n :| n in s.semas && t in s.semas[n].waiters {
      assert IsAt(s.place, t, AtSema(n));
    } else {
      var x :| x in s.sleepers && x.t == t;
      assert IsAt(s.place, x.t, Asleep);
    }
  }

  /** timer_sleep computes the wake-up tick before it turns interrupts off: when the timer interrupts
      it in between, the sleeper joins the list although it is due already. */
  lemma MayBeDueAsItJoins(s: State) returns (states: seq<State>, ops: seq<Op>, x: Sleeper)
    requires Booted(s)
    ensures Run(states, ops) && states[0] == s && ops != [] && ops[|ops| - 1] == OpSleep
    ensures x in states[|ops|].sleepers && x.wakeUpTick <= states[|ops|].ticks
  {
    ops := [OpReadTicks(1), OpTimerInterrupt, OpSleep];
    var a := Apply(s, ops[0]);
    var b := Apply(a, ops[1]);
    var c := Apply(b, ops[2]);
    states := [s, a, b, c];
    x := Sleeper(s.initial, s.ticks + 1);
    assert c.sleepers == [x];
    assert StepAt(states, ops, 0) && StepAt(states, ops, 1) && StepAt(states, ops, 2);
  }
}
