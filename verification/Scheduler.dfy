// The operations of Pintos/threads/thread.c, Pintos/threads/synch.c and
// Pintos/devices/timer.c on the kernel's variables.  Each method runs with interrupts
// off; one that ends in schedule returns in the thread that was switched to.
module Scheduler {
  import opened Prelude
  import opened SchedulerSpec
  import opened Semaphore

  class Kernel {
    var status: map<Tid, Status>
    var readyList: seq<Tid>
    var runningThread: Tid
    const idleThread: Tid
    const initialThread: Tid
    var semas: map<nat, Sema>
    var sleepList: seq<Sleeper>
    var ticks: int
    var wakeUpTick: map<Tid, int>

    ghost var place: map<Tid, Place>
    ghost var ran: seq<Tid>

    ghost function View(): State
      reads this
    {
      State(status, readyList, runningThread, idleThread, initialThread,
            semas, sleepList, ticks, wakeUpTick, place, ran)
    }

    constructor (idle: Tid, initial: Tid, semas: map<nat, Sema>)
      requires idle != initial && forall n | n in semas :: semas[n].waiters == []
      ensures Booted(View()) && this.semas == semas && ticks == 0 && Inv(View())
    {
      idleThread, initialThread, runningThread := idle, initial, initial;
      status := map[initial := Running, idle := Blocked];
      readyList, sleepList, ticks, wakeUpTick := [], [], 0, map[];
      this.semas := semas;
      place, ran := map[], [];
    }

    method NextThreadToRun() returns (t: Tid)
      modifies `readyList
      ensures t == Next(old(View()))
      ensures readyList == if old(readyList) == [] then [] else old(readyList)[1..]
    {
      if readyList == [] {
        return idleThread;
      }
      t := readyList[0];
      readyList := readyList[1..];
    }

    method ScheduleTail(prev: Option<Tid>)
      modifies `status
      ensures status ==
              var running := old(status)[runningThread := Running];
              if prev.Some? && prev.value in running && running[prev.value].Dying? && prev.value != initialThread
              then running - {prev.value} else running
    {
      status := status[runningThread := Running];
      if prev.Some? && prev.value in status && status[prev.value].Dying? && prev.value != initialThread {
        status := status - {prev.value};
      }
    }

    method Schedule()
      requires runningThread in status && !status[runningThread].Running?
      modifies this
      ensures View() == SchedulerSpec.Schedule(old(View()))
    {
      var cur := runningThread;
      var next := NextThreadToRun();
      var prev := None;
      if cur != next {
        prev := Some(cur);
        runningThread := next; // switch_threads
      }
      ran := ran + [next];
      ScheduleTail(prev);
    }

    /** What thread_current asserts. */
    predicate CurrentRuns()
      reads this
    {
      runningThread in status && status[runningThread].Running?
    }

    /** thread_block, once the thread is in the queue that it waits in. */
    method ThreadBlock()
      requires CurrentRuns() && Switching(View().Mark(runningThread, Blocked))
      modifies this
      ensures Inv(View()) && View() == Block(old(View()))
      ensures runningThread == if old(readyList) == [] then idleThread else old(readyList)[0]
      ensures runningThread != old(runningThread) ==>
                old(runningThread) in status && status[old(runningThread)].Blocked?
    {
      hide Ordered, SemaPlaces, SleepPlaces;
      ScheduleInv(View().Mark(runningThread, Blocked));
      hide Inv, Switching;
      status := status[runningThread := Blocked];
      Schedule();
    }

    /** One round of the idle thread. */
    method IdleBlock()
      requires Inv(View()) && Enabled(View(), OpBlockIdle)
      modifies this
      ensures Inv(View()) && View() == Apply(old(View()), OpBlockIdle)
    {
      BlockInv(View());
      ThreadBlock();
    }

    /** thread_unblock of a thread that is in no queue any more. */
    method ThreadUnblock(t: Tid)
      requires t in status && status[t].Blocked?
      requires Inv(View()) && t != idleThread && t !in place
      modifies `readyList, `status
      ensures Inv(View()) && View() == Unblock(old(View()), t)
    {
      UnblockInv(View(), t);
      readyList := readyList + [t];
      status := status[t := Ready];
    }

    method ThreadYield()
      requires Inv(View())
      modifies this
      ensures Inv(View()) && View() == Apply(old(View()), OpYield)
      ensures old(runningThread) != idleThread ==> [runningThread] + readyList == old(readyList) + [old(runningThread)]
      ensures old(runningThread) == idleThread && old(readyList) != [] ==> [runningThread] + readyList == old(readyList)
    {
      YieldInv(View());
      hide Inv;
      var cur := runningThread;
      if cur != idleThread {
        readyList := readyList + [cur];
      }
      status := status[cur := Ready];
      Schedule();
    }

    /** thread_exit after process_exit. */
    method ThreadExit()
      requires Inv(View()) && Enabled(View(), OpExit)
      modifies this
      ensures Inv(View()) && View() == Apply(old(View()), OpExit)
      ensures runningThread != old(runningThread)
      ensures old(runningThread) in status <==> old(runningThread) == initialThread
    {
      ExitInv(View());
      ReadyIsNotRunning(View());
      hide Inv;
      status := status[runningThread := Dying];
      Schedule();
    }

    /** thread_create: init_thread. */
    method InitThread(t: Tid)
      requires Inv(View()) && Enabled(View(), OpCreate(t))
      modifies this
      ensures Inv(View()) && View() == Apply(old(View()), OpCreate(t))
    {
      CreateInv(View(), t);
      status := status[t := Blocked];
      place := place[t := Newborn];
    }

    /** thread_create: the call of thread_unblock. */
    method StartThread(t: Tid)
      requires Inv(View()) && Enabled(View(), OpStart(t))
      modifies this
      ensures Inv(View()) && View() == Apply(old(View()), OpStart(t))
    {
      PlaceLeft(View(), View().(place := place - {t}), t) by {
        InvOrdered(View());
        PlacesTake(semas, sleepList, place, t);
      }
      hide Inv;
      place := place - {t};
      ThreadUnblock(t);
    }

    /** One round of sema_down: the thread waits, or passes. */
    method Down(n: nat)
      requires Inv(View()) && Enabled(View(), OpSemaDown(n))
      modifies this
      ensures Inv(View()) && View() == Apply(old(View()), OpSemaDown(n))
      ensures old(semas[n]).value > 0 <==> runningThread == old(runningThread)
    {
      SemaDownInv(View(), n);
      ReadyIsNotRunning(View());
      if semas[n].value == 0 {
        JoinWaitersInv(View(), n);
        hide Inv, Switching;
        semas := semas[n := semas[n].(waiters := semas[n].waiters + [runningThread])];
        place := place[runningThread := AtSema(n)];
        ThreadBlock();
      } else {
        semas := semas[n := semas[n].(value := semas[n].value - 1)];
      }
    }

    /** The first part of sema_up: the first waiter, if there is one, is unblocked. */
    method WakeFirst(n: nat)
      requires Inv(View()) && n in semas && semas[n].waiters != []
      modifies `semas, `place, `readyList, `status
      ensures View() == Unblock(WithoutFirst(old(View()), n), old(semas[n].waiters[0]))
    {
      FirstWaiterLeaves(View(), n);
      hide Inv;
      var t := semas[n].waiters[0];
      semas := semas[n := semas[n].(waiters := semas[n].waiters[1..])];
      place := place - {t};
      ThreadUnblock(t);
    }

    /** sema_up */
    method Up(n: nat)
      requires Inv(View()) && Enabled(View(), OpSemaUp(n))
      modifies this
      ensures Inv(View()) && View() == Apply(old(View()), OpSemaUp(n))
    {
      ghost var s, sema := View(), semas[n];
      SemaUpInv(s, n);
      hide Inv;
      if semas[n].waiters != [] {
        WakeFirst(n);
      }
      semas := semas[n := semas[n].(value := semas[n].value + 1)];
      assert semas == s.semas[n := Semaphore.Up(sema)];
    }

    /** timer_sleep up to where it turns interrupts off; it returns at once for ticks <= 0. */
    method StartSleep(ticks: int) returns (sleeps: bool)
      requires Inv(View())
      modifies this
      ensures Inv(View()) && (sleeps <==> Enabled(old(View()), OpReadTicks(ticks)))
      ensures View() == if sleeps then Apply(old(View()), OpReadTicks(ticks)) else old(View())
    {
      if ticks <= 0 {
        return false;
      }
      ReadTicksInv(View(), ticks);
      var start := this.ticks;
      wakeUpTick := wakeUpTick[runningThread := start + ticks];
      return true;
    }

    /** The loop of list_insert_ordered with sleep_comparison. */
    method FindPlace(st: Sleeper) returns (k: nat)
      ensures k == SleepPoint(sleepList, st.wakeUpTick)
    {
      k := 0;
      while k < |sleepList| && !(st.wakeUpTick < sleepList[k].wakeUpTick)
        invariant 0 <= k <= |sleepList|
        invariant forall i | 0 <= i < k :: sleepList[i].wakeUpTick <= st.wakeUpTick
        invariant k <= SleepPoint(sleepList, st.wakeUpTick)
      {
        k := k + 1;
      }
    }

    /** The rest of timer_sleep: list_insert_ordered and thread_block. */
    method Sleep()
      requires Inv(View()) && Enabled(View(), OpSleep)
      modifies this
      ensures Inv(View()) && View() == Apply(old(View()), OpSleep)
      ensures runningThread != old(runningThread)
    {
      ghost var s := View();
      SleepInv(s);
      ReadyIsNotRunning(s);
      hide Inv, Switching, SleepPoint;
      var st := Sleeper(runningThread, wakeUpTick[runningThread]);
      var k := FindPlace(st);
      sleepList := sleepList[..k] + [st] + sleepList[k..];
      wakeUpTick := wakeUpTick - {runningThread};
      place := place[runningThread := Asleep];
      assert View() == AtSleepers(s);
      hide AtSleepers;
      ThreadBlock();
    }

    /** timer_interrupt */
    method Tick()
      requires Inv(View())
      modifies this
      ensures Inv(View()) && View() == Apply(old(View()), OpTimerInterrupt)
    {
      hide Inv, WakeDue;
      ghost var goal := TimerInterrupt(View());
      TickStart(View(), ticks + 1);
      ticks := ticks + 1;
      var i := 0;
      while i < |sleepList|
        invariant 0 <= i <= |sleepList| && Inv(View())
        invariant WakeDue(View().(sleepers := sleepList[..i]), sleepList[i..]) == goal
        decreases |sleepList| - i
      {
        var st := sleepList[i];
        ghost var s, l := View().(sleepers := sleepList[..i]), sleepList[i..];
        assert With(s, l) == View();
        WakeDueStep(s, l);
        if ticks >= st.wakeUpTick {
          WakeOne(s, l);
          SleeperLeaves(s, l);
          sleepList := sleepList[..i] + sleepList[i + 1..];
          place := place - {st.t};
          ThreadUnblock(st.t);
          assert sleepList[..i] == s.sleepers && sleepList[i..] == l[1..];
          assert View() == With(Unblock(s.(place := s.place - {st.t}), st.t), l[1..]);
          assert View().(sleepers := sleepList[..i]) == Unblock(s.(place := s.place - {st.t}), st.t);
        } else {
          assert sleepList[..i + 1] == s.sleepers + [st] && sleepList[i + 1..] == l[1..];
          i := i + 1;
        }
      }
      WakeDueEnd(View(), sleepList[i..]);
    }
  }

  lemma TickStart(s: State, ticks: int)
    requires Inv(s)
    ensures Inv(s.(ticks := ticks))
    ensures s.sleepers[..0] == [] && s.sleepers[0..] == s.sleepers
  {
  }

  lemma WakeDueStep(s: State, l: seq<Sleeper>)
    requires l != [] && Inv(With(s, l))
    ensures l[0].t in s.status && s.status[l[0].t].Blocked?
    ensures WakeDue(s, l) ==
            if s.ticks >= l[0].wakeUpTick then WakeDue(Unblock(s.(place := s.place - {l[0].t}), l[0].t), l[1..])
            else WakeDue(s.(sleepers := s.sleepers + [l[0]]), l[1..])
  {
    assert With(s, l).sleepers[|s.sleepers|] == l[0];
    assert IsAt(s.place, l[0].t, Asleep);
  }

  lemma WakeDueEnd(s: State, l: seq<Sleeper>)
    requires l == []
    ensures forall k | k == |s.sleepers| :: WakeDue(s.(sleepers := s.sleepers[..k]), l) == s
  {
    assert s.sleepers[..|s.sleepers|] == s.sleepers;
  }

  lemma ReadyIsNotRunning(s: State)
    requires Inv(s)
    ensures s.current in s.status && s.status[s.current].Running?
    ensures s.current != s.idle ==> Next(s) != s.current
  {
    if s.ready != [] { assert s.ready[0] in s.ready; }
  }

  /** A thread that has left its queue can be unblocked. */
  lemma PlaceLeft(s: State, s': State, t: Tid)
    requires Inv(s) && t in s.place
    requires s' == s.(semas := s'.semas, sleepers := s'.sleepers, place := s.place - {t})
    requires SemaPlaces(s'.semas, s'.place) && SleepPlaces(s'.sleepers, s'.place) && Ordered(s'.sleepers)
    ensures Inv(s') && t in s'.status && s'.status[t].Blocked? && t != s'.idle && t !in s'.place
  {
    hide SemaPlaces, SleepPlaces, Ordered;
  }

  /** The first waiter of semaphore n has left it. */
  function WithoutFirst(s: State, n: nat): State
    requires n in s.semas && s.semas[n].waiters != []
  {
    var sema := s.semas[n];
    s.(semas := s.semas[n := sema.(waiters := sema.waiters[1..])], place := s.place - {sema.waiters[0]})
  }

  lemma FirstWaiterLeaves(s: State, n: nat)
    requires Inv(s) && n in s.semas && s.semas[n].waiters != []
    ensures var t, s' := s.semas[n].waiters[0], WithoutFirst(s, n);
            Inv(s') && t in s'.status && s'.status[t].Blocked? && t != s'.idle && t !in s'.place
  {
    var t, sema := s.semas[n].waiters[0], s.semas[n];
    assert IsAt(s.place, t, AtSema(n));
    InvOrdered(s);
    TakeWaiter(s.semas, s.sleepers, s.place, n);
    hide SemaPlaces, SleepPlaces, Ordered;
    PlaceLeft(s, WithoutFirst(s, n), t);
  }

  lemma TakeWaiter(semas: map<nat, Sema>, l: seq<Sleeper>, place: map<Tid, Place>, n: nat)
    requires SemaPlaces(semas, place) && SleepPlaces(l, place) && n in semas && semas[n].waiters != []
    ensures var sema := semas[n];
            SemaPlaces(semas[n := sema.(waiters := sema.waiters[1..])], place - {sema.waiters[0]})
            && SleepPlaces(l, place - {sema.waiters[0]})
  {
    var sema, t := semas[n], semas[n].waiters[0];
    FrontAndRest(sema.waiters);
    assert IsAt(place, t, AtSema(n));
    var semas' := semas[n := sema.(waiters := sema.waiters[1..])];
    assert SemaPlaces(semas', place);
    PlacesTake(semas', l, place, t);
  }

  lemma SleeperLeaves(s: State, l: seq<Sleeper>)
    requires l != [] && Inv(With(s, l))
    ensures var s' := With(s.(place := s.place - {l[0].t}), l[1..]);
            Inv(s') && l[0].t in s'.status && s'.status[l[0].t].Blocked? && l[0].t != s'.idle && l[0].t !in s'.place
  {
    var t, rest, w := l[0].t, s.sleepers + l[1..], With(s, l);
    InvOrdered(w);
    assert w.sleepers[|s.sleepers|] == l[0] && IsAt(s.place, t, Asleep);
    RestSleeps(s.sleepers, l, s.place);
    PlacesTake(s.semas, rest, s.place, t) by {
      assert forall n | n in s.semas && t in s.semas[n].waiters :: IsAt(s.place, t, AtSema(n));
    }
    hide SemaPlaces, SleepPlaces, Ordered;
    PlaceLeft(w, w.(sleepers := rest, place := s.place - {t}), t);
  }
}
