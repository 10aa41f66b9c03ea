// The readers/writer protocol around inode_read_at and inode_write_at
// (Pintos/filesys/inode.c) on the semaphores and locks of Pintos/threads/synch.c,
// for any number of threads.  Code that runs with interrupts off is one step.
module RwLock {

  import opened Prelude
  import opened Semaphore

  /** Where a thread is.  R: entering inode_read_at, X: leaving it, W: inode_write_at. */
  datatype Pc =
    | Outside
    | RAcquire | ROwn | RTest | RDownWrite | RCount | RDisown | RRelease
    | Reading
    | XAcquire | XOwn | XUncount | XTest | XUpWrite | XDisown | XRelease
    | WDownWrite | Writing | WUpWrite

  datatype WriteOwner = Nobody | AllReaders | Writer(t: Tid)

  /** Who went through sema_down last and has not come to sema_up; no step depends on it. */
  datatype Owners = Owners(lock: Option<Tid>, write: WriteOwner)

  datatype State = State(pc: map<Tid, Pc>, lock: Sema, write: Sema, holder: Option<Tid>, readers: int, own: Owners)
  {
    function Go(t: Tid, p: Pc): State { this.(pc := pc[t := p]) }
  }

  predicate Blocked(s: State, t: Tid) { t in s.lock.waiters || t in s.write.waiters }

  predicate Runnable(s: State, t: Tid) {
    t in s.pc && s.pc[t] != Outside && !Blocked(s, t)
  }

  /** rw_lock_init */
  ghost predicate Init(s: State) {
    && (forall t | t in s.pc :: s.pc[t] == Outside)
    && s.lock == Sema(1, []) && s.write == Sema(1, []) && s.holder == None && s.readers == 0
    && s.own == Owners(None, Nobody)
  }

  function TakeLock(s: State, t: Tid, p: Pc): State {
    if s.lock.value == 0 then s.(lock := Wait(s.lock, t))
    else s.(lock := Down(s.lock), own := s.own.(lock := Some(t))).Go(t, p)
  }

  function DropLock(s: State, t: Tid, p: Pc): State {
    s.(lock := Up(s.lock), own := s.own.(lock := None)).Go(t, p)
  }

  function TakeWrite(s: State, t: Tid, w: WriteOwner, p: Pc): State {
    if s.write.value == 0 then s.(write := Wait(s.write, t))
    else s.(write := Down(s.write), own := s.own.(write := w)).Go(t, p)
  }

  function DropWrite(s: State, t: Tid, p: Pc): State {
    s.(write := Up(s.write), own := s.own.(write := Nobody)).Go(t, p)
  }

  /** The next step of a runnable thread. */
  function Step(s: State, t: Tid): State
    requires Runnable(s, t)
  {
    match s.pc[t]
    case RAcquire => TakeLock(s, t, ROwn)
    case ROwn => s.(holder := Some(t)).Go(t, RTest)
    case RTest => s.Go(t, if s.readers == 0 then RDownWrite else RCount)
    case RDownWrite => TakeWrite(s, t, AllReaders, RCount)
    case RCount => s.(readers := s.readers + 1).Go(t, RDisown)
    case RDisown => s.(holder := None).Go(t, RRelease)
    case RRelease => DropLock(s, t, Reading)
    case Reading => s.Go(t, XAcquire)
    case XAcquire => TakeLock(s, t, XOwn)
    case XOwn => s.(holder := Some(t)).Go(t, XUncount)
    case XUncount => s.(readers := s.readers - 1).Go(t, XTest)
    case XTest => s.Go(t, if s.readers == 0 then XUpWrite else XDisown)
    case XUpWrite => DropWrite(s, t, XDisown)
    case XDisown => s.(holder := None).Go(t, XRelease)
    case XRelease => DropLock(s, t, Outside)
    case WDownWrite => TakeWrite(s, t, Writer(t), Writing)
    case Writing => s.Go(t, WUpWrite)
    case WUpWrite => DropWrite(s, t, Outside)
  }

  ghost predicate Next(s: State, s': State) {
    || (exists t :: Runnable(s, t) && s' == Step(s, t))
    || (exists t :: t in s.pc && s.pc[t] == Outside && (s' == s.Go(t, RAcquire) || s' == s.Go(t, WDownWrite)))
  }

  // ----- The invariant -----

  /** Between a successful sema_down of the lock and its sema_up. */
  predicate HasLock(p: Pc) {
    p in {ROwn, RTest, RDownWrite, RCount, RDisown, RRelease, XOwn, XUncount, XTest, XUpWrite, XDisown, XRelease}
  }

  predicate IsHolder(p: Pc) {
    p in {RTest, RDownWrite, RCount, RDisown, XUncount, XTest, XUpWrite, XDisown}
  }

  /** Counted in `readers`. */
  predicate Counted(p: Pc) { p in {RDisown, RRelease, Reading, XAcquire, XOwn, XUncount} }

  predicate HasWrite(p: Pc) { p in {Writing, WUpWrite} }

  /** A reader that acts for all readers: they own write_sema although none may be counted. */
  predicate ForReaders(p: Pc) { p in {RCount, XTest, XUpWrite} }

  function Readers(pc: map<Tid, Pc>): set<Tid> { set t | t in pc && Counted(pc[t]) }

  ghost predicate OwnerInv(s: State) {
    && (forall t | t in s.pc :: HasLock(s.pc[t]) <==> s.own.lock == Some(t))
    && (s.own.lock.Some? ==> s.own.lock.value in s.pc)
    && s.lock.value == (if s.own.lock.Some? then 0 else 1)
  }

  ghost predicate HolderInv(s: State) {
    forall t | t in s.pc :: IsHolder(s.pc[t]) <==> s.holder == Some(t)
  }

  ghost predicate LockInv(s: State) {
    OwnerInv(s) && HolderInv(s) && s.readers == |Readers(s.pc)|
  }

  ghost predicate WriteInv(s: State)
    requires LockInv(s)
  {
    && (forall t | t in s.pc :: HasWrite(s.pc[t]) <==> s.own.write == Writer(t))
    && (s.own.write.Writer? ==> s.own.write.t in s.pc)
    && s.write.value == (if s.own.write.Nobody? then 1 else 0)
    && (s.own.write.AllReaders? <==>
          s.readers > 0 || (s.own.lock.Some? && ForReaders(s.pc[s.own.lock.value])))
    && (s.own.lock.Some? && s.pc[s.own.lock.value] in {RDownWrite, XUpWrite} ==> s.readers == 0)
  }

  /** The waiters of `sema` are distinct threads blocked at one of the places `at`, and a
      positive value with waiters left has a thread at such a place that is not blocked:
      it was woken, or came later, and is about to test the value. */
  ghost predicate Waits(sema: Sema, pc: map<Tid, Pc>, at: set<Pc>) {
    && Distinct(sema.waiters)
    && (forall t | t in sema.waiters :: t in pc && pc[t] in at)
    && (sema.value > 0 && sema.waiters != [] ==> exists t :: t in pc && pc[t] in at && t !in sema.waiters)
  }

  const AT_LOCK := {RAcquire, XAcquire}
  const AT_WRITE := {RDownWrite, WDownWrite}

  ghost predicate WaitInv(s: State) {
    Waits(s.lock, s.pc, AT_LOCK) && Waits(s.write, s.pc, AT_WRITE)
  }

  ghost predicate Inv(s: State) { LockInv(s) && WriteInv(s) && WaitInv(s) }

  // ----- Steps keep the invariant -----

  lemma ReadersGo(pc: map<Tid, Pc>, t: Tid, p: Pc)
    requires t in pc
    ensures |Readers(pc[t := p])| == |Readers(pc)| + (if Counted(p) then 1 else 0) - (if Counted(pc[t]) then 1 else 0)
  {
    var a, b := Readers(pc), Readers(pc[t := p]);
    if Counted(p) && !Counted(pc[t]) { assert b == a + {t}; }
    if !Counted(p) && Counted(pc[t]) { assert b == a - {t}; }
    if Counted(p) <==> Counted(pc[t]) { assert b == a; }
  }

  /** A step moves only the thread that takes it. */
  lemma StepGo(s: State, t: Tid)
    requires Runnable(s, t)
    ensures t in Step(s, t).pc
    ensures Step(s, t).pc == s.pc[t := Step(s, t).pc[t]]
    ensures |Readers(Step(s, t).pc)| == |Readers(s.pc)|
                + (if Counted(Step(s, t).pc[t]) then 1 else 0) - (if Counted(s.pc[t]) then 1 else 0)
  {
    hide Readers, Counted;
    var s' := Step(s, t);
    assert s'.pc == s.pc[t := s'.pc[t]];
    ReadersGo(s.pc, t, s'.pc[t]);
  }

  lemma StepOwner(s: State, t: Tid)
    requires Inv(s) && Runnable(s, t)
    ensures OwnerInv(Step(s, t))
  {
    hide WaitInv, WriteInv, HolderInv, Readers;
    StepGo(s, t);
  }

  lemma StepHolder(s: State, t: Tid)
    requires Inv(s) && Runnable(s, t)
    ensures HolderInv(Step(s, t)) && Step(s, t).readers == |Readers(Step(s, t).pc)|
  {
    hide WaitInv, WriteInv, Readers;
    StepGo(s, t);
  }

  lemma StepWrite(s: State, t: Tid)
    requires Inv(s) && Runnable(s, t) && LockInv(Step(s, t))
    ensures WriteInv(Step(s, t))
  {
    hide WaitInv, Readers;
    StepGo(s, t);
    CountedReads(s, t);
  }

  lemma CountedReads(s: State, t: Tid)
    requires LockInv(s) && t in s.pc
    ensures Counted(s.pc[t]) ==> s.readers > 0
  {
    assert Counted(s.pc[t]) ==> t in Readers(s.pc);
  }

  lemma WaitsOther(sema: Sema, pc: map<Tid, Pc>, at: set<Pc>, t: Tid, p: Pc)
    requires Waits(sema, pc, at) && t in pc && pc[t] !in at
    ensures Waits(sema, pc[t := p], at)
  {
    if u :| u in pc && pc[u] in at && u !in sema.waiters {
      assert pc[t := p][u] in at;
    }
  }

  lemma WaitsJoin(sema: Sema, pc: map<Tid, Pc>, at: set<Pc>, t: Tid)
    requires Waits(sema, pc, at) && t in pc && pc[t] in at && t !in sema.waiters && sema.value == 0
    ensures Waits(Wait(sema, t), pc, at)
  {
  }

  lemma WaitsDown(sema: Sema, pc: map<Tid, Pc>, at: set<Pc>, t: Tid, p: Pc)
    requires Waits(sema, pc, at) && t in pc && t !in sema.waiters && sema.value == 1
    ensures Waits(Down(sema), pc[t := p], at)
  {
  }

  lemma WaitsUp(sema: Sema, pc: map<Tid, Pc>, at: set<Pc>, t: Tid, p: Pc)
    requires Waits(sema, pc, at) && t in pc && pc[t] !in at
    ensures Waits(Up(sema), pc[t := p], at)
  {
    var waiters := sema.waiters;
    if |waiters| > 1 {
      assert waiters[0] in waiters && waiters[0] !in waiters[1..];
      assert pc[t := p][waiters[0]] in at;
    }
  }

  lemma SemasAreBinary(s: State)
    requires Inv(s)
    ensures s.lock.value <= 1 && s.write.value <= 1
  {
  }

  lemma StepWait(s: State, t: Tid)
    requires Inv(s) && Runnable(s, t)
    ensures WaitInv(Step(s, t))
  {
    hide Waits, WriteInv;
    var p := Step(s, t).pc[t];
    match s.pc[t]
    case RAcquire | XAcquire =>
      WaitsOther(s.write, s.pc, AT_WRITE, t, p);
      if s.lock.value == 0 { WaitsJoin(s.lock, s.pc, AT_LOCK, t); } else { WaitsDown(s.lock, s.pc, AT_LOCK, t, p); }
    case RDownWrite | WDownWrite =>
      WaitsOther(s.lock, s.pc, AT_LOCK, t, p);
      SemasAreBinary(s);
      if s.write.value == 0 {
        WaitsJoin(s.write, s.pc, AT_WRITE, t);
      } else {
        WaitsDown(s.write, s.pc, AT_WRITE, t, p);
      }
    case RRelease | XRelease =>
      WaitsUp(s.lock, s.pc, AT_LOCK, t, p);
      WaitsOther(s.write, s.pc, AT_WRITE, t, p);
    case XUpWrite | WUpWrite =>
      WaitsOther(s.lock, s.pc, AT_LOCK, t, p);
      WaitsUp(s.write, s.pc, AT_WRITE, t, p);
    case _ =>
      WaitsOther(s.lock, s.pc, AT_LOCK, t, p);
      WaitsOther(s.write, s.pc, AT_WRITE, t, p);
  }

  lemma StepInv(s: State, t: Tid)
    requires Inv(s) && Runnable(s, t)
    ensures Inv(Step(s, t))
  {
    hide OwnerInv, HolderInv, WriteInv, WaitInv, Step;
    StepOwner(s, t);
    StepHolder(s, t);
    StepWrite(s, t);
    StepWait(s, t);
  }

  lemma StartInv(s: State, t: Tid, p: Pc)
    requires Inv(s) && t in s.pc && s.pc[t] == Outside && p in {RAcquire, WDownWrite}
    ensures Inv(s.Go(t, p))
  {
    ReadersGo(s.pc, t, p);
    hide Readers, Waits;
    WaitsOther(s.lock, s.pc, AT_LOCK, t, p);
    WaitsOther(s.write, s.pc, AT_WRITE, t, p);
  }

  /** A run: it starts outside with a fresh rw_lock, and each state follows from the one before. */
  ghost predicate Run(run: seq<State>) {
    && |run| > 0 && Init(run[0])
    && forall i, j | 0 <= i && j == i + 1 < |run| :: Next(run[i], run[j])
  }

  lemma {:induction false} RunInv(run: seq<State>)
    requires Run(run)
    ensures Inv(run[|run| - 1])
  {
    if |run| == 1 {
      assert Readers(run[0].pc) == {};
    } else {
      hide Inv, Init, Runnable;
      var before := run[..|run| - 1];
      RunInv(before);
      var s, s' := run[|run| - 2], run[|run| - 1];
      assert Next(s, s');
      if t :| Runnable(s, t) && s' == Step(s, t) {
        StepInv(s, t);
      } else {
        var t :| t in s.pc && s.pc[t] == Outside && (s' == s.Go(t, RAcquire) || s' == s.Go(t, WDownWrite));
        StartInv(s, t, if s' == s.Go(t, RAcquire) then RAcquire else WDownWrite);
      }
    }
  }

  // ----- What the protocol promises -----

  /** While a thread is in the body of inode_write_at no other thread is in that body or
      in the body of inode_read_at. */
  lemma MutualExclusion(run: seq<State>, t: Tid, u: Tid)
    requires Run(run) && t in run[|run| - 1].pc && u in run[|run| - 1].pc && t != u
    requires run[|run| - 1].pc[t] == Writing
    ensures run[|run| - 1].pc[u] != Writing && run[|run| - 1].pc[u] != Reading
  {
    RunInv(run);
    var s := run[|run| - 1];
    assert s.pc[u] == Reading ==> u in Readers(s.pc);
  }

  /** The assertions of lock_acquire and lock_release hold, and the reader count is
      never decremented below zero. */
  lemma LockAssertions(run: seq<State>, t: Tid)
    requires Run(run) && t in run[|run| - 1].pc
    ensures run[|run| - 1].pc[t] in {RAcquire, XAcquire} ==> run[|run| - 1].holder != Some(t)
    ensures run[|run| - 1].pc[t] in {RDisown, XDisown} ==> run[|run| - 1].holder == Some(t)
    ensures run[|run| - 1].pc[t] == XUncount ==> run[|run| - 1].readers > 0
  {
    RunInv(run);
    var s := run[|run| - 1];
    assert s.pc[t] == XUncount ==> t in Readers(s.pc);
  }

  /** A reader that waits for write_sema while it holds the lock keeps no active reader out. */
  lemma LockedWaitMeansNoReader(run: seq<State>, t: Tid, u: Tid)
    requires Run(run) && t in run[|run| - 1].pc && u in run[|run| - 1].pc
    requires run[|run| - 1].pc[t] == RDownWrite
    ensures run[|run| - 1].readers == 0 && !Counted(run[|run| - 1].pc[u])
  {
    RunInv(run);
    var s := run[|run| - 1];
    assert Counted(s.pc[u]) ==> u in Readers(s.pc);
  }

  /** While others read, a reader that finds the lock free gets in beside them without waiting. */
  lemma ReadersShare(s: State, t: Tid) returns (run: seq<State>)
    requires Runnable(s, t) && s.pc[t] == RAcquire && s.lock.value > 0 && s.readers > 0
    ensures |run| == 7 && run[0] == s
    ensures forall i, j | 0 <= i && j == i + 1 < 7 :: Runnable(run[i], t) && run[j] == Step(run[i], t)
    ensures run[6].pc == s.pc[t := Reading] && run[6].readers == s.readers + 1
  {
    var a := Step(s, t);
    var b := Step(a, t);
    var c := Step(b, t);
    var d := Step(c, t);
    var e := Step(d, t);
    run := [s, a, b, c, d, e, Step(e, t)];
  }

  /** The thread is not blocked and its next step takes it further: it does not go to sleep. */
  ghost predicate Advances(s: State, t: Tid) {
    Runnable(s, t) && Step(s, t).pc[t] != s.pc[t]
  }

  lemma FreeLockAdvances(s: State, t: Tid) returns (u: Tid)
    requires Inv(s) && s.lock.value > 0 && t in s.pc && s.pc[t] in AT_LOCK
    ensures Advances(s, u)
  {
    if t in s.lock.waiters {
      u :| u in s.pc && s.pc[u] in AT_LOCK && u !in s.lock.waiters;
    } else {
      u := t;
    }
  }

  lemma WriteAdvances(s: State, t: Tid) returns (u: Tid)
    requires Inv(s) && t in s.pc && s.pc[t] in AT_WRITE && !s.own.write.AllReaders?
    ensures Advances(s, u)
  {
    if s.own.write.Writer? {
      u := s.own.write.t;
    } else if t in s.write.waiters {
      u :| u in s.pc && s.pc[u] in AT_WRITE && u !in s.write.waiters;
    } else {
      u := t;
    }
  }

  lemma SomeReader(s: State) returns (u: Tid)
    requires Inv(s) && s.readers > 0
    ensures u in s.pc && Counted(s.pc[u])
  {
    var readers := Readers(s.pc);
    assert readers != {};
    u :| u in readers;
  }

  /** Whenever a thread is between entry and exit, some thread can take a real step. */
  lemma DeadlockFree(run: seq<State>, t: Tid) returns (u: Tid)
    requires Run(run) && t in run[|run| - 1].pc && run[|run| - 1].pc[t] != Outside
    ensures Advances(run[|run| - 1], u)
  {
    RunInv(run);
    var s := run[|run| - 1];
    if s.own.lock.Some? {
      u := s.own.lock.value;
      if s.pc[u] == RDownWrite {
        u := WriteAdvances(s, u);
      }
    } else if s.pc[t] in AT_LOCK {
      u := FreeLockAdvances(s, t);
    } else if s.pc[t] == WDownWrite && s.own.write.AllReaders? {
      u := SomeReader(s);
      if s.pc[u] != Reading {
        u := FreeLockAdvances(s, u);
      }
    } else if s.pc[t] == WDownWrite {
      u := WriteAdvances(s, t);
    } else {
      u := t;
    }
  }
}
