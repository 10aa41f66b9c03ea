// The eventfd handshake around the event ring: sendEvent, tryRecvEvent, notifyPeer and
// drainWakeups of SPSC/src/engine/ShmStrategyTransport.cpp with the event loop of
// SPSC/src/strategy/worker-main.cpp.  Each access to the rings or to the counter is one
// step; the rings are the queues that SpscRing.dfy proves them to be.
module Wakeup {
  import opened Prelude

  /** An event on the wire; `good` tells whether decoding it succeeds. */
  datatype Event = Event(id: nat, good: bool)

  datatype Action = Ready | Ack(eventsSeen: nat) | Heartbeat(seqNo: nat)

  /** Idle, or between the push of sendEvent and the end of notifyPeer (second write or first). */
  datatype Engine = Idle | Notify(again: bool)

  /** Where the worker is in its loop. */
  datatype Worker = Poll | Drain | Recv | Handle | SendAck | Beat | Stopped

  /** What the worker did to the rings, in order. */
  datatype Deed = Popped(event: Event) | Acked(eventsSeen: nat)

  datatype State = State(
    events: seq<Event>, actions: seq<Action>, counter: nat, engine: Engine, worker: Worker,
    eventsSeen: nat, heartbeatSeq: nat, pushed: seq<Event>, sent: seq<Action>, taken: seq<Action>, deeds: seq<Deed>)

  /** The ring sizes, and the largest value that an eventfd counter takes. */
  datatype Limits = Limits(events: nat, actions: nat, counter: nat)

  predicate Init(s: State) {
    s == State([], [Ready], 0, Idle, Poll, 0, 0, [], [Ready], [], [])
  }

  // ----- The engine -----

  function Push(s: State, e: Event): State {
    s.(events := s.events + [e], pushed := s.pushed + [e], engine := Notify(false))
  }

  /** eventfd_write that succeeds; a counter at its limit gives EAGAIN, which counts as success. */
  function Write(s: State, l: Limits): State {
    s.(counter := if s.counter < l.counter then s.counter + 1 else s.counter, engine := Idle)
  }

  /** eventfd_write that fails with EINTR: it is tried once more, then notifyPeer gives up.  Other
      errors make it give up at once. */
  function Interrupted(s: State): State { s.(engine := Notify(true)) }

  function GiveUp(s: State): State { s.(engine := Idle) }

  function TakeAction(s: State): State
    requires s.actions != []
  {
    s.(actions := s.actions[1..], taken := s.taken + [s.actions[0]])
  }

  /** `faults` tells whether eventfd_write may fail for good. */
  ghost predicate EngineNext(l: Limits, faults: bool, s: State, s': State) {
    || (s.engine.Idle? && |s.events| < l.events && exists e :: s' == Push(s, e))
    || (s.engine.Notify? && s' == Write(s, l))
    || (s.engine == Notify(false) && s' == Interrupted(s))
    || (s.engine.Notify? && faults && s' == GiveUp(s))
    || (s.engine.Idle? && s.actions != [] && s' == TakeAction(s))
  }

  // ----- The worker -----

  function Go(s: State, w: Worker): State { s.(worker := w) }

  function Send(s: State, a: Action): State {
    s.(actions := s.actions + [a], sent := s.sent + [a])
  }

  /** tryRecvEvent */
  function Pop(s: State): State
    requires s.events != []
  {
    var e := s.events[0];
    s.(events := s.events[1..], deeds := s.deeds + [Popped(e)], worker := if e.good then Handle else Beat)
  }

  /** The send of the k-th acknowledgement; the notification after it may still fail. */
  function SendAckStep(s: State, ok: bool): State {
    Send(s, Ack(s.eventsSeen)).(deeds := s.deeds + [Acked(s.eventsSeen)], worker := if ok then Recv else Stopped)
  }

  function HeartbeatStep(s: State, ok: bool): State {
    Send(s, Heartbeat(s.heartbeatSeq + 1)).(heartbeatSeq := s.heartbeatSeq + 1, worker := if ok then Poll else Stopped)
  }

  ghost predicate WorkerNext(l: Limits, s: State, s': State) {
    match s.worker
    case Poll =>
      || (s.counter > 0 && s' == Go(s, Drain))
      || (s.counter == 0 && s' == Go(s, Beat)) // the timeout of poll
      || s' == Go(s, Stopped)                  // told to stop, or poll fails
    case Drain =>
      || (s.counter > 0 && s' == s.(counter := 0))
      || s' == Go(s, Recv) // EAGAIN, or another error
    case Recv => s' == if s.events == [] then Go(s, Beat) else Pop(s)
    case Handle => s' == s.(eventsSeen := s.eventsSeen + 1, worker := SendAck)
    case SendAck =>
      || (|s.actions| < l.actions && exists ok :: s' == SendAckStep(s, ok))
      || (|s.actions| >= l.actions && s' == Go(s, Stopped))
    case Beat =>
      || s' == Go(s, Poll)
      || (|s.actions| < l.actions && exists ok :: s' == HeartbeatStep(s, ok))
      || s' == Go(s, Stopped)
    case Stopped => false
  }

  ghost predicate Next(l: Limits, faults: bool, s: State, s': State) {
    EngineNext(l, faults, s, s') || WorkerNext(l, s, s')
  }

  ghost predicate Run(l: Limits, faults: bool, run: seq<State>) {
    && run != [] && Init(run[0])
    && forall i, j | 0 <= i && j == i + 1 < |run| :: Next(l, faults, run[i], run[j])
  }

  /** Some run ends in s. */
  ghost predicate Reachable(l: Limits, faults: bool, s: State) {
    exists run :: Run(l, faults, run) && run[|run| - 1] == s
  }

  // ----- No lost wake-up -----

  /** The worker does not sleep on a nonempty ring: the counter is positive or about to be. */
  predicate Awake(s: State) {
    s.worker.Poll? && s.events != [] ==> s.counter > 0 || s.engine.Notify?
  }

  predicate NotAsleep(s: State) {
    (s.worker.Poll? || s.worker.Beat?) && s.events != [] ==> s.counter > 0 || s.engine.Notify?
  }

  /** The events so far are the first of msgs. */
  predicate Sends(s: State, msgs: seq<Event>) { s.pushed <= msgs }

  /** Decoding fails for none of the events, except perhaps the last. */
  predicate GoodButLast(msgs: seq<Event>) {
    forall k | 0 <= k < |msgs| - 1 :: msgs[k].good
  }

  /** The events that the worker has taken off the ring. */
  function Pops(deeds: seq<Deed>): seq<Event> {
    if deeds == [] then []
    else
      var d := deeds[|deeds| - 1];
      Pops(deeds[..|deeds| - 1]) + if d.Popped? then [d.event] else []
  }

  function GoodPops(deeds: seq<Deed>): nat {
    if deeds == [] then 0
    else
      var d := deeds[|deeds| - 1];
      GoodPops(deeds[..|deeds| - 1]) + if d.Popped? && d.event.good then 1 else 0
  }

  function Acks(deeds: seq<Deed>): nat {
    if deeds == [] then 0
    else Acks(deeds[..|deeds| - 1]) + if deeds[|deeds| - 1].Acked? then 1 else 0
  }

  /** Every acknowledgement carries its own number, which is also the number of decoded events before it. */
  ghost predicate AcksInStep(deeds: seq<Deed>) {
    forall i | 0 <= i < |deeds| && deeds[i].Acked? ::
      deeds[i].eventsSeen == GoodPops(deeds[..i]) == Acks(deeds[..i]) + 1
  }

  ghost predicate AckInv(s: State) {
    && AcksInStep(s.deeds)
    && GoodPops(s.deeds) == s.eventsSeen + (if s.worker.Handle? then 1 else 0)
    && (if s.worker.Stopped? then Acks(s.deeds) <= GoodPops(s.deeds) <= Acks(s.deeds) + 1
        else GoodPops(s.deeds) == Acks(s.deeds) + (if s.worker.Handle? || s.worker.SendAck? then 1 else 0))
  }

  /** Nothing is lost or reordered between the two sides. */
  ghost predicate QueueInv(s: State) {
    s.pushed == Pops(s.deeds) + s.events && s.sent == s.taken + s.actions
  }

  lemma DeedsStep(deeds: seq<Deed>, d: Deed)
    ensures Pops(deeds + [d]) == Pops(deeds) + if d.Popped? then [d.event] else []
    ensures GoodPops(deeds + [d]) == GoodPops(deeds) + if d.Popped? && d.event.good then 1 else 0
    ensures Acks(deeds + [d]) == Acks(deeds) + if d.Acked? then 1 else 0
    ensures AcksInStep(deeds) && (d.Acked? ==> d.eventsSeen == GoodPops(deeds) == Acks(deeds) + 1) ==>
              AcksInStep(deeds + [d])
  {
    var more := deeds + [d];
    assert more[..|deeds|] == deeds;
    forall i | 0 <= i < |deeds|
      ensures more[..i] == deeds[..i]
    {
    }
  }

  /** Nothing is left in the ring when an event of msgs that does not decode is taken out. */
  predicate Harmless(l: Limits, msgs: seq<Event>) { l.events < 2 || GoodButLast(msgs) }

  ghost predicate Inv(l: Limits, s: State, faults: bool, msgs: seq<Event>) {
    QueueInv(s) && AckInv(s) && |s.events| <= l.events && (!faults && Harmless(l, msgs) ==> NotAsleep(s))
  }

  lemma EngineKeepsInv(l: Limits, faults: bool, s: State, s': State, msgs: seq<Event>)
    requires Inv(l, s, faults, msgs) && EngineNext(l, faults, s, s') && l.counter > 0
    ensures Inv(l, s', faults, msgs)
  {
    hide Pops, GoodPops, Acks, AcksInStep, GoodButLast;
  }

  lemma PopKeepsQueue(s: State)
    requires QueueInv(s) && s.events != []
    ensures QueueInv(Pop(s))
  {
    DeedsStep(s.deeds, Popped(s.events[0]));
    assert s.events == [s.events[0]] + s.events[1..];
    hide Pops, GoodPops, Acks, AcksInStep;
  }

  lemma AckKeepsQueue(s: State, ok: bool)
    requires QueueInv(s)
    ensures QueueInv(SendAckStep(s, ok))
  {
    DeedsStep(s.deeds, Acked(s.eventsSeen));
    assert (s.taken + s.actions) + [Ack(s.eventsSeen)] == s.taken + (s.actions + [Ack(s.eventsSeen)]);
    hide Pops, GoodPops, Acks, AcksInStep;
  }

  lemma WorkerKeepsQueue(l: Limits, s: State, s': State)
    requires QueueInv(s) && WorkerNext(l, s, s')
    ensures QueueInv(s')
  {
    hide Pops, GoodPops, Acks, AcksInStep;
    match s.worker
    case Recv => if s.events != [] { PopKeepsQueue(s); hide QueueInv; }
    case SendAck =>
      if ok :| s' == SendAckStep(s, ok) { AckKeepsQueue(s, ok); hide QueueInv; }
    case Beat =>
      var a := Heartbeat(s.heartbeatSeq + 1);
      assert (s.taken + s.actions) + [a] == s.taken + (s.actions + [a]);
    case _ =>
  }

  lemma PopKeepsAcks(s: State)
    requires AckInv(s) && s.events != [] && s.worker.Recv?
    ensures AckInv(Pop(s))
  {
    hide Pops, GoodPops, Acks, AcksInStep;
    DeedsStep(s.deeds, Popped(s.events[0]));
  }

  lemma AckKeepsAcks(s: State, ok: bool)
    requires AckInv(s) && s.worker.SendAck?
    ensures AckInv(SendAckStep(s, ok))
  {
    DeedsStep(s.deeds, Acked(s.eventsSeen));
    hide Pops, GoodPops, Acks, AcksInStep;
  }

  lemma WorkerKeepsAcks(l: Limits, s: State, s': State)
    requires AckInv(s) && WorkerNext(l, s, s')
    ensures AckInv(s')
  {
    hide Pops, GoodPops, Acks, AcksInStep;
    match s.worker
    case Recv => if s.events != [] { PopKeepsAcks(s); hide AckInv; }
    case SendAck =>
      if ok :| s' == SendAckStep(s, ok) { AckKeepsAcks(s, ok); hide AckInv; }
    case _ =>
  }

  lemma WorkerStaysAwake(l: Limits, s: State, s': State, msgs: seq<Event>)
    requires QueueInv(s) && NotAsleep(s) && Harmless(l, msgs) && WorkerNext(l, s, s') && Sends(s, msgs)
    requires |s.events| <= l.events
    ensures NotAsleep(s')
  {
    if s.worker.Recv? && s.events != [] && !s.events[0].good && l.events >= 2 {
      BadIsLast(s, msgs);
    }
    hide Pops, GoodPops, Acks, QueueInv, GoodButLast;
  }

  lemma BadIsLast(s: State, msgs: seq<Event>)
    requires QueueInv(s) && GoodButLast(msgs) && Sends(s, msgs) && s.events != [] && !s.events[0].good
    ensures s.events[1..] == []
  {
    var k := |Pops(s.deeds)|;
    assert s.pushed[k] == s.events[0] == msgs[k];
  }

  lemma PushedGrows(l: Limits, faults: bool, s: State, s': State)
    requires Next(l, faults, s, s')
    ensures s.pushed <= s'.pushed
  {
  }

  lemma {:induction false} RunInv(l: Limits, faults: bool, run: seq<State>, msgs: seq<Event>)
    requires Run(l, faults, run) && l.counter > 0 && Sends(run[|run| - 1], msgs)
    ensures Inv(l, run[|run| - 1], faults, msgs)
  {
    if |run| > 1 {
      hide Pops, GoodPops, Acks, AcksInStep, Harmless, EngineNext, WorkerNext, NotAsleep, AckInv, QueueInv, Init;
      var before := run[..|run| - 1];
      var s, s' := run[|run| - 2], run[|run| - 1];
      assert before[|before| - 1] == s;
      assert Next(l, faults, s, s');
      PushedGrows(l, faults, s, s');
      RunInv(l, faults, before, msgs);
      hide Run;
      if EngineNext(l, faults, s, s') {
        EngineKeepsInv(l, faults, s, s', msgs);
      } else {
        WorkerKeepsQueue(l, s, s');
        WorkerKeepsAcks(l, s, s');
        if !faults && Harmless(l, msgs) { WorkerStaysAwake(l, s, s', msgs); }
      }
    }
  }

  // ----- The results -----

  /** In every run, whatever fails: the k-th acknowledgement carries k and follows the k-th
      event that was decoded, and both rings deliver what was put in, in order. */
  lemma AcksFollowPops(l: Limits, faults: bool, s: State)
    requires Reachable(l, faults, s) && l.counter > 0
    ensures AcksInStep(s.deeds) && QueueInv(s)
  {
    var run :| Run(l, faults, run) && run[|run| - 1] == s;
    RunInv(l, faults, run, s.pushed);
  }

  /** The numbers of the heartbeats among the actions. */
  function Beats(sent: seq<Action>): seq<nat> {
    if sent == [] then []
    else
      var last := sent[|sent| - 1];
      Beats(sent[..|sent| - 1]) + if last.Heartbeat? then [last.seqNo] else []
  }

  ghost predicate BeatsInStep(s: State) {
    |Beats(s.sent)| == s.heartbeatSeq && forall i | 0 <= i < |Beats(s.sent)| :: Beats(s.sent)[i] == i + 1
  }

  lemma SendBeats(s: State, a: Action)
    ensures Beats(s.sent + [a]) == Beats(s.sent) + if a.Heartbeat? then [a.seqNo] else []
  {
    assert (s.sent + [a])[..|s.sent|] == s.sent;
  }

  lemma StepKeepsBeats(l: Limits, faults: bool, s: State, s': State)
    requires Next(l, faults, s, s') && BeatsInStep(s)
    ensures BeatsInStep(s')
  {
    hide Beats;
    SendBeats(s, Ack(s.eventsSeen));
    SendBeats(s, Heartbeat(s.heartbeatSeq + 1));
  }

  /** In every run the k-th heartbeat that the worker sends carries k. */
  lemma {:induction false} HeartbeatsAreNumbered(l: Limits, faults: bool, run: seq<State>)
    requires Run(l, faults, run)
    ensures BeatsInStep(run[|run| - 1])
  {
    hide BeatsInStep, Next, Init;
    if |run| == 1 {
      FirstIsReady(run[0]);
    } else {
      var before := run[..|run| - 1];
      assert Next(l, faults, run[|run| - 2], run[|run| - 1]);
      HeartbeatsAreNumbered(l, faults, before);
      StepKeepsBeats(l, faults, run[|run| - 2], run[|run| - 1]);
    }
  }

  lemma FirstIsReady(s: State)
    requires Init(s)
    ensures BeatsInStep(s)
  {
    assert Beats([]) == [] && [Ready][..0] == [];
    assert Beats([Ready]) == [];
  }

  /** No run that sends (a part of) msgs ever leaves the worker asleep on a nonempty ring; without
      `faults` each notification succeeds. */
  ghost predicate Safe(l: Limits, faults: bool, msgs: seq<Event>) {
    forall s | Reachable(l, faults, s) && Sends(s, msgs) :: Awake(s)
  }

  lemma HarmlessIsSafe(l: Limits, msgs: seq<Event>)
    requires l.counter > 0 && Harmless(l, msgs)
    ensures Safe(l, false, msgs)
  {
    forall s | Reachable(l, false, s) && Sends(s, msgs)
      ensures Awake(s)
    {
      var run :| Run(l, false, run) && run[|run| - 1] == s;
      RunInv(l, false, run, msgs);
    }
  }

  lemma Reach(l: Limits, faults: bool, s: State, s': State)
    requires Reachable(l, faults, s) && Next(l, faults, s, s')
    ensures Reachable(l, faults, s')
  {
    var run :| Run(l, faults, run) && run[|run| - 1] == s;
    var longer := run + [s'];
    forall i, j | 0 <= i && j == i + 1 < |longer|
      ensures Next(l, faults, longer[i], longer[j])
    {
      hide Next;
    }
    assert longer[|longer| - 1] == s';
    assert Run(l, faults, longer);
  }

  /** Everything sent so far is dealt with and the worker sleeps. */
  predicate Quiet(s: State) {
    s.worker.Poll? && s.engine.Idle? && s.counter == 0 && s.events == [] && s.actions == []
  }

  /** The rings and the counter have room. */
  predicate Roomy(l: Limits) { l.events >= 2 && l.actions >= 1 && l.counter >= 1 }

  /** The engine sends e. */
  lemma SendEvent(l: Limits, s: State, e: Event) returns (s': State)
    requires Reachable(l, false, s) && s.engine.Idle? && |s.events| < l.events
    ensures Reachable(l, false, s')
    ensures s' == s.(events := s.events + [e], pushed := s.pushed + [e],
                     counter := if s.counter < l.counter then s.counter + 1 else s.counter)
  {
    hide Reachable;
    Reach(l, false, s, Push(s, e));
    s' := Write(Push(s, e), l);
    Reach(l, false, Push(s, e), s');
  }

  /** The worker wakes up, drains the counter and takes the first event. */
  lemma TakeEvent(l: Limits, s: State) returns (s': State)
    requires Reachable(l, false, s) && s.worker.Poll? && s.counter > 0 && s.events != []
    ensures Reachable(l, false, s')
    ensures s' == Pop(s.(counter := 0))
  {
    hide Reachable;
    var drain := Go(s, Drain);
    Reach(l, false, s, drain);
    Reach(l, false, drain, drain.(counter := 0));
    var recv := Go(drain.(counter := 0), Recv);
    Reach(l, false, drain.(counter := 0), recv);
    s' := Pop(recv);
    Reach(l, false, recv, s');
  }

  /** From a quiet state any event can be sent and dealt with before the next. */
  lemma QuietAgain(l: Limits, s: State, e: Event) returns (s': State)
    requires Reachable(l, false, s) && Quiet(s) && Roomy(l)
    ensures Reachable(l, false, s') && Quiet(s') && s'.pushed == s.pushed + [e]
  {
    hide Reachable;
    var sent := SendEvent(l, s, e);
    var popped := TakeEvent(l, sent);
    if e.good {
      var ack := popped.(eventsSeen := popped.eventsSeen + 1, worker := SendAck);
      Reach(l, false, popped, ack);
      var acked := SendAckStep(ack, true);
      Reach(l, false, ack, acked);
      var taken := TakeAction(acked);
      Reach(l, false, acked, taken);
      popped := Go(taken, Beat);
      Reach(l, false, taken, popped);
    }
    s' := Go(popped, Poll);
    Reach(l, false, popped, s');
  }

  lemma {:induction false} QuietAfter(l: Limits, msgs: seq<Event>) returns (s: State)
    requires Roomy(l)
    ensures Reachable(l, false, s) && Quiet(s) && s.pushed == msgs
  {
    if msgs == [] {
      var init := State([], [Ready], 0, Idle, Poll, 0, 0, [], [Ready], [], []);
      assert Run(l, false, [init]) && [init][|[init]| - 1] == init;
      s := TakeAction(init);
      Reach(l, false, init, s);
    } else {
      var before := QuietAfter(l, msgs[..|msgs| - 1]);
      s := QuietAgain(l, before, msgs[|msgs| - 1]);
      assert msgs == msgs[..|msgs| - 1] + [msgs[|msgs| - 1]];
    }
  }

  /** An event that does not decode ends the inner loop with its successor still in the ring
      and no wake-up left: the worker sleeps on it. */
  lemma BadSleeps(l: Limits, msgs: seq<Event>, k: nat) returns (s: State)
    requires Roomy(l) && k + 1 < |msgs| && !msgs[k].good
    ensures Reachable(l, false, s) && Sends(s, msgs) && !Awake(s)
  {
    hide Reachable;
    var quiet := QuietAfter(l, msgs[..k]);
    var one := SendEvent(l, quiet, msgs[k]);
    var two := SendEvent(l, one, msgs[k + 1]);
    var popped := TakeEvent(l, two);
    s := Go(popped, Poll);
    Reach(l, false, popped, s);
    assert s.pushed == msgs[..k + 2] by {
      assert msgs[..k + 1] == msgs[..k] + [msgs[k]] && msgs[..k + 2] == msgs[..k + 1] + [msgs[k + 1]];
    }
  }

  /** A sequence of events can be sent without a lost wake-up exactly when none of them, except
      perhaps the last, fails to decode, or the ring takes only one event. */
  lemma SafeExactlyWhenHarmless(l: Limits, msgs: seq<Event>)
    requires l.actions >= 1 && l.counter >= 1
    ensures Safe(l, false, msgs) <==> l.events < 2 || forall k | 0 <= k < |msgs| - 1 :: msgs[k].good
  {
    if Harmless(l, msgs) {
      HarmlessIsSafe(l, msgs);
    } else {
      var k :| 0 <= k < |msgs| - 1 && !msgs[k].good;
      var s := BadSleeps(l, msgs, k);
    }
  }

  /** A notification that is given up leaves the worker asleep, even on an event that decodes. */
  lemma FaultSleeps(l: Limits, e: Event) returns (s: State)
    requires l.events >= 1
    ensures Reachable(l, true, s) && s.pushed == [e] && !Awake(s)
  {
    var init := State([], [Ready], 0, Idle, Poll, 0, 0, [], [Ready], [], []);
    assert Run(l, true, [init]) && [init][|[init]| - 1] == init;
    hide Reachable, Run;
    Reach(l, true, init, Push(init, e));
    s := GiveUp(Push(init, e));
    Reach(l, true, Push(init, e), s);
  }

  lemma NothingToLose(l: Limits, msgs: seq<Event>)
    requires l.counter >= 1 && (l.events == 0 || msgs == [])
    ensures Safe(l, true, msgs)
  {
    forall s | Reachable(l, true, s) && Sends(s, msgs)
      ensures Awake(s)
    {
      var run :| Run(l, true, run) && run[|run| - 1] == s;
      RunInv(l, true, run, msgs);
      hide Pops, Run, AckInv;
    }
  }

  /** If notifications may be given up, the only sequences of events that are safe are the empty
      one, and any on a ring that takes none. */
  lemma FaultySafeExactly(l: Limits, msgs: seq<Event>)
    requires l.counter >= 1
    ensures Safe(l, true, msgs) <==> l.events == 0 || msgs == []
  {
    if l.events == 0 || msgs == [] {
      NothingToLose(l, msgs);
    } else {
      var s := FaultSleeps(l, msgs[0]);
      hide Reachable;
      assert Sends(s, msgs);
    }
  }
}
