// The single-producer, single-consumer ring of SPSC/src/engine/ShmSpscRing.cpp,
// as two threads over shared memory.  Every load, store and copied byte is a step
// of its own; the two threads interleave freely.
module SpscRing {
  import opened Bits

  type Frame = seq<bv8>

  // head and tail are 64-bit counters that are never reduced modulo the slot count
  const WRAP: nat := 0x1_0000_0000_0000_0000

  datatype Slot = Slot(size: nat, payload: Frame)

  /** Where tryPush(payload, overwriteOldest = false) is, with its local variables. */
  datatype Producer =
    | PIdle
    | PLoadTail(payload: Frame)
    | PLoadHead(payload: Frame, tail: nat)
    | PTest(payload: Frame, tail: nat, head: nat)
    | PStoreSize(payload: Frame, head: nat)
    | PCopy(payload: Frame, head: nat, k: nat)
    | PStoreHead(payload: Frame, head: nat)

  /** Where tryPop is, with its local variables; slot->size is read once to size
      the output and once more as the length of the copy. */
  datatype Consumer =
    | CIdle
    | CLoadTail
    | CLoadHead(tail: nat)
    | CTest(tail: nat, head: nat)
    | CReadSize(tail: nat)
    | CReadLength(tail: nat, size: nat)
    | CCopy(tail: nat, size: nat, length: nat, out: Frame)
    | CStoreTail(tail: nat, size: nat, out: Frame)

  /** What has happened so far; no step depends on it. */
  datatype History = History(pushed: seq<Frame>, popped: seq<Frame>, tailSeen: nat)

  datatype State = State(maxPayload: nat, slots: seq<Slot>, head: nat, tail: nat,
                         prod: Producer, cons: Consumer, hist: History)
  {
    function SlotCount(): nat { |slots| }

    /** toIndex: the counter masked with slotCount - 1. */
    function ToIndex(counter: nat): nat
      requires SlotCount() > 0
    {
      BitAnd(counter, SlotCount() - 1)
    }
  }

  /** A created ring: slotCount is a power of two between 2 and 2^31. */
  ghost predicate Init(s: State) {
    && IsPow2(s.SlotCount()) && 2 <= s.SlotCount() <= 0x8000_0000
    && (forall i | 0 <= i < |s.slots| :: s.slots[i].size == 0 && |s.slots[i].payload| == s.maxPayload)
    && s.head == 0 && s.tail == 0
    && s.prod == PIdle && s.cons == CIdle && s.hist == History([], [], 0)
  }

  /** Every access the two threads are about to make stays inside the mapping:
      frames and recorded sizes fit the payload area of a slot. */
  predicate InBounds(s: State) {
    && s.SlotCount() > 0
    && (forall i | 0 <= i < |s.slots| :: |s.slots[i].payload| == s.maxPayload && s.slots[i].size <= s.maxPayload)
    && (s.prod != PIdle ==> |s.prod.payload| <= s.maxPayload)
    && (s.prod.PCopy? ==> s.prod.k <= |s.prod.payload|)
    && (s.cons.CCopy? ==> |s.cons.out| <= s.cons.length <= s.maxPayload)
  }

  /** One step of a tryPush that is under way. */
  function Produce(s: State): State
    requires InBounds(s) && s.prod != PIdle
  {
    match s.prod
    case PLoadTail(p) => s.(prod := PLoadHead(p, s.tail), hist := s.hist.(tailSeen := |s.hist.popped|))
    case PLoadHead(p, tail) => s.(prod := PTest(p, tail, s.head))
    case PTest(p, tail, head) =>
      if (head - tail) % WRAP == s.SlotCount() - 1 then s.(prod := PIdle) // return false
      else s.(prod := PStoreSize(p, head))
    case PStoreSize(p, head) =>
      var i := s.ToIndex(head);
      s.(slots := s.slots[i := s.slots[i].(size := |p|)], prod := PCopy(p, head, 0))
    case PCopy(p, head, k) =>
      if k == |p| then s.(prod := PStoreHead(p, head))
      else
        var i := s.ToIndex(head);
        s.(slots := s.slots[i := s.slots[i].(payload := s.slots[i].payload[k := p[k]])], prod := PCopy(p, head, k + 1))
    case PStoreHead(p, head) =>
      s.(head := (head + 1) % WRAP, prod := PIdle, hist := s.hist.(pushed := s.hist.pushed + [p])) // return true
  }

  /** One step of the consumer, which may start a new tryPop whenever it is idle. */
  function Consume(s: State): State
    requires InBounds(s)
  {
    match s.cons
    case CIdle => s.(cons := CLoadTail)
    case CLoadTail => s.(cons := CLoadHead(s.tail))
    case CLoadHead(tail) => s.(cons := CTest(tail, s.head))
    case CTest(tail, head) =>
      if head == tail then s.(cons := CIdle) // return false
      else s.(cons := CReadSize(tail))
    case CReadSize(tail) => s.(cons := CReadLength(tail, s.slots[s.ToIndex(tail)].size))
    case CReadLength(tail, size) => s.(cons := CCopy(tail, size, s.slots[s.ToIndex(tail)].size, []))
    case CCopy(tail, size, length, out) =>
      if |out| == length then s.(cons := CStoreTail(tail, size, out))
      else s.(cons := CCopy(tail, size, length, out + [s.slots[s.ToIndex(tail)].payload[|out|]]))
    case CStoreTail(tail, size, out) =>
      s.(tail := (tail + 1) % WRAP, cons := CIdle, hist := s.hist.(popped := s.hist.popped + [out])) // return true
  }

  /** tryPush is entered; a frame that is too long is refused before anything is read. */
  function StartPush(s: State, payload: Frame): State {
    if |payload| > s.maxPayload then s else s.(prod := PLoadTail(payload))
  }

  ghost predicate Next(s: State, t: State) {
    && InBounds(s)
    && (|| (s.prod == PIdle && exists p :: t == StartPush(s, p))
        || (s.prod != PIdle && t == Produce(s))
        || t == Consume(s))
  }

  // ----- The invariant -----

  /** The slot stores exactly the frame f. */
  predicate Holds(slot: Slot, f: Frame) {
    slot.size == |f| <= |slot.payload| && slot.payload[..|f|] == f
  }

  ghost predicate Counters(s: State) {
    var n, h := s.SlotCount(), s.hist;
    && IsPow2(n) && 2 <= n <= 0x8000_0000
    && |h.popped| <= |h.pushed| < |h.popped| + n
    && s.head == |h.pushed| % WRAP && s.tail == |h.popped| % WRAP
    && h.popped == h.pushed[..|h.popped|]
  }

  /** The frames that were pushed and not yet popped are in the slots [tail, head). */
  ghost predicate Queued(s: State)
    requires s.SlotCount() > 0
  {
    forall i | |s.hist.popped| <= i < |s.hist.pushed| :: Holds(s.slots[i % s.SlotCount()], s.hist.pushed[i])
  }

  ghost predicate ProducerInv(s: State)
    requires Counters(s)
  {
    var n, h := s.SlotCount(), s.hist;
    var slot := s.slots[|h.pushed| % n];
    match s.prod
    case PIdle => true
    case PLoadTail(_) => true
    case PLoadHead(_, tail) => tail == h.tailSeen % WRAP && h.tailSeen <= |h.popped| && |h.pushed| < h.tailSeen + n
    case PTest(_, tail, head) =>
      head == s.head && tail == h.tailSeen % WRAP && h.tailSeen <= |h.popped| && |h.pushed| < h.tailSeen + n
    case PStoreSize(_, head) => head == s.head && |h.pushed| + 1 < |h.popped| + n
    case PCopy(p, head, k) =>
      && head == s.head && |h.pushed| + 1 < |h.popped| + n
      && slot.size == |p| && k <= |p| <= |slot.payload| && slot.payload[..k] == p[..k]
    case PStoreHead(p, head) => head == s.head && |h.pushed| + 1 < |h.popped| + n && Holds(slot, p)
  }

  ghost predicate ConsumerInv(s: State)
    requires Counters(s)
  {
    var h := s.hist;
    var some := |h.popped| < |h.pushed|;
    match s.cons
    case CIdle => true
    case CLoadTail => true
    case CLoadHead(tail) => tail == s.tail
    case CTest(tail, head) => tail == s.tail && (head != tail ==> some)
    case CReadSize(tail) => tail == s.tail && some
    case CReadLength(tail, size) => tail == s.tail && some && size == |h.pushed[|h.popped|]|
    case CCopy(tail, size, length, out) =>
      tail == s.tail && some && size == length == |h.pushed[|h.popped|]| && out <= h.pushed[|h.popped|]
    case CStoreTail(tail, size, out) => tail == s.tail && some && size == |out| && out == h.pushed[|h.popped|]
  }

  ghost predicate Inv(s: State) {
    Counters(s) && InBounds(s) && Queued(s) && ProducerInv(s) && ConsumerInv(s)
  }

  // ----- Counters that wrap -----

  /** Masking a counter that wrapped at 2^64 gives the position of the unbounded counter. */
  lemma WrappedIndex(count: nat, n: nat)
    requires IsPow2(n) && n <= 0x8000_0000
    ensures BitAnd(count % WRAP, n - 1) == count % n
  {
    var k := IsPow2Exponent(n);
    Pow2Literals();
    if k > 31 { Pow2Monotonic(32, k); }
    Pow2Add(k, 64 - k);
    ModMultiple(count, n, Pow2(64 - k));
    MaskIsMod(count % WRAP, n);
  }

  lemma IndexSurvivesWrap(s: State, count: nat)
    requires IsPow2(s.SlotCount()) && s.SlotCount() <= 0x8000_0000
    ensures s.ToIndex(count % WRAP) == count % s.SlotCount()
  {
    WrappedIndex(count, s.SlotCount());
  }

  /** The fill level read from the two counters is exact. */
  lemma Level(s: State, tailSeen: nat)
    requires Counters(s)
    requires tailSeen <= |s.hist.pushed| < tailSeen + s.SlotCount()
    ensures (s.head - tailSeen % WRAP) % WRAP == |s.hist.pushed| - tailSeen
  {
    hide IsPow2, BitAnd;
    WrapDifference(tailSeen, |s.hist.pushed|, WRAP);
  }

  // ----- Each step keeps the invariant -----

  /** Writing the slot at head leaves every readable slot alone. */
  lemma WriteKeepsQueue(s: State, t: State)
    requires Inv(s) && Counters(t)
    requires |s.hist.pushed| + 1 < |s.hist.popped| + s.SlotCount()
    requires t.hist == s.hist && t.SlotCount() == s.SlotCount()
    requires forall i | 0 <= i < |s.slots| && i != |s.hist.pushed| % s.SlotCount() :: t.slots[i] == s.slots[i]
    ensures Queued(t)
    ensures |s.hist.popped| < |s.hist.pushed| ==>
      t.slots[|s.hist.popped| % s.SlotCount()] == s.slots[|s.hist.popped| % s.SlotCount()]
  {
    hide IsPow2, BitAnd;
    forall i | |s.hist.popped| <= i < |s.hist.pushed|
      ensures t.slots[i % s.SlotCount()] == s.slots[i % s.SlotCount()]
    {
      ModDistinct(i, |s.hist.pushed|, s.SlotCount());
    }
  }

  lemma ProduceWrites(s: State)
    requires Inv(s) && (s.prod.PStoreSize? || s.prod.PCopy?)
    ensures Inv(Produce(s))
  {
    hide IsPow2, BitAnd;
    IndexSurvivesWrap(s, |s.hist.pushed|);
    var t := Produce(s);
    WriteKeepsQueue(s, t);
    if s.prod.PCopy? && s.prod.k < |s.prod.payload| {
      var i, k, p := |s.hist.pushed| % s.SlotCount(), s.prod.k, s.prod.payload;
      assert t.slots[i].payload[..k + 1] == s.slots[i].payload[..k] + [p[k]] == p[..k + 1];
    }
  }

  lemma ProducePublishes(s: State)
    requires Inv(s) && s.prod.PStoreHead?
    ensures Inv(Produce(s))
  {
    hide IsPow2, BitAnd;
    WrapIncrement(|s.hist.pushed|, WRAP);
    var t := Produce(s);
    assert t.hist.pushed[..|t.hist.popped|] == s.hist.pushed[..|s.hist.popped|];
  }

  lemma ProduceLoads(s: State)
    requires Inv(s) && (s.prod.PLoadTail? || s.prod.PLoadHead? || s.prod.PTest?)
    ensures Inv(Produce(s))
  {
    hide IsPow2, BitAnd;
    if s.prod.PTest? { Level(s, s.hist.tailSeen); }
  }

  lemma ConsumeLoads(s: State)
    requires Inv(s) && (s.cons.CIdle? || s.cons.CLoadTail? || s.cons.CLoadHead? || s.cons.CTest?)
    ensures Inv(Consume(s))
  {
    hide IsPow2, BitAnd;
  }

  lemma ConsumeReads(s: State)
    requires Inv(s) && (s.cons.CReadSize? || s.cons.CReadLength? || s.cons.CCopy?)
    ensures Inv(Consume(s))
  {
    hide IsPow2, BitAnd;
    IndexSurvivesWrap(s, |s.hist.popped|);
    var f := s.hist.pushed[|s.hist.popped|];
    assert Holds(s.slots[|s.hist.popped| % s.SlotCount()], f);
    if s.cons.CCopy? && |s.cons.out| < s.cons.length {
      var slot := s.slots[|s.hist.popped| % s.SlotCount()];
      assert slot.payload[..|f|][|s.cons.out|] == f[|s.cons.out|];
    }
  }

  lemma ConsumeReleases(s: State)
    requires Inv(s) && s.cons.CStoreTail?
    ensures Inv(Consume(s))
  {
    hide IsPow2, BitAnd;
    WrapIncrement(|s.hist.popped|, WRAP);
    var t := Consume(s);
    assert t.hist.popped == s.hist.pushed[..|s.hist.popped|] + [s.hist.pushed[|s.hist.popped|]];
  }

  lemma InitInv(s: State)
    requires Init(s)
    ensures Inv(s)
  {
  }

  lemma NextInv(s: State, t: State)
    requires Inv(s) && Next(s, t)
    ensures Inv(t)
  {
    hide IsPow2, BitAnd;
    if t == Consume(s) {
      if s.cons.CReadSize? || s.cons.CReadLength? || s.cons.CCopy? { ConsumeReads(s); }
      else if s.cons.CStoreTail? { ConsumeReleases(s); }
      else { ConsumeLoads(s); }
    } else if s.prod != PIdle {
      if s.prod.PStoreSize? || s.prod.PCopy? { ProduceWrites(s); }
      else if s.prod.PStoreHead? { ProducePublishes(s); }
      else { ProduceLoads(s); }
    }
  }

  // ----- Runs -----

  ghost predicate Steps(run: seq<State>) {
    && run != []
    && forall i, j | 0 <= i < |run| && j == i + 1 && j < |run| :: Next(run[i], run[j])
  }

  ghost predicate IsRun(run: seq<State>) { Steps(run) && Init(run[0]) }

  lemma {:induction false} RunInv(run: seq<State>)
    requires IsRun(run)
    ensures Inv(run[|run| - 1])
  {
    var n := |run| - 1;
    if n == 0 {
      InitInv(run[0]);
    } else {
      RunInv(run[..n]);
      NextInv(run[n - 1], run[n]);
    }
  }

  /** The frames in `count` consecutive slots, as a reader would find them. */
  function Contents(s: State, from: nat, count: nat): seq<Frame>
    requires InBounds(s)
    decreases count
  {
    if count == 0 then []
    else
      var slot := s.slots[from % s.SlotCount()];
      [slot.payload[..slot.size]] + Contents(s, from + 1, count - 1)
  }

  lemma {:induction false} QueueContents(s: State, from: nat, count: nat)
    requires InBounds(s) && Queued(s)
    requires |s.hist.popped| <= from && from + count == |s.hist.pushed|
    ensures Contents(s, from, count) == s.hist.pushed[from..]
    decreases count
  {
    if count > 0 {
      QueueContents(s, from + 1, count - 1);
      assert Holds(s.slots[from % s.SlotCount()], s.hist.pushed[from]);
    }
  }

  /** In every interleaving, the pushed frames are the popped frames followed by the
      frames in the ring, byte for byte, whatever the counters' wrap-around. */
  lemma Fifo(run: seq<State>)
    requires IsRun(run)
    ensures var s := run[|run| - 1];
      && InBounds(s)
      && s.hist.pushed == s.hist.popped + Contents(s, |s.hist.popped|, (s.head - s.tail) % WRAP)
      && |s.hist.pushed| - |s.hist.popped| == (s.head - s.tail) % WRAP <= s.SlotCount() - 1
  {
    RunInv(run);
    var s := run[|run| - 1];
    Level(s, |s.hist.popped|);
    QueueContents(s, |s.hist.popped|, |s.hist.pushed| - |s.hist.popped|);
  }

  /** While the producer writes a slot, the consumer may read none of its bytes. */
  lemma NoWriteWhileReadable(run: seq<State>, i: nat)
    requires IsRun(run)
    requires var s := run[|run| - 1];
      (s.prod.PStoreSize? || s.prod.PCopy?) && |s.hist.popped| <= i < |s.hist.pushed|
    ensures var s := run[|run| - 1]; s.SlotCount() > 0 && s.ToIndex(s.prod.head) != s.ToIndex(i % WRAP)
  {
    RunInv(run);
    var s := run[|run| - 1];
    IndexSurvivesWrap(s, |s.hist.pushed|);
    IndexSurvivesWrap(s, i);
    ModDistinct(i, |s.hist.pushed|, s.SlotCount());
  }

  /** tryPop finds nothing exactly when every pushed frame had been popped as head was loaded. */
  lemma EmptyIsExact(s: State)
    requires Inv(s) && s.cons.CLoadHead?
    ensures InBounds(Consume(s)) && (Consume(Consume(s)).cons == CIdle <==> s.hist.pushed == s.hist.popped)
  {
    hide IsPow2, BitAnd;
    Level(s, |s.hist.popped|);
    assert s.hist.popped == s.hist.pushed[..|s.hist.popped|];
  }

  /** tryPush fails exactly when the ring was full as tail was loaded. */
  lemma FullIsExact(s: State)
    requires Inv(s) && s.prod.PTest?
    ensures Produce(s).prod == PIdle <==> |s.hist.pushed| - s.hist.tailSeen == s.SlotCount() - 1
  {
    hide IsPow2, BitAnd;
    Level(s, s.hist.tailSeen);
  }

  lemma StepsFirst(s: State, run: seq<State>)
    requires Steps(run) && Next(s, run[0])
    ensures Steps([s] + run)
  {
    hide Next;
    forall i, j | 0 <= i < |run| + 1 && j == i + 1 && j < |run| + 1
      ensures Next(([s] + run)[i], ([s] + run)[j])
    {
      if i > 0 { assert ([s] + run)[i] == run[i - 1] && ([s] + run)[j] == run[j - 1]; }
    }
  }

  /** The producer has come to an end: the frame is pushed, and the consumer is where it was. */
  predicate Pushed(s: State, payload: Frame, t: State) {
    && t.prod == PIdle && t.hist.pushed == s.hist.pushed + [payload]
    && t.hist.popped == s.hist.popped && t.cons == s.cons
  }

  lemma {:induction false} CopyEnds(s: State, payload: Frame) returns (run: seq<State>)
    requires Inv(s) && (s.prod.PCopy? || s.prod.PStoreHead?) && s.prod.payload == payload
    ensures Steps(run) && run[0] == s && Pushed(s, payload, run[|run| - 1])
    decreases s.prod.PCopy?, if s.prod.PCopy? then |payload| - s.prod.k else 0
  {
    hide Counters, Queued, ConsumerInv;
    var t := Produce(s);
    NextInv(s, t);
    if s.prod.PStoreHead? {
      run := [s, t];
    } else {
      var rest := CopyEnds(t, payload);
      StepsFirst(s, rest);
      run := [s] + rest;
    }
  }

  /** From when tryPush has found room. */
  lemma WriteEnds(s: State, payload: Frame) returns (run: seq<State>)
    requires Inv(s) && s.prod.PStoreSize? && s.prod.payload == payload
    ensures Steps(run) && run[0] == s && Pushed(s, payload, run[|run| - 1])
  {
    hide Counters, Queued, ConsumerInv;
    var t := Produce(s);
    NextInv(s, t);
    var rest := CopyEnds(t, payload);
    StepsFirst(s, rest);
    run := [s] + rest;
  }

  lemma TestEnds(s: State, payload: Frame) returns (t: State)
    requires Inv(s) && s.prod == PLoadTail(payload) && |s.hist.pushed| - |s.hist.popped| < s.SlotCount() - 1
    ensures Next(s, Produce(s)) && Inv(Produce(s)) && Next(Produce(s), Produce(Produce(s)))
    ensures Inv(Produce(Produce(s))) && Next(Produce(Produce(s)), t)
    ensures Inv(t) && t.prod.PStoreSize? && t.prod.payload == payload && t.hist.pushed == s.hist.pushed
    ensures t.hist.popped == s.hist.popped && t.cons == s.cons
  {
    var a := Produce(s);
    NextInv(s, a);
    var b := Produce(a);
    NextInv(a, b);
    t := Produce(b);
    NextInv(b, t);
    FullIsExact(b);
  }

  /** tryPush of a frame that fits, into a ring with room, pushes it when nothing comes between. */
  lemma PushSucceeds(s: State, payload: Frame) returns (run: seq<State>)
    requires Inv(s) && s.prod == PIdle
    requires |payload| <= s.maxPayload && |s.hist.pushed| - |s.hist.popped| < s.SlotCount() - 1
    ensures Steps(run) && run[0] == s && Pushed(s, payload, run[|run| - 1])
  {
    var a := StartPush(s, payload);
    NextInv(s, a);
    assert Next(s, a);
    hide Inv, Next;
    var t := TestEnds(a, payload);
    var b := Produce(a);
    var c := Produce(b);
    run := WriteEnds(t, payload);
    StepsFirst(c, run);
    StepsFirst(b, [c] + run);
    StepsFirst(a, [b] + ([c] + run));
    StepsFirst(s, [a] + ([b] + ([c] + run)));
    run := [s] + ([a] + ([b] + ([c] + run)));
  }
}
