// The ring of SPSC/src/engine/ShmSpscRing.cpp as one object that is called by one thread
// at a time, with pushes that overwrite the oldest frame.  SpscRing.dfy has the two threads.
module RingQueue {
  import opened Bits
  import opened Prelude
  import opened SpscRing

  class Ring {
    const slots: array<Slot>
    const maxPayload: nat
    var head: nat
    var tail: nat

    ghost var contents: seq<Frame>
    ghost var popped: nat // how often tail was incremented

    ghost predicate Valid()
      reads this, slots
    {
      && Shape(slots[..], maxPayload)
      && |contents| < slots.Length
      && tail == popped % WRAP && head == (popped + |contents|) % WRAP
      && Stored(slots[..], popped, contents)
    }

    constructor (slotCount: nat, maxPayload: nat, empty: Frame)
      requires IsPow2(slotCount) && 2 <= slotCount <= 0x8000_0000 && |empty| == maxPayload
      ensures Valid() && fresh(slots) && contents == [] && slots.Length == slotCount && this.maxPayload == maxPayload
    {
      slots := new Slot[slotCount](i => Slot(0, empty));
      this.maxPayload, head, tail := maxPayload, 0, 0;
      contents, popped := [], 0;
    }

    method ToIndex(counter: nat, ghost count: nat) returns (i: nat)
      requires Valid() && counter == count % WRAP
      ensures i == count % slots.Length
    {
      WrappedIndex(count, slots.Length);
      i := BitAnd(counter, slots.Length - 1);
    }

    method Size() returns (n: nat)
      requires Valid()
      ensures n == |contents|
    {
      WrapDifference(popped, popped + |contents|, WRAP);
      n := (head - tail) % WRAP;
    }

    method PopDiscardOldest() returns (ok: bool)
      requires Valid()
      modifies `tail, `contents, `popped
      ensures Valid() && (ok <==> old(contents) != [])
      ensures contents == if ok then old(contents)[1..] else []
    {
      WrapDifference(popped, popped + |contents|, WRAP);
      if head == tail {
        return false;
      }
      WrapIncrement(popped, WRAP);
      StoreLess(slots[..], popped, contents);
      tail := (tail + 1) % WRAP;
      contents, popped := contents[1..], popped + 1;
      return true;
    }

    /** The first part of tryPush: a full ring refuses, or loses its oldest frame. */
    method MakeRoom(overwriteOldest: bool) returns (ok: bool)
      requires Valid()
      modifies `tail, `contents, `popped
      ensures Valid() && (ok <==> |old(contents)| + 1 < slots.Length || overwriteOldest)
      ensures contents == if ok && |old(contents)| + 1 == slots.Length then old(contents)[1..] else old(contents)
      ensures ok ==> |contents| + 1 < slots.Length
    {
      WrapDifference(popped, popped + |contents|, WRAP);
      var usableCapacity := slots.Length - 1;
      if (head - tail) % WRAP != usableCapacity {
        return true;
      }
      if !overwriteOldest {
        return false;
      }
      ok := PopDiscardOldest();
    }

    /** The rest of tryPush: the slot is filled, and then head is moved on. */
    method Publish(payload: Frame)
      requires Valid() && |payload| <= maxPayload && |contents| + 1 < slots.Length
      modifies `head, `contents, slots
      ensures Valid() && contents == old(contents) + [payload]
    {
      ghost var count := popped + |contents|;
      var i := ToIndex(head, count);
      ghost var was := slots[..];
      slots[i] := Slot(|payload|, payload + slots[i].payload[|payload|..]);
      assert slots[..] == was[i := slots[i]];
      StoreMore(was, popped, contents, i, payload, slots[i]);
      WrapIncrement(count, WRAP);
      hide Stored, IsPow2;
      head := (head + 1) % WRAP;
      contents := contents + [payload];
    }

    /** tryPush */
    method TryPush(payload: Frame, overwriteOldest: bool) returns (ok: bool)
      requires Valid()
      modifies this, slots
      ensures Valid()
      ensures ok <==> |payload| <= maxPayload && (|old(contents)| + 1 < slots.Length || overwriteOldest)
      ensures contents == if !ok then old(contents)
                          else (if |old(contents)| + 1 < slots.Length then old(contents) else old(contents)[1..])
                               + [payload]
    {
      if |payload| > maxPayload {
        return false;
      }
      assert |contents| < slots.Length;
      hide Valid;
      ok := MakeRoom(overwriteOldest);
      if ok {
        Publish(payload);
      }
    }

    /** tryPop */
    method TryPop() returns (r: Option<Frame>)
      requires Valid()
      modifies `tail, `contents, `popped
      ensures Valid() && (r == None <==> old(contents) == [])
      ensures r.Some? ==> [r.value] + contents == old(contents)
      ensures r == None ==> contents == []
    {
      WrapDifference(popped, popped + |contents|, WRAP);
      if head == tail {
        return None;
      }
      var i := ToIndex(tail, popped);
      StoreLess(slots[..], popped, contents);
      var slot := slots[i];
      assert Holds(slot, contents[0]);
      WrapIncrement(popped, WRAP);
      tail := (tail + 1) % WRAP;
      contents, popped := contents[1..], popped + 1;
      return Some(slot.payload[..slot.size]);
    }
  }

  ghost predicate Shape(slots: seq<Slot>, maxPayload: nat) {
    && IsPow2(|slots|) && 2 <= |slots| <= 0x8000_0000
    && forall i | 0 <= i < |slots| :: |slots[i].payload| == maxPayload
  }

  /** Frame k is in the slot k positions after the counter `from`. */
  predicate InSlot(slots: seq<Slot>, from: nat, frame: Frame, k: nat)
    requires |slots| > 0
  {
    Holds(slots[(from + k) % |slots|], frame)
  }

  ghost predicate Stored(slots: seq<Slot>, from: nat, frames: seq<Frame>)
    requires |slots| > 0
  {
    forall k | 0 <= k < |frames| :: InSlot(slots, from, frames[k], k)
  }

  lemma StoreMore(slots: seq<Slot>, from: nat, frames: seq<Frame>, i: nat, payload: Frame, slot: Slot)
    requires |slots| > 0 && Stored(slots, from, frames) && |frames| + 1 < |slots|
    requires i == (from + |frames|) % |slots| && Holds(slot, payload)
    ensures Stored(slots[i := slot], from, frames + [payload])
  {
    hide Holds;
    var now, more := slots[i := slot], frames + [payload];
    forall k | 0 <= k < |more|
      ensures InSlot(now, from, more[k], k)
    {
      if k < |frames| {
        assert InSlot(slots, from, frames[k], k);
        ModDistinct(from + k, from + |frames|, |slots|);
      }
    }
  }

  /** Dropping the first frame moves the start on by one. */
  lemma StoreLess(slots: seq<Slot>, from: nat, frames: seq<Frame>)
    requires |slots| > 0 && Stored(slots, from, frames) && frames != []
    ensures InSlot(slots, from, frames[0], 0) && Stored(slots, from + 1, frames[1..])
  {
    hide Holds;
    var rest := frames[1..];
    forall k | 0 <= k < |rest|
      ensures InSlot(slots, from + 1, rest[k], k)
    {
      assert InSlot(slots, from, frames[k + 1], k + 1);
      assert from + 1 + k == from + (k + 1);
    }
  }
}
