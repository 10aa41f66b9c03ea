// Pintos/lib/kernel/bitmap.c: an array of 32-bit words that stands for a sequence
// of booleans.
module Bitmap {
  import opened Bits
  import opened Prelude

  const ELEM_BITS := 32

  type Word = w: nat | w < 0x1_0000_0000

  /** The bit of word w that represents bitmap position i. */
  predicate BitOf(w: Word, i: nat) {
    HasBit(w, i % ELEM_BITS)
  }

  /** w | bit_mask(i), or w & ~bit_mask(i) */
  function SetIn(w: Word, i: nat, value: bool): Word {
    Pow2Literals();
    OrBound(w, i % ELEM_BITS, 32);
    hide Pow2, BitOr, BitAndNot;
    if value then BitOr(w, Pow2(i % ELEM_BITS)) else BitAndNot(w, Pow2(i % ELEM_BITS))
  }

  lemma SetInBit(w: Word, i: nat, value: bool, j: nat)
    requires i / ELEM_BITS == j / ELEM_BITS
    ensures BitOf(SetIn(w, i, value), j) == if i == j then value else BitOf(w, j)
  {
    hide HasBit, Pow2, BitOr, BitAndNot;
    SetBit(w, i % ELEM_BITS, j % ELEM_BITS);
  }

  /** Positions start up to start + cnt of v exist and all have the given value. */
  predicate Group(v: seq<bool>, start: nat, cnt: nat, value: bool) {
    start + cnt <= |v| && forall k | start <= k < start + cnt :: v[k] == value
  }

  /** v with cnt positions from start set to the given value. */
  function Filled(v: seq<bool>, start: nat, cnt: nat, value: bool): (r: seq<bool>)
    requires start + cnt <= |v|
    ensures |r| == |v|
    ensures forall k | 0 <= k < |v| :: r[k] == if start <= k < start + cnt then value else v[k]
  {
    v[..start] + seq(cnt, _ => value) + v[start + cnt..]
  }

  class Bitmap {
    const bitCnt: nat
    const bits: array<Word>

    ghost predicate Valid() {
      bitCnt <= bits.Length * ELEM_BITS
    }

    /** The sequence of booleans that the words stand for. */
    ghost function View(): (v: seq<bool>)
      requires Valid()
      reads bits
      ensures |v| == bitCnt
      ensures forall i | 0 <= i < bitCnt :: v[i] == BitOf(bits[i / ELEM_BITS], i)
    {
      seq(bitCnt, i requires 0 <= i < bitCnt reads bits => BitOf(bits[i / ELEM_BITS], i))
    }

    /** bitmap_create */
    constructor (cnt: nat)
      ensures Valid() && bitCnt == cnt && fresh(bits) && bits.Length * ELEM_BITS < cnt + ELEM_BITS
      ensures View() == seq(cnt, _ => false)
    {
      bitCnt := cnt;
      bits := new Word[(cnt + ELEM_BITS - 1) / ELEM_BITS];
      new;
      SetMultiple(0, cnt, false);
    }

    /** bitmap_mark and bitmap_reset, as bitmap_set chooses between them. */
    method Set(idx: nat, value: bool)
      requires Valid() && idx < bitCnt
      modifies bits
      ensures View() == old(View())[idx := value]
    {
      hide BitOf, SetIn;
      var e := idx / ELEM_BITS;
      var w := bits[e];
      bits[e] := SetIn(w, idx, value);
      forall i | 0 <= i < bitCnt
        ensures View()[i] == old(View())[idx := value][i]
      {
        if i / ELEM_BITS == e { SetInBit(w, idx, value, i); }
      }
    }

    /** bitmap_test */
    method Test(idx: nat) returns (value: bool)
      requires Valid() && idx < bitCnt
      ensures value == View()[idx]
    {
      value := BitAnd(bits[idx / ELEM_BITS], Pow2(idx % ELEM_BITS)) != 0;
    }

    method SetMultiple(start: nat, cnt: nat, value: bool)
      requires Valid() && start + cnt <= bitCnt
      modifies bits
      ensures View() == Filled(old(View()), start, cnt, value)
    {
      var i := 0;
      while i < cnt
        invariant 0 <= i <= cnt
        invariant View() == Filled(old(View()), start, i, value)
      {
        Set(start + i, value);
        i := i + 1;
      }
    }

    method Contains(start: nat, cnt: nat, value: bool) returns (found: bool)
      requires Valid() && start + cnt <= bitCnt
      ensures found == !Group(View(), start, cnt, !value)
    {
      var i := 0;
      while i < cnt
        invariant 0 <= i <= cnt
        invariant Group(View(), start, i, !value)
      {
        var b := Test(start + i);
        if b == value { return true; }
        i := i + 1;
      }
      return false;
    }

    /** bitmap_scan: the first group at or after start; None is BITMAP_ERROR. */
    method Scan(start: nat, cnt: nat, value: bool) returns (r: Option<nat>)
      requires Valid() && start <= bitCnt
      ensures r.Some? ==> start <= r.value && Group(View(), r.value, cnt, value)
      ensures forall j | start <= j && (r.Some? ==> j < r.value) :: !Group(View(), j, cnt, value)
      ensures cnt == 0 ==> r == Some(start)
    {
      assert cnt == 0 ==> Group(View(), start, cnt, value);
      if cnt <= bitCnt {
        var last := bitCnt - cnt;
        var i := start;
        while i <= last
          invariant start <= i
          invariant forall j | start <= j < i :: !Group(View(), j, cnt, value)
        {
          var c := Contains(i, cnt, !value);
          if !c { return Some(i); }
          i := i + 1;
        }
      }
      forall j | start <= j
        ensures !Group(View(), j, cnt, value)
      {
        assert j + cnt > bitCnt || j <= bitCnt - cnt;
      }
      return None;
    }

    method ScanAndFlip(start: nat, cnt: nat, value: bool) returns (r: Option<nat>)
      requires Valid() && start <= bitCnt
      modifies bits
      ensures r.Some? ==> start <= r.value && old(Group(View(), r.value, cnt, value))
      ensures forall j | start <= j && (r.Some? ==> j < r.value) :: !Group(old(View()), j, cnt, value)
      ensures View() == if r.Some? then Filled(old(View()), r.value, cnt, !value) else old(View())
      ensures cnt == 0 ==> r == Some(start) && View() == old(View())
    {
      ghost var v := View();
      r := Scan(start, cnt, value);
      assert View() == v;
      if r.Some? { SetMultiple(r.value, cnt, !value); }
    }
  }
}
