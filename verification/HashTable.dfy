// The chained hash table of Pintos/lib/kernel/hash.c.  A bucket is the sequence of
// the elements on its list (KernelList.dfy proves the list itself).
module HashTable {
  import opened Bits
  import opened Prelude
  import opened KernelListSpec

  // ----- The power-of-two helpers of rehash -----

  function TurnOffLeast1Bit(x: nat): nat
    requires x > 0
  {
    BitAnd(x, x - 1)
  }

  predicate IsPowerOf2(x: nat) {
    x != 0 && TurnOffLeast1Bit(x) == 0
  }

  lemma {:induction false} AndSelf(x: nat)
    ensures BitAnd(x, x) == x
  {
    if x > 0 { AndSelf(x / 2); }
  }

  lemma TurnOffStep(x: nat)
    requires x > 0
    ensures x % 2 == 1 ==> TurnOffLeast1Bit(x) == x - 1
    ensures x % 2 == 0 ==> TurnOffLeast1Bit(x) == 2 * TurnOffLeast1Bit(x / 2)
  {
    if x % 2 == 1 {
      AndSelf(x / 2);
    } else {
      assert (x - 1) / 2 == x / 2 - 1;
    }
  }

  /** The bit trick tests exactly for the powers of two. */
  lemma {:induction false} IsPowerOf2Correct(x: nat)
    ensures IsPowerOf2(x) <==> IsPow2(x)
  {
    if x > 0 {
      TurnOffStep(x);
      if x % 2 == 0 { IsPowerOf2Correct(x / 2); }
    }
  }

  /** Turning off the lowest bit keeps the highest one, unless they are the same bit. */
  lemma {:induction false} TurnOffKeepsTop(x: nat, p: nat)
    requires IsPow2(p) && p < x < 2 * p
    ensures p <= TurnOffLeast1Bit(x) < x
  {
    TurnOffStep(x);
    if x % 2 == 0 { TurnOffKeepsTop(x / 2, p / 2); }
  }

  lemma {:induction false} TopBit(x: nat) returns (p: nat)
    requires x > 0
    ensures IsPow2(p) && p <= x < 2 * p
  {
    if x == 1 {
      p := 1;
    } else {
      var q := TopBit(x / 2);
      p := 2 * q;
    }
  }

  /** The bucket count that rehash wants for elemCnt elements. */
  method BestBucketCnt(elemCnt: nat) returns (n: nat)
    ensures IsPow2(n) && n >= 4
    ensures n <= (if elemCnt / 2 < 4 then 4 else elemCnt / 2) < 2 * n
  {
    n := elemCnt / 2;
    if n < 4 {
      n := 4;
    }
    ghost var best := n;
    ghost var p := TopBit(best);
    while !IsPowerOf2(n)
      invariant p <= n <= best
      decreases n
    {
      IsPowerOf2Correct(n);
      TurnOffKeepsTop(n, p);
      n := TurnOffLeast1Bit(n);
    }
    IsPowerOf2Correct(n);
    SmallPow2(n);
    if n != p { Pow2Gap(n, p); }
  }

  lemma SmallPow2(n: nat)
    requires IsPow2(n)
    ensures n != 3
  {
  }

  /** There is no power of two strictly between p and 2 * p. */
  lemma {:induction false} Pow2Gap(n: nat, p: nat)
    requires IsPow2(n) && IsPow2(p) && p < n
    ensures 2 * p <= n
  {
    if p > 1 { Pow2Gap(n / 2, p / 2); }
  }

  // ----- Buckets -----

  /** find_bucket */
  function BucketIndex<E>(hash: E -> nat, e: E, n: nat): (i: nat)
    requires n > 0
    ensures i < n
  {
    BitAnd(hash(e), n - 1)
  }

  lemma BucketIndexIsRemainder<E>(hash: E -> nat, e: E, n: nat)
    requires IsPow2(n)
    ensures BucketIndex(hash, e, n) == hash(e) % n
  {
    MaskIsMod(hash(e), n);
  }

  ghost predicate Holds<E(!new)>(hash: E -> nat, b: seq<seq<E>>, e: E) {
    |b| > 0 && e in b[BucketIndex(hash, e, |b|)]
  }

  /** Every element is in the bucket that its hash selects, once. */
  ghost predicate Placed<E(!new)>(hash: E -> nat, b: seq<seq<E>>) {
    && (forall i | 0 <= i < |b| :: Distinct(b[i]))
    && (forall i, e | 0 <= i < |b| && e in b[i] :: BucketIndex(hash, e, |b|) == i)
  }

  lemma PushElem<E(!new)>(hash: E -> nat, b: seq<seq<E>>, e: E, i: nat)
    requires |b| > 0 && Placed(hash, b) && !Holds(hash, b, e) && i == BucketIndex(hash, e, |b|)
    ensures Placed(hash, b[i := [e] + b[i]])
    ensures forall x :: Holds(hash, b[i := [e] + b[i]], x) <==> x == e || Holds(hash, b, x)
  {
  }

  lemma TakeElem<E(!new)>(hash: E -> nat, b: seq<seq<E>>, e: E, i: nat, k: nat)
    requires i < |b| && k < |b[i]| && b[i][k] == e && Placed(hash, b)
    ensures Placed(hash, b[i := b[i][..k] + b[i][k + 1..]])
    ensures forall x :: Holds(hash, b[i := b[i][..k] + b[i][k + 1..]], x) <==> x != e && Holds(hash, b, x)
  {
    var s, t := b[i], b[i][..k] + b[i][k + 1..];
    forall x
      ensures x in t <==> x != e && x in s
    {
      if x in s {
        var j :| 0 <= j < |s| && s[j] == x;
        assert j < k ==> t[j] == x;
        assert j > k ==> t[j - 1] == x;
      }
    }
    var b' := b[i := t];
    forall x
      ensures Holds(hash, b', x) <==> x != e && Holds(hash, b, x)
    {
      assert e in s;
    }
  }

  /** While rehash moves elements from b, whose first i buckets are empty, to c. */
  ghost predicate Moving<E(!new)>(hash: E -> nat, b: seq<seq<E>>, i: nat, c: seq<seq<E>>, contents: set<E>) {
    && Placed(hash, b) && Placed(hash, c)
    && (forall j | 0 <= j < i && j < |b| :: b[j] == [])
    && (forall e :: e in contents <==> Holds(hash, b, e) || Holds(hash, c, e))
    && (forall e :: !(Holds(hash, b, e) && Holds(hash, c, e)))
  }

  lemma MoveElem<E(!new)>(hash: E -> nat, b: seq<seq<E>>, i: nat, c: seq<seq<E>>, j: nat, contents: set<E>, e: E)
    requires Moving(hash, b, i, c, contents) && i < |b| && b[i] != [] && e == b[i][0]
    requires |c| > 0 && j == BucketIndex(hash, e, |c|)
    ensures Moving(hash, b[i := b[i][1..]], i, c[j := [e] + c[j]], contents)
  {
    hide BucketIndex;
    TakeElem(hash, b, e, i, 0);
    assert b[i][..0] + b[i][1..] == b[i][1..];
    assert Holds(hash, b, e);
    PushElem(hash, c, e, j);
    var b', c' := b[i := b[i][1..]], c[j := [e] + c[j]];
    hide Placed, Holds;
    assert forall x :: Holds(hash, b', x) <==> x != e && Holds(hash, b, x);
    assert forall x :: Holds(hash, c', x) <==> x == e || Holds(hash, c, x);
  }

  lemma BucketEmptied<E(!new)>(hash: E -> nat, b: seq<seq<E>>, i: nat, c: seq<seq<E>>, contents: set<E>)
    requires Moving(hash, b, i, c, contents) && i < |b| && b[i] == []
    ensures Moving(hash, b, i + 1, c, contents)
  {
  }

  lemma MovingDone<E(!new)>(hash: E -> nat, b: seq<seq<E>>, c: seq<seq<E>>, contents: set<E>)
    requires Moving(hash, b, |b|, c, contents)
    ensures Placed(hash, c)
    ensures forall e :: e in contents <==> Holds(hash, c, e)
  {
  }

  /** While hash_clear takes elements out of b, whose first i buckets are empty. */
  ghost predicate Draining<E(!new)>(hash: E -> nat, b: seq<seq<E>>, i: nat, gone: seq<E>, contents: set<E>) {
    && Placed(hash, b) && Distinct(gone)
    && (forall j | 0 <= j < i && j < |b| :: b[j] == [])
    && (forall e :: e in contents <==> Holds(hash, b, e) || e in gone)
    && (forall e :: !(Holds(hash, b, e) && e in gone))
  }

  lemma DrainElem<E(!new)>(hash: E -> nat, b: seq<seq<E>>, i: nat, gone: seq<E>, contents: set<E>, e: E)
    requires Draining(hash, b, i, gone, contents) && i < |b| && b[i] != [] && e == b[i][0]
    ensures Draining(hash, b[i := b[i][1..]], i, gone + [e], contents)
  {
    hide BucketIndex;
    TakeElem(hash, b, e, i, 0);
    assert b[i][..0] + b[i][1..] == b[i][1..];
    assert Holds(hash, b, e);
    var b' := b[i := b[i][1..]];
    hide Placed, Holds;
    assert forall x :: Holds(hash, b', x) <==> x != e && Holds(hash, b, x);
  }

  /** Equal elements hash alike: what hash.h asks of the two callbacks. */
  ghost predicate Respects<E(!new)>(less: (E, E) -> bool, hash: E -> nat) {
    forall x, y :: Equal(less, x, y) ==> hash(x) == hash(y)
  }

  /** A set in which no two elements are equal in the sense of less. */
  ghost predicate Keyed<E>(less: (E, E) -> bool, s: set<E>) {
    forall x, y | x in s && y in s && Equal(less, x, y) :: x == y
  }

  ghost function Matches<E>(less: (E, E) -> bool, s: set<E>, e: E): set<E> {
    set x | x in s && Equal(less, x, e)
  }

  /** r is an element equal to e, if there is one. */
  ghost predicate Found<E>(less: (E, E) -> bool, s: set<E>, e: E, r: Option<E>) {
    Matches(less, s, e) == if r.Some? then {r.value} else {}
  }

  class Table<E(!new, ==)> {
    const hash: E -> nat
    const less: (E, E) -> bool
    var buckets: array<seq<E>>
    var bucketCnt: nat
    var elemCnt: nat

    ghost var contents: set<E>

    ghost predicate Valid()
      reads this, buckets
    {
      && StrictWeakOrder(less) && Respects(less, hash)
      && buckets.Length == bucketCnt && bucketCnt >= 4 && IsPow2(bucketCnt)
      && Placed(hash, buckets[..])
      && (forall e :: e in contents <==> Holds(hash, buckets[..], e))
      && Keyed(less, contents)
      && elemCnt == |contents|
    }

    /** What rehash aims at; it holds after every change whose malloc succeeds. */
    predicate Balanced()
      reads this
    {
      elemCnt < 4 * bucketCnt && (bucketCnt == 4 || 2 * bucketCnt <= elemCnt)
    }

    /** What hash_init sets up. */
    constructor (hash: E -> nat, less: (E, E) -> bool)
      requires StrictWeakOrder(less) && Respects(less, hash)
      ensures Valid() && fresh(buckets) && Balanced()
      ensures this.hash == hash && this.less == less && contents == {}
    {
      this.hash, this.less := hash, less;
      elemCnt, bucketCnt := 0, 4;
      buckets := new seq<E>[4](i => []);
      contents := {};
      new;
      assert IsPow2(4);
    }

    /** hash_clear; `destroyed` lists the calls of the destructor. */
    method Clear() returns (destroyed: seq<E>)
      requires Valid()
      modifies this`elemCnt, this`contents, buckets
      ensures Valid() && contents == {}
      ensures Distinct(destroyed) && forall e :: e in destroyed <==> e in old(contents)
    {
      destroyed := [];
      var i := 0;
      while i < bucketCnt
        invariant 0 <= i <= bucketCnt
        invariant Draining(hash, buckets[..], i, destroyed, contents)
        modifies buckets
      {
        while buckets[i] != []
          invariant Draining(hash, buckets[..], i, destroyed, contents)
          decreases |buckets[i]|
          modifies buckets
        {
          ghost var was := buckets[..];
          DrainElem(hash, was, i, destroyed, contents, buckets[i][0]);
          destroyed := destroyed + [buckets[i][0]];
          buckets[i] := buckets[i][1..];
          assert buckets[..] == was[i := was[i][1..]];
        }
        i := i + 1;
      }
      elemCnt := 0;
      contents := {};
    }

    /** find_bucket and find_elem */
    method FindElem(e: E) returns (r: Option<E>, i: nat, k: nat)
      requires Valid()
      ensures Found(less, contents, e, r)
      ensures bucketCnt > 0 && i == BucketIndex(hash, e, bucketCnt) && i < buckets.Length
      ensures r.Some? ==> k < |buckets[i]| && buckets[i][k] == r.value
    {
      i := BucketIndex(hash, e, bucketCnt);
      k := 0;
      while k < |buckets[i]|
        invariant 0 <= k <= |buckets[i]|
        invariant forall j | 0 <= j < k :: !Equal(less, buckets[i][j], e)
      {
        var hi := buckets[i][k];
        if !less(hi, e) && !less(e, hi) {
          assert Holds(hash, buckets[..], hi);
          return Some(hi), i, k;
        }
        k := k + 1;
      }
      r := None;
    }

    /** insert_elem */
    method InsertElem(e: E, i: nat)
      requires Valid() && Matches(less, contents, e) == {} && bucketCnt > 0 && i == BucketIndex(hash, e, bucketCnt)
      modifies this`elemCnt, this`contents, buckets
      ensures Valid() && contents == old(contents) + {e}
    {
      assert Equal(less, e, e) && (e in contents ==> e in Matches(less, contents, e));
      PushElem(hash, buckets[..], e, i);
      ghost var was := buckets[..];
      elemCnt := elemCnt + 1;
      buckets[i] := [e] + buckets[i];
      contents := contents + {e};
      assert buckets[..] == was[i := [e] + was[i]];
    }

    /** remove_elem of the element at position k of bucket i. */
    method RemoveElem(i: nat, k: nat)
      requires Valid() && i < buckets.Length && k < |buckets[i]|
      modifies this`elemCnt, this`contents, buckets
      ensures Valid() && contents == old(contents) - {old(buckets[i][k])}
    {
      ghost var e, was := buckets[i][k], buckets[..];
      TakeElem(hash, was, e, i, k);
      assert Holds(hash, was, e);
      elemCnt := elemCnt - 1;
      buckets[i] := buckets[i][..k] + buckets[i][k + 1..];
      contents := contents - {e};
      assert buckets[..] == was[i := was[i][..k] + was[i][k + 1..]];
    }

    /** rehash; `hasMemory` tells whether its malloc would succeed. */
    method Rehash(hasMemory: bool)
      requires Valid()
      modifies this`buckets, this`bucketCnt, buckets
      ensures Valid() && (buckets == old(buckets) || fresh(buckets))
      ensures if hasMemory then Balanced() else bucketCnt == old(bucketCnt)
    {
      var newBucketCnt := BestBucketCnt(elemCnt);
      if newBucketCnt == bucketCnt || !hasMemory {
        return;
      }
      var oldBuckets := buckets;
      buckets := new seq<E>[newBucketCnt](i => []);
      bucketCnt := newBucketCnt;
      MoveAll(oldBuckets);
    }

    /** The loops of rehash. */
    method MoveAll(oldBuckets: array<seq<E>>)
      requires oldBuckets != buckets && bucketCnt == buckets.Length > 0
      requires Moving(hash, oldBuckets[..], 0, buckets[..], contents)
      modifies oldBuckets, buckets
      ensures Placed(hash, buckets[..]) && forall e :: e in contents <==> Holds(hash, buckets[..], e)
    {
      hide Moving, Placed, Holds, BucketIndex;
      var i := 0;
      while i < oldBuckets.Length
        invariant 0 <= i <= oldBuckets.Length
        invariant Moving(hash, oldBuckets[..], i, buckets[..], contents)
      {
        while oldBuckets[i] != []
          invariant Moving(hash, oldBuckets[..], i, buckets[..], contents)
          decreases |oldBuckets[i]|
        {
          var elem := oldBuckets[i][0];
          var j := BucketIndex(hash, elem, bucketCnt);
          MoveElem(hash, oldBuckets[..], i, buckets[..], j, contents, elem);
          ghost var was, now := oldBuckets[..], buckets[..];
          oldBuckets[i] := oldBuckets[i][1..];
          buckets[j] := [elem] + buckets[j];
          assert oldBuckets[..] == was[i := was[i][1..]];
          assert buckets[..] == now[j := [elem] + now[j]];
        }
        BucketEmptied(hash, oldBuckets[..], i, buckets[..], contents);
        i := i + 1;
      }
      MovingDone(hash, oldBuckets[..], buckets[..], contents);
    }

    /** hash_insert */
    method Insert(e: E, hasMemory: bool) returns (r: Option<E>)
      requires Valid()
      modifies this, buckets
      ensures Valid() && (buckets == old(buckets) || fresh(buckets))
      ensures Found(less, old(contents), e, r)
      ensures contents == if r.Some? then old(contents) else old(contents) + {e}
      ensures hasMemory ==> Balanced()
    {
      hide Valid, BucketIndex;
      var i, k;
      r, i, k := FindElem(e);
      if r == None {
        InsertElem(e, i);
      }
      Rehash(hasMemory);
    }

    /** hash_replace */
    method Replace(e: E, hasMemory: bool) returns (r: Option<E>)
      requires Valid()
      modifies this, buckets
      ensures Valid() && (buckets == old(buckets) || fresh(buckets))
      ensures Found(less, old(contents), e, r)
      ensures contents == old(contents) - Matches(less, old(contents), e) + {e}
      ensures hasMemory ==> Balanced()
    {
      hide Valid, BucketIndex;
      var i, k;
      r, i, k := FindElem(e);
      if r != None {
        RemoveElem(i, k);
      }
      InsertElem(e, i);
      Rehash(hasMemory);
    }

    /** hash_find */
    method Find(e: E) returns (r: Option<E>)
      requires Valid()
      ensures Found(less, contents, e, r)
    {
      hide Valid, BucketIndex;
      var i, k;
      r, i, k := FindElem(e);
    }

    /** hash_delete */
    method Delete(e: E, hasMemory: bool) returns (r: Option<E>)
      requires Valid()
      modifies this, buckets
      ensures Valid() && (buckets == old(buckets) || fresh(buckets))
      ensures Found(less, old(contents), e, r)
      ensures contents == old(contents) - Matches(less, old(contents), e)
      ensures hasMemory && old(Balanced()) ==> Balanced()
    {
      hide Valid, BucketIndex;
      var i, k;
      r, i, k := FindElem(e);
      if r != None {
        RemoveElem(i, k);
        Rehash(hasMemory);
      }
    }
  }

  /** hash_init; `hasMemory` tells whether its malloc succeeds. */
  method HashInit<E(!new, ==)>(hash: E -> nat, less: (E, E) -> bool, hasMemory: bool) returns (r: Option<Table<E>>)
    requires StrictWeakOrder(less) && Respects(less, hash)
    ensures r.Some? <==> hasMemory
    ensures r.Some? ==>
              && fresh(r.value) && fresh(r.value.buckets) && r.value.Valid() && r.value.Balanced()
              && r.value.hash == hash && r.value.less == less && r.value.contents == {}
  {
    if !hasMemory {
      return None;
    }
    var table := new Table(hash, less);
    r := Some(table);
  }
}
