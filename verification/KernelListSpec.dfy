// What the list algorithms of Pintos/lib/kernel/list.c mean, stated on the
// sequence of elements that a list holds.  KernelList.dfy proves that the code,
// which relinks prev/next fields in place, computes these functions.
module KernelListSpec {

  /** A list element, embedded by its owner in a larger structure; `key` stands
      for the data of that structure that a comparison function may look at. */
  class Elem<K> {
    const key: K
    var prev: Elem?<K>
    var next: Elem?<K>

    constructor (key: K)
      ensures this.key == key && prev == null && next == null
    {
      this.key := key;
      prev, next := null, null;
    }
  }

  /** The demand that list.h makes of a list_less_func. */
  ghost predicate StrictWeakOrder<K(!new)>(less: (K, K) -> bool) {
    && (forall x, y :: less(x, y) ==> !less(y, x))
    && (forall x, y, z :: less(x, z) ==> less(x, y) || less(y, z))
  }

  predicate Equal<K>(less: (K, K) -> bool, x: K, y: K) {
    !less(x, y) && !less(y, x)
  }

  /** No element is less than its predecessor (what is_sorted tests). */
  predicate Sorted<K>(less: (K, K) -> bool, s: seq<Elem<K>>) {
    forall i, j | 0 <= i < |s| && 0 <= j < |s| && j == i + 1 :: !less(s[j].key, s[i].key)
  }

  /** The elements of `s` that compare equal to `x`, in the order of `s`. */
  function Class<K>(less: (K, K) -> bool, s: seq<Elem<K>>, x: K): seq<Elem<K>> {
    if s == [] then []
    else (if Equal(less, s[0].key, x) then [s[0]] else []) + Class(less, s[1..], x)
  }

  /** `t` is a stable rearrangement of `s`: each group of equal elements appears
      in both with the same members in the same order. */
  ghost predicate StableRearrangement<K(!new)>(less: (K, K) -> bool, s: seq<Elem<K>>, t: seq<Elem<K>>) {
    forall x :: Class(less, s, x) == Class(less, t, x)
  }

  /** Length of the first maximal nondecreasing run. */
  function RunEnd<K>(less: (K, K) -> bool, s: seq<Elem<K>>): (n: nat)
    requires s != []
    ensures 1 <= n <= |s|
  {
    if |s| == 1 || less(s[1].key, s[0].key) then 1 else 1 + RunEnd(less, s[1..])
  }

  lemma {:induction false} RunEndSorted<K>(less: (K, K) -> bool, s: seq<Elem<K>>)
    requires s != []
    ensures Sorted(less, s[..RunEnd(less, s)])
    ensures RunEnd(less, s) < |s| ==> less(s[RunEnd(less, s)].key, s[RunEnd(less, s) - 1].key)
  {
    if |s| > 1 && !less(s[1].key, s[0].key) {
      RunEndSorted(less, s[1..]);
      assert s[..RunEnd(less, s)] == [s[0]] + s[1..][..RunEnd(less, s[1..])];
    }
  }

  /** The end of the first run is the only place where a sorted prefix stops. */
  lemma {:induction false} RunEndUnique<K>(less: (K, K) -> bool, s: seq<Elem<K>>, n: nat)
    requires 1 <= n <= |s|
    requires Sorted(less, s[..n])
    requires n < |s| ==> less(s[n].key, s[n - 1].key)
    ensures RunEnd(less, s) == n
  {
    if n > 1 {
      assert !less(s[..n][1].key, s[..n][0].key);
      assert s[1..][..n - 1] == s[..n][1..];
      RunEndUnique(less, s[1..], n - 1);
    }
  }

  /** Number of places where an element is less than its predecessor. */
  function Descents<K>(less: (K, K) -> bool, s: seq<Elem<K>>): nat {
    if |s| < 2 then 0 else (if less(s[1].key, s[0].key) then 1 else 0) + Descents(less, s[1..])
  }

  /** Number of maximal nondecreasing runs. */
  function Runs<K>(less: (K, K) -> bool, s: seq<Elem<K>>): nat {
    if s == [] then 0 else 1 + Descents(less, s)
  }

  /** Stable merge: on a tie the element of `a` comes first. */
  function Merge<K>(less: (K, K) -> bool, a: seq<Elem<K>>, b: seq<Elem<K>>): (m: seq<Elem<K>>)
    ensures |m| == |a| + |b|
  {
    if a == [] then b
    else if b == [] then a
    else if less(b[0].key, a[0].key) then [b[0]] + Merge(less, a, b[1..])
    else [a[0]] + Merge(less, a[1..], b)
  }

  /** Where the second run ends, or the first if there is only one. */
  function PairEnd<K>(less: (K, K) -> bool, s: seq<Elem<K>>): (n: nat)
    requires s != []
    ensures RunEnd(less, s) <= n <= |s|
    ensures RunEnd(less, s) < |s| ==> RunEnd(less, s) < n
  {
    var m := RunEnd(less, s);
    if m == |s| then m else m + RunEnd(less, s[m..])
  }

  lemma PairSorted<K>(less: (K, K) -> bool, s: seq<Elem<K>>)
    requires s != []
    ensures Sorted(less, s[..RunEnd(less, s)])
    ensures Sorted(less, s[RunEnd(less, s)..PairEnd(less, s)])
  {
    var m := RunEnd(less, s);
    RunEndSorted(less, s);
    if m < |s| {
      RunEndSorted(less, s[m..]);
      assert s[m..][..PairEnd(less, s) - m] == s[m..PairEnd(less, s)];
    }
  }

  /** One pass of the natural merge sort: runs 1 and 2 are merged, then 3 and 4, ... */
  function Pass<K>(less: (K, K) -> bool, s: seq<Elem<K>>): (t: seq<Elem<K>>)
    ensures |t| == |s|
    decreases |s|
  {
    if s == [] then []
    else
      var m, n := RunEnd(less, s), PairEnd(less, s);
      Merge(less, s[..m], s[m..n]) + Pass(less, s[n..])
  }

  /** Number of output runs that one pass counts. */
  function OutputRuns<K>(less: (K, K) -> bool, s: seq<Elem<K>>): nat
    decreases |s|
  {
    if s == [] then 0 else 1 + OutputRuns(less, s[PairEnd(less, s)..])
  }

  /** A pass that has written `out` and counted `cnt` runs will, from `rest`, produce `goal` and `total`. */
  ghost predicate PassInvariant<K>(less: (K, K) -> bool, out: seq<Elem<K>>, rest: seq<Elem<K>>, cnt: nat,
                                   goal: seq<Elem<K>>, total: nat) {
    out + Pass(less, rest) == goal && cnt + OutputRuns(less, rest) == total
  }

  /** One round: the two runs `a` and `b` at the front of `s` are merged; `c` is left. */
  lemma PassStep<K>(less: (K, K) -> bool, out: seq<Elem<K>>, s: seq<Elem<K>>, cnt: nat, goal: seq<Elem<K>>, total: nat,
                    a: seq<Elem<K>>, b: seq<Elem<K>>, c: seq<Elem<K>>)
    requires PassInvariant(less, out, s, cnt, goal, total)
    requires s != []
    requires a == s[..RunEnd(less, s)] && b == s[RunEnd(less, s)..PairEnd(less, s)] && c == s[PairEnd(less, s)..]
    ensures PassInvariant(less, out + Merge(less, a, b), c, cnt + 1, goal, total)
  {
  }

  lemma PassStart<K>(less: (K, K) -> bool, s: seq<Elem<K>>)
    ensures PassInvariant(less, [], s, 0, Pass(less, s), OutputRuns(less, s))
  {
  }

  lemma PassEnd<K>(less: (K, K) -> bool, out: seq<Elem<K>>, cnt: nat, goal: seq<Elem<K>>, total: nat)
    requires PassInvariant(less, out, [], cnt, goal, total)
    ensures out == goal && cnt == total
  {
  }

  // ----- Equal elements -----

  lemma {:induction false} ClassConcat<K>(less: (K, K) -> bool, a: seq<Elem<K>>, b: seq<Elem<K>>, x: K)
    ensures Class(less, a + b, x) == Class(less, a, x) + Class(less, b, x)
  {
    if a == [] {
      assert a + b == b;
    } else {
      assert (a + b)[1..] == a[1..] + b;
      ClassConcat(less, a[1..], b, x);
    }
  }

  /** Every element is in its own class, so a stable rearrangement keeps all of them. */
  lemma {:induction false} ClassMember<K(!new)>(less: (K, K) -> bool, s: seq<Elem<K>>, e: Elem<K>)
    requires StrictWeakOrder(less)
    ensures multiset(Class(less, s, e.key))[e] == multiset(s)[e]
  {
    if s != [] {
      ClassMember(less, s[1..], e);
      assert s == [s[0]] + s[1..];
    }
  }

  lemma StablePermutation<K(!new)>(less: (K, K) -> bool, s: seq<Elem<K>>, t: seq<Elem<K>>)
    requires StrictWeakOrder(less)
    requires StableRearrangement(less, s, t)
    ensures multiset(s) == multiset(t)
  {
    forall e: Elem<K> | e in multiset(s) || e in multiset(t)
      ensures multiset(s)[e] == multiset(t)[e]
    {
      ClassMember(less, s, e);
      ClassMember(less, t, e);
    }
  }

  /** A sorted sequence is sorted pairwise, not only between neighbours. */
  lemma {:induction false} SortedPairwise<K(!new)>(less: (K, K) -> bool, s: seq<Elem<K>>, i: nat, j: nat)
    requires StrictWeakOrder(less)
    requires Sorted(less, s)
    requires i < j < |s|
    ensures !less(s[j].key, s[i].key)
  {
    if i + 1 < j {
      SortedPairwise(less, s, i, j - 1);
      assert !less(s[j].key, s[j - 1].key);
    }
  }

  /** Nothing in a sorted sequence equals a key below its first element. */
  lemma {:induction false} NoneEqualBelow<K(!new)>(less: (K, K) -> bool, a: seq<Elem<K>>, y: K, x: K)
    requires StrictWeakOrder(less)
    requires Sorted(less, a)
    requires a != [] ==> less(y, a[0].key)
    requires Equal(less, y, x)
    ensures Class(less, a, x) == []
  {
    if a != [] {
      assert less(x, a[0].key);
      if |a| > 1 {
        assert !less(a[1].key, a[0].key);
        assert less(y, a[1].key);
      }
      assert Sorted(less, a[1..]);
      NoneEqualBelow(less, a[1..], y, x);
    }
  }

  // ----- Merging -----

  lemma ClassFirst<K>(less: (K, K) -> bool, s: seq<Elem<K>>, x: K)
    requires s != []
    ensures Class(less, s, x) == Class(less, [s[0]], x) + Class(less, s[1..], x)
  {
    assert s == [s[0]] + s[1..];
    ClassConcat(less, [s[0]], s[1..], x);
  }

  /** An element in front of `r` may move before `a` when one of the two classes is empty. */
  lemma ClassPush<K>(less: (K, K) -> bool, a: seq<Elem<K>>, e: Elem<K>, r: seq<Elem<K>>, x: K)
    requires Class(less, a, x) == [] || Class(less, [e], x) == []
    ensures Class(less, [e] + r, x) == Class(less, [e], x) + Class(less, r, x)
    ensures Class(less, a, x) + Class(less, [e] + r, x) == Class(less, [e], x) + (Class(less, a, x) + Class(less, r, x))
  {
    ClassConcat(less, [e], r, x);
  }

  lemma {:induction false} MergeClass<K(!new)>(less: (K, K) -> bool, a: seq<Elem<K>>, b: seq<Elem<K>>, x: K)
    requires StrictWeakOrder(less)
    requires Sorted(less, a)
    ensures Class(less, Merge(less, a, b), x) == Class(less, a, x) + Class(less, b, x)
    decreases |a| + |b|
  {
    if a == [] || b == [] {
    } else if less(b[0].key, a[0].key) {
      MergeClass(less, a, b[1..], x);
      if Equal(less, b[0].key, x) {
        NoneEqualBelow(less, a, b[0].key, x);
      }
      assert Class(less, a, x) == [] || Class(less, [b[0]], x) == [];
      ClassPush(less, [], b[0], Merge(less, a, b[1..]), x);
      ClassPush(less, a, b[0], b[1..], x);
    } else {
      assert Sorted(less, a[1..]);
      MergeClass(less, a[1..], b, x);
      ClassPush(less, [], a[0], Merge(less, a[1..], b), x);
      ClassFirst(less, a, x);
    }
  }

  /** Prefixing an element that the first element is not less than. */
  lemma SortedPrefix<K>(less: (K, K) -> bool, e: Elem<K>, r: seq<Elem<K>>)
    requires Sorted(less, r)
    requires r != [] ==> !less(r[0].key, e.key)
    ensures Sorted(less, [e] + r)
  {
    var s := [e] + r;
    forall i, j | 0 <= i < |s| && 0 <= j < |s| && j == i + 1
      ensures !less(s[j].key, s[i].key)
    {
      if i > 0 { assert s[i] == r[i - 1] && s[j] == r[j - 1]; }
    }
  }

  lemma {:induction false} MergeSorted<K(!new)>(less: (K, K) -> bool, a: seq<Elem<K>>, b: seq<Elem<K>>)
    requires StrictWeakOrder(less)
    requires Sorted(less, a) && Sorted(less, b)
    ensures Sorted(less, Merge(less, a, b))
    decreases |a| + |b|
  {
    if a == [] || b == [] {
    } else if less(b[0].key, a[0].key) {
      assert Sorted(less, b[1..]);
      MergeSorted(less, a, b[1..]);
      assert |b| > 1 ==> !less(b[1].key, b[0].key);
      SortedPrefix(less, b[0], Merge(less, a, b[1..]));
    } else {
      assert Sorted(less, a[1..]);
      MergeSorted(less, a[1..], b);
      assert |a| > 1 ==> !less(a[1].key, a[0].key);
      SortedPrefix(less, a[0], Merge(less, a[1..], b));
    }
  }

  // ----- One pass -----

  lemma SplitAt<K>(s: seq<Elem<K>>, m: nat, n: nat)
    requires m <= n <= |s|
    ensures s == s[..m] + s[m..n] + s[n..]
  {
  }

  /** A pass rearranges stably. */
  lemma {:induction false} PassClass<K(!new)>(less: (K, K) -> bool, s: seq<Elem<K>>, x: K)
    requires StrictWeakOrder(less)
    ensures Class(less, Pass(less, s), x) == Class(less, s, x)
    decreases |s|
  {
    if s != [] {
      var m, n := RunEnd(less, s), PairEnd(less, s);
      PassClass(less, s[n..], x);
      PairSorted(less, s);
      MergeClass(less, s[..m], s[m..n], x);
      ClassConcat(less, Merge(less, s[..m], s[m..n]), Pass(less, s[n..]), x);
      SplitAt(s, m, n);
      ClassConcat(less, s[..m], s[m..n], x);
      ClassConcat(less, s[..m] + s[m..n], s[n..], x);
    }
  }

  /** A pass that counts at most one output run leaves the list sorted. */
  lemma PassDone<K(!new)>(less: (K, K) -> bool, s: seq<Elem<K>>)
    requires StrictWeakOrder(less)
    requires OutputRuns(less, s) <= 1
    ensures Sorted(less, Pass(less, s))
  {
    if s != [] {
      var m, n := RunEnd(less, s), PairEnd(less, s);
      assert s[n..] == [];
      PairSorted(less, s);
      MergeSorted(less, s[..m], s[m..n]);
      assert Pass(less, s) == Merge(less, s[..m], s[m..n]);
    }
  }

  // ----- Runs: the termination measure -----

  /** The descents of a nonempty sequence are those after its first run, and the one that ends it. */
  lemma {:induction false} DescentsAfterRun<K>(less: (K, K) -> bool, s: seq<Elem<K>>)
    requires s != []
    ensures Runs(less, s) == 1 + Runs(less, s[RunEnd(less, s)..])
  {
    if |s| > 1 {
      if !less(s[1].key, s[0].key) {
        DescentsAfterRun(less, s[1..]);
        var n := RunEnd(less, s[1..]);
        assert s[1..][n..] == s[n + 1..];
      }
    }
  }

  lemma {:induction false} RunsConcat<K>(less: (K, K) -> bool, a: seq<Elem<K>>, b: seq<Elem<K>>)
    ensures Runs(less, a + b) <= Runs(less, a) + Runs(less, b)
  {
    if a == [] {
      assert a + b == b;
    } else if b == [] {
      assert a + b == a;
    } else {
      assert (a + b)[1..] == a[1..] + b;
      RunsConcat(less, a[1..], b);
    }
  }

  lemma {:induction false} SortedOneRun<K>(less: (K, K) -> bool, s: seq<Elem<K>>)
    requires Sorted(less, s)
    ensures Runs(less, s) <= 1
  {
    if |s| > 1 {
      assert !less(s[1].key, s[0].key);
      assert Sorted(less, s[1..]);
      SortedOneRun(less, s[1..]);
    }
  }

  /** A pass counts half of the runs, rounded up. */
  lemma {:induction false} PassHalvesRuns<K>(less: (K, K) -> bool, s: seq<Elem<K>>)
    ensures OutputRuns(less, s) == (Runs(less, s) + 1) / 2
    decreases |s|
  {
    if s != [] {
      var m, n := RunEnd(less, s), PairEnd(less, s);
      DescentsAfterRun(less, s);
      if m < |s| {
        DescentsAfterRun(less, s[m..]);
        assert s[m..][n - m..] == s[n..];
      }
      PassHalvesRuns(less, s[n..]);
    }
  }

  /** A pass leaves no more runs than it counts. */
  lemma {:induction false} RunsAfterPass<K(!new)>(less: (K, K) -> bool, s: seq<Elem<K>>)
    requires StrictWeakOrder(less)
    ensures Runs(less, Pass(less, s)) <= OutputRuns(less, s)
    decreases |s|
  {
    if s != [] {
      var m, n := RunEnd(less, s), PairEnd(less, s);
      RunsAfterPass(less, s[n..]);
      PairSorted(less, s);
      MergeSorted(less, s[..m], s[m..n]);
      SortedOneRun(less, Merge(less, s[..m], s[m..n]));
      RunsConcat(less, Merge(less, s[..m], s[m..n]), Pass(less, s[n..]));
    }
  }

  // ----- Ordered insertion -----

  /** Index of the first element that `key` is less than. */
  function InsertionPoint<K>(less: (K, K) -> bool, s: seq<Elem<K>>, key: K): (k: nat)
    ensures k <= |s|
    ensures forall i | 0 <= i < k :: !less(key, s[i].key)
    ensures k < |s| ==> less(key, s[k].key)
  {
    if s == [] || less(key, s[0].key) then 0 else 1 + InsertionPoint(less, s[1..], key)
  }

  function OrderedInsert<K>(less: (K, K) -> bool, s: seq<Elem<K>>, e: Elem<K>): seq<Elem<K>> {
    var k := InsertionPoint(less, s, e.key);
    s[..k] + [e] + s[k..]
  }

  lemma OrderedInsertSorted<K(!new)>(less: (K, K) -> bool, s: seq<Elem<K>>, e: Elem<K>)
    requires StrictWeakOrder(less)
    requires Sorted(less, s)
    ensures Sorted(less, OrderedInsert(less, s, e))
  {
  }

  /** Ordered insertion puts the element after its equals. */
  lemma OrderedInsertClass<K(!new)>(less: (K, K) -> bool, s: seq<Elem<K>>, e: Elem<K>, x: K)
    requires StrictWeakOrder(less)
    requires Sorted(less, s)
    ensures Class(less, s + [e], x) == Class(less, OrderedInsert(less, s, e), x)
  {
    var k := InsertionPoint(less, s, e.key);
    var a, b := s[..k], s[k..];
    assert s == a + b;
    if Equal(less, e.key, x) {
      assert Sorted(less, b);
      NoneEqualBelow(less, b, e.key, x);
    }
    hide Class, InsertionPoint, Sorted;
    ClassMovesUp(less, a, b, e, x);
  }

  /** An element can move before elements that are not equal to it. */
  lemma ClassMovesUp<K(!new)>(less: (K, K) -> bool, a: seq<Elem<K>>, b: seq<Elem<K>>, e: Elem<K>, x: K)
    requires Equal(less, e.key, x) ==> Class(less, b, x) == []
    ensures Class(less, a + b + [e], x) == Class(less, a + [e] + b, x)
  {
    assert Class(less, [e], x) == if Equal(less, e.key, x) then [e] else [];
    hide Class;
    ClassConcat(less, a, b, x);
    ClassConcat(less, a + b, [e], x);
    ClassConcat(less, a + [e], b, x);
    ClassConcat(less, a, [e], x);
  }
}
