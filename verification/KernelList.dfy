// The intrusive doubly linked list of Pintos/lib/kernel/list.c: every operation
// relinks prev/next fields in place.
module KernelList {
  import opened KernelListSpec
  import opened Prelude

  ghost predicate NextLinked<K>(s: seq<Elem<K>>)
    reads s
  {
    forall i {:trigger s[i].next} | 0 <= i < |s| - 1 :: s[i].next == s[i + 1]
  }

  ghost predicate PrevLinked<K>(s: seq<Elem<K>>)
    reads s
  {
    forall i {:trigger s[i].prev} | 0 < i < |s| :: s[i].prev == s[i - 1]
  }

  /** The nodes of `s` are distinct and each is linked to its neighbours in `s`. */
  ghost predicate Linked<K>(s: seq<Elem<K>>)
    reads s
  {
    NextLinked(s) && PrevLinked(s) && Distinct(s)
  }

  /** s with the stretch from m up to n moved to just before index k. */
  ghost function Moved<K>(s: seq<Elem<K>>, k: nat, m: nat, n: nat): (t: seq<Elem<K>>)
    requires k <= m <= n <= |s|
    ensures |t| == |s|
    ensures forall i | 0 <= i < |s| :: t[i] == s[MovedFrom(k, m, n, i)]
  {
    seq(|s|, i requires 0 <= i < |s| => s[MovedFrom(k, m, n, i)])
  }

  /** The index in s of the node at index i of Moved(s, k, m, n). */
  ghost function MovedFrom(k: nat, m: nat, n: nat, i: nat): (j: nat)
    requires k <= m <= n
    ensures i < n ==> j < n
    ensures n <= i ==> j == i
  {
    if i < k then i else if i < k + n - m then m + (i - k) else if i < n then i - (n - m) else i
  }

  /** Moving node m to just before node k shifts those between and leaves the rest. */
  lemma MovedAt<K>(s: seq<Elem<K>>, k: nat, m: nat, hi: nat)
    requires k <= m < hi < |s|
    ensures var t := Moved(s, k, m, m + 1);
      && t[k + 1..m + 1] == s[k..m] && t[m + 1] == s[m + 1] && t[hi] == s[hi]
      && (k < m ==> t[k + 1] == s[k])
  {
  }

  /** The elements between the two sentinels in the opposite order. */
  ghost function Reversed<K>(s: seq<Elem<K>>): (t: seq<Elem<K>>)
    ensures |t| == |s|
  {
    seq(|s|, i requires 0 <= i < |s| => if i == 0 || i == |s| - 1 then s[i] else s[|s| - 1 - i])
  }

  /** The next fields after list_splice has put nodes m up to n before node k ... */
  ghost predicate SplicedNext<K>(s: seq<Elem<K>>, k: nat, m: nat, n: nat)
    requires 0 < m < n < |s| && 0 < k < |s|
    reads s
  {
    forall i {:trigger s[i].next} | 0 <= i < |s| - 1 ::
      s[i].next == if i == n - 1 then s[k] else if i == k - 1 then s[m]
                   else if i == m - 1 && k != n then s[n] else s[i + 1]
  }

  /** ... and the prev fields. */
  ghost predicate SplicedPrev<K>(s: seq<Elem<K>>, k: nat, m: nat, n: nat)
    requires 0 < m < n < |s| && 0 < k < |s|
    reads s
  {
    forall i {:trigger s[i].prev} | 0 < i < |s| ::
      s[i].prev == if i == k then s[n - 1] else if i == n then s[m - 1]
                   else if i == m && k != n then s[k - 1] else s[i - 1]
  }

  ghost function SplicedFrom(k: nat, m: nat, n: nat, i: nat): nat
    requires m <= n && (k <= m || n <= k)
  {
    if k <= m then MovedFrom(k, m, n, i) else MovedFrom(m, n, k, i)
  }

  /** Nodes m up to n moved to just before node k: moving [m, n) on to k is moving [n, k) back to m. */
  ghost function SplicedNodes<K>(s: seq<Elem<K>>, k: nat, m: nat, n: nat): (t: seq<Elem<K>>)
    requires m <= n <= |s| && k <= |s| && (k <= m || n <= k)
    ensures |t| == |s|
  {
    if k <= m then Moved(s, k, m, n) else Moved(s, m, n, k)
  }

  lemma SplicedAt<K>(s: seq<Elem<K>>, k: nat, m: nat, n: nat)
    requires m <= n <= |s| && k <= |s| && (k <= m || n <= k)
    ensures forall i | 0 <= i < |s| :: SplicedFrom(k, m, n, i) < |s|
    ensures forall i | 0 <= i < |s| :: SplicedNodes(s, k, m, n)[i] == s[SplicedFrom(k, m, n, i)]
  {
  }

  /** The relinked next fields are the links of the new sequence ... */
  lemma SplicedNextLinks<K>(s: seq<Elem<K>>, k: nat, m: nat, n: nat)
    requires 0 < m < n < |s| && 0 < k < |s| && (k < m || n <= k) && SplicedNext(s, k, m, n)
    ensures NextLinked(SplicedNodes(s, k, m, n))
  {
    hide SplicedNodes, SplicedFrom;
    SplicedAt(s, k, m, n);
    var t := SplicedNodes(s, k, m, n);
    forall i {:trigger t[i].next} | 0 <= i < |s| - 1
      ensures t[i].next == t[i + 1]
    {
      SplicedNeighbours(|s|, k, m, n, i);
    }
  }

  /** ... and so are the prev fields. */
  lemma SplicedPrevLinks<K>(s: seq<Elem<K>>, k: nat, m: nat, n: nat)
    requires 0 < m < n < |s| && 0 < k < |s| && (k < m || n <= k) && SplicedPrev(s, k, m, n)
    ensures PrevLinked(SplicedNodes(s, k, m, n))
  {
    hide SplicedNodes, SplicedFrom;
    SplicedAt(s, k, m, n);
    var t := SplicedNodes(s, k, m, n);
    forall i {:trigger t[i].prev} | 0 < i < |s|
      ensures t[i].prev == t[i - 1]
    {
      SplicedNeighbours(|s|, k, m, n, i - 1);
    }
  }

  lemma SameNode<K>(s: seq<Elem<K>>, m: nat, n: nat)
    requires Distinct(s) && m <= n < |s|
    ensures s[m] == s[n] <==> m == n
  {
  }

  lemma SameNodes<K>(s: seq<Elem<K>>, i: nat)
    requires Distinct(s) && i < |s|
    ensures forall j {:trigger s[j]} | 0 <= j < |s| :: s[j] == s[i] <==> i == j
  {
  }

  /** What comes after, and before, a node once the nodes have moved. */
  lemma SplicedNeighbours(len: nat, k: nat, m: nat, n: nat, i: nat)
    requires 0 < m < n < len && 0 < k < len && (k < m || n <= k) && i + 1 < len
    ensures var j, j' := SplicedFrom(k, m, n, i), SplicedFrom(k, m, n, i + 1);
            && j < len - 1 && 0 < j' < len
            && j' == (if j == n - 1 then k else if j == k - 1 then m else if j == m - 1 && k != n then n else j + 1)
            && j == (if j' == k then n - 1 else if j' == n then m - 1 else if j' == m && k != n then k - 1 else j' - 1)
  {
  }

  lemma SplicedInjective(len: nat, k: nat, m: nat, n: nat, i: nat, j: nat)
    requires m <= n <= len && k <= len && (k <= m || n <= k) && i < j < len
    ensures SplicedFrom(k, m, n, i) != SplicedFrom(k, m, n, j)
  {
  }

  lemma SplicedKeeps<K>(s: seq<Elem<K>>, k: nat, m: nat, n: nat)
    requires m <= n <= |s| && k <= |s| && (k <= m || n <= k) && Distinct(s)
    ensures Distinct(SplicedNodes(s, k, m, n))
    ensures forall i | 0 <= i < |s| :: SplicedNodes(s, k, m, n)[i] in s
    ensures 0 < k && n < |s| && 0 < m && k < |s| ==>
              SplicedNodes(s, k, m, n)[0] == s[0] && SplicedNodes(s, k, m, n)[|s| - 1] == s[|s| - 1]
  {
    var t := SplicedNodes(s, k, m, n);
    SplicedAt(s, k, m, n);
    hide SplicedNodes, Moved;
    assert 0 < k && n < |s| && 0 < m && k < |s| ==>
      SplicedFrom(k, m, n, 0) == 0 && SplicedFrom(k, m, n, |s| - 1) == |s| - 1;
    hide SplicedFrom;
    forall i, j | 0 <= i < j < |s|
      ensures t[i] != t[j]
    {
      SplicedInjective(|s|, k, m, n, i, j);
    }
  }

  /** The links after list_insert has put elem before node k. */
  lemma InsertedLinks<K>(s: seq<Elem<K>>, k: nat, elem: Elem<K>)
    requires 0 < k < |s| && Distinct(s) && elem !in s && elem.next == s[k] && elem.prev == s[k - 1]
    requires forall i {:trigger s[i].next} | 0 <= i < |s| - 1 :: s[i].next == if i == k - 1 then elem else s[i + 1]
    requires forall i {:trigger s[i].prev} | 0 < i < |s| :: s[i].prev == if i == k then elem else s[i - 1]
    ensures Linked(s[..k] + [elem] + s[k..])
  {
  }

  lemma InsertedNodes<K>(s: seq<Elem<K>>, k: nat, elem: Elem<K>, repr: set<Elem<K>>)
    requires 0 < k < |s| && forall i | 0 <= i < |s| :: s[i] in repr
    ensures var t := s[..k] + [elem] + s[k..];
            t[0] == s[0] && t[|t| - 1] == s[|s| - 1] && forall i | 0 <= i < |t| :: t[i] in repr + {elem}
  {
  }

  lemma RelinkReversed<K>(s: seq<Elem<K>>)
    requires |s| > 2 && Distinct(s)
    requires forall i {:trigger s[i].next} | 0 <= i < |s| - 1 ::
      s[i].next == if i == 0 then s[|s| - 2] else if i == 1 then s[|s| - 1] else s[i - 1]
    requires forall i {:trigger s[i].prev} | 0 < i < |s| ::
      s[i].prev == if i == |s| - 1 then s[1] else if i == |s| - 2 then s[0] else s[i + 1]
    ensures Linked(Reversed(s))
  {
  }

  // ----- One step of inplace_merge, on the sequence of nodes -----

  /** `s` is `was` with [lo, i) merged; i is the front of what is left of the first run, m of the second. */
  ghost predicate MergeInvariant<K>(less: (K, K) -> bool, was: seq<Elem<K>>, mid: nat, s: seq<Elem<K>>,
                                    lo: nat, i: nat, m: nat, hi: nat)
    requires lo <= mid <= hi <= |was|
  {
    && |s| == |was| && lo <= i <= m <= hi
    && (forall t | 0 <= t < |s| && !(lo <= t < hi) :: s[t] == was[t])
    && s[lo..i] + Merge(less, s[i..m], s[m..hi]) == Merge(less, was[lo..mid], was[mid..hi])
  }

  lemma MergeStart<K>(less: (K, K) -> bool, s: seq<Elem<K>>, lo: nat, mid: nat, hi: nat)
    requires lo <= mid <= hi <= |s|
    ensures MergeInvariant(less, s, mid, s, lo, lo, mid, hi)
  {
  }

  lemma MergeTakeFirst<K>(less: (K, K) -> bool, was: seq<Elem<K>>, mid: nat, s: seq<Elem<K>>,
                          lo: nat, i: nat, m: nat, hi: nat)
    requires lo <= mid <= hi <= |was| && MergeInvariant(less, was, mid, s, lo, i, m, hi)
    requires i < m < hi && !less(s[m].key, s[i].key)
    ensures MergeInvariant(less, was, mid, s, lo, i + 1, m, hi)
  {
    var front, a, b := s[lo..i], s[i..m], s[m..hi];
    assert a[0] == s[i] && b[0] == s[m];
    assert s[lo..i + 1] == front + [a[0]];
    assert s[i + 1..m] == a[1..];
    assert front + [a[0]] + Merge(less, a[1..], b) == front + Merge(less, a, b) by {
      Associate(front, [a[0]], Merge(less, a[1..], b));
    }
  }

  lemma MergeTakeSecond<K>(less: (K, K) -> bool, was: seq<Elem<K>>, mid: nat, s: seq<Elem<K>>,
                           lo: nat, i: nat, m: nat, hi: nat)
    requires lo <= mid <= hi <= |was| && MergeInvariant(less, was, mid, s, lo, i, m, hi)
    requires i < m < hi && less(s[m].key, s[i].key)
    ensures MergeInvariant(less, was, mid, Moved(s, i, m, m + 1), lo, i + 1, m + 1, hi)
  {
    MovedSlices(s, lo, i, m, hi);
    hide Moved;
    assert s[m..hi][0] == s[m] && s[i..m][0] == s[i];
  }

  /** The nodes after the splice of inplace_merge. */
  lemma TakeSecondNodes<K>(less: (K, K) -> bool, was: seq<Elem<K>>, mid: nat, s: seq<Elem<K>>,
                           lo: nat, i: nat, m: nat, hi: nat)
    requires lo <= mid <= hi < |was| && MergeInvariant(less, was, mid, s, lo, i, m, hi)
    requires i < m < hi && less(s[m].key, s[i].key)
    ensures m + 1 <= hi < |s| == |was| && lo <= i
    ensures var t := SplicedNodes(s, i, m, m + 1);
            && MergeInvariant(less, was, mid, t, lo, i + 1, m + 1, hi)
            && t[i + 1] == s[i] && t[m + 1] == s[m + 1] && t[hi] == s[hi]
  {
    MergeTakeSecond(less, was, mid, s, lo, i, m, hi);
    hide Merge, Moved;
    MovedAt(s, i, m, hi);
  }

  lemma MovedSlices<K>(s: seq<Elem<K>>, lo: nat, i: nat, m: nat, hi: nat)
    requires lo <= i < m < hi <= |s|
    ensures Moved(s, i, m, m + 1)[m + 1..hi] == s[m..hi][1..]
    ensures Moved(s, i, m, m + 1)[i + 1..m + 1] == s[i..m]
    ensures Moved(s, i, m, m + 1)[lo..i + 1] == s[lo..i] + [s[m]]
    ensures forall t | 0 <= t < |s| && !(lo <= t < hi) :: Moved(s, i, m, m + 1)[t] == s[t]
  {
  }

  lemma MergeDone<K>(less: (K, K) -> bool, was: seq<Elem<K>>, mid: nat, s: seq<Elem<K>>,
                     lo: nat, i: nat, m: nat, hi: nat)
    requires lo <= mid <= hi <= |was| && MergeInvariant(less, was, mid, s, lo, i, m, hi)
    requires i == m || m == hi
    ensures s == was[..lo] + Merge(less, was[lo..mid], was[mid..hi]) + was[hi..]
  {
    assert s[lo..i] + s[i..hi] == s[lo..hi];
    assert s[..lo] == was[..lo] && s[hi..] == was[hi..];
    SplitAt(s, lo, hi);
  }

  // ----- Sequences -----

  /** The stretch from a up to b, cut at the indices m <= n of s. */
  lemma CutSlice<T>(s: seq<T>, a: nat, m: nat, n: nat, b: nat)
    requires a <= m <= n <= b <= |s|
    ensures s[a..b][..m - a] == s[a..m]
    ensures s[a..b][m - a..n - a] == s[m..n]
    ensures s[a..b][n - a..] == s[n..b]
  {
    var x, y := s[a..b][m - a..n - a], s[m..n];
    forall t | 0 <= t < |x|
      ensures x[t] == y[t]
    {
      assert x[t] == s[a..b][m - a + t];
    }
  }

  lemma ReplaceStretch<T>(s: seq<T>, k: nat, n: nat, r: seq<T>, t: seq<T>)
    requires 0 < k <= n <= |s| - 1 && |r| == n - k
    requires t == s[..k] + r + s[n..]
    ensures |t| == |s| && t[1..n] == s[1..k] + r && t[n..] == s[n..] && t[n..|t| - 1] == s[n..|s| - 1]
  {
  }

  /** Inserting before node k + 1 inserts at index k of what lies between head and tail. */
  lemma InsertedBetween<K>(less: (K, K) -> bool, s: seq<Elem<K>>, k: nat, x: Elem<K>, t: seq<Elem<K>>)
    requires k + 1 < |s| && t == s[..k + 1] + [x] + s[k + 1..]
    requires k == InsertionPoint(less, s[1..|s| - 1], x.key)
    ensures t[1..|t| - 1] == OrderedInsert(less, s[1..|s| - 1], x)
  {
    hide InsertionPoint;
    InsertedSlice(s, k, x);
  }

  lemma InsertedSlice<T>(s: seq<T>, k: nat, x: T)
    requires k + 1 < |s|
    ensures var t := s[..k + 1] + [x] + s[k + 1..];
            t[1..|t| - 1] == s[1..|s| - 1][..k] + [x] + s[1..|s| - 1][k..]
  {
    var t, c := s[..k + 1] + [x] + s[k + 1..], s[1..|s| - 1];
    forall i | 0 <= i < |c| + 1
      ensures t[1..|t| - 1][i] == (c[..k] + [x] + c[k..])[i]
    {
      assert t[1..|t| - 1][i] == t[i + 1];
    }
  }

  /** Where the first, and the second, of the runs that start at s[k] end; s ends with the tail. */
  ghost function FirstEnd<K>(less: (K, K) -> bool, s: seq<Elem<K>>, k: nat): (m: nat)
    requires k < |s| - 1
    ensures k < m <= |s| - 1
  {
    k + RunEnd(less, s[k..|s| - 1])
  }

  ghost function SecondEnd<K>(less: (K, K) -> bool, s: seq<Elem<K>>, k: nat): (n: nat)
    requires k < |s| - 1
    ensures k < n <= |s| - 1
  {
    k + PairEnd(less, s[k..|s| - 1])
  }

  lemma RunsAt<K>(less: (K, K) -> bool, s: seq<Elem<K>>, k: nat, m: nat, n: nat)
    requires k < |s| - 1 && m == FirstEnd(less, s, k) && n == SecondEnd(less, s, k)
    ensures m == k + RunEnd(less, s[k..|s| - 1])
    ensures m == |s| - 1 ==> n == m
    ensures m < |s| - 1 ==> n == m + RunEnd(less, s[m..|s| - 1])
  {
    CutSlice(s, k, m, m, |s| - 1);
  }

  /** t is s with the sorted stretches [k, m) and [m, n) merged. */
  ghost predicate MergedAt<K>(less: (K, K) -> bool, s: seq<Elem<K>>, k: nat, m: nat, n: nat, t: seq<Elem<K>>) {
    k <= m <= n <= |s| && t == s[..k] + Merge(less, s[k..m], s[m..n]) + s[n..]
  }

  lemma MergedWithNone<K>(less: (K, K) -> bool, s: seq<Elem<K>>, k: nat, m: nat)
    requires k <= m <= |s|
    ensures MergedAt(less, s, k, m, m, s)
  {
    assert s[m..m] == [];
    SplitAt(s, k, m);
  }

  /** The pass has come to node k of s. */
  ghost predicate PassAt<K>(less: (K, K) -> bool, s: seq<Elem<K>>, k: nat, cnt: nat, goal: seq<Elem<K>>, total: nat) {
    0 < k < |s| && PassInvariant(less, s[1..k], s[k..|s| - 1], cnt, goal, total)
  }

  lemma PassAtStart<K>(less: (K, K) -> bool, s: seq<Elem<K>>)
    requires |s| > 1
    ensures PassAt(less, s, 1, 0, Pass(less, s[1..|s| - 1]), OutputRuns(less, s[1..|s| - 1]))
  {
    hide Pass, OutputRuns;
    PassStart(less, s[1..|s| - 1]);
    assert s[1..1] == [];
  }

  lemma PassAtEnd<K>(less: (K, K) -> bool, s: seq<Elem<K>>, cnt: nat, goal: seq<Elem<K>>, total: nat)
    requires |s| > 1 && PassAt(less, s, |s| - 1, cnt, goal, total)
    ensures s[1..|s| - 1] == goal && cnt == total
  {
    var e := |s| - 1;
    assert s[e..e] == [];
    PassEnd(less, s[1..e], cnt, goal, total);
  }

  lemma PassRound<K>(less: (K, K) -> bool, s: seq<Elem<K>>, k: nat, t: seq<Elem<K>>,
                     cnt: nat, goal: seq<Elem<K>>, total: nat)
    requires k < |s| - 1 && PassAt(less, s, k, cnt, goal, total)
    requires MergedAt(less, s, k, FirstEnd(less, s, k), SecondEnd(less, s, k), t)
    ensures |t| == |s| && PassAt(less, t, SecondEnd(less, s, k), cnt + 1, goal, total)
  {
    hide Merge, Pass, OutputRuns;
    var e, m, n := |s| - 1, FirstEnd(less, s, k), SecondEnd(less, s, k);
    CutSlice(s, k, m, n, e);
    ReplaceStretch(s, k, n, Merge(less, s[k..m], s[m..n]), t);
    PassStep(less, s[1..k], s[k..e], cnt, goal, total, s[k..m], s[m..n], s[n..e]);
  }

  /** The next fields of linked nodes after Relink; b, p and q are what was before `before`, first
      and last. */
  ghost predicate RelinkedNext<K>(s: seq<Elem<K>>, before: Elem<K>, first: Elem<K>, last: Elem<K>,
                                  b: Elem<K>, p: Elem<K>, q: Elem<K>)
    reads s
  {
    forall i {:trigger s[i].next} | 0 <= i < |s| - 1 ::
      s[i].next == if s[i] == b then first else if s[i] == q then before else if s[i] == p then last else s[i + 1]
  }

  ghost predicate RelinkedPrev<K>(s: seq<Elem<K>>, before: Elem<K>, first: Elem<K>, last: Elem<K>,
                                  b: Elem<K>, p: Elem<K>, q: Elem<K>)
    reads s
  {
    forall i {:trigger s[i].prev} | 0 < i < |s| ::
      s[i].prev == if s[i] == before then q else if s[i] == first then b else if s[i] == last then p else s[i - 1]
  }

  lemma RelinkedIsSpliced<K>(s: seq<Elem<K>>, k: nat, m: nat, n: nat, b: Elem<K>)
    requires 0 < m < n < |s| && 0 < k < |s| && (k < m || n <= k) && Distinct(s)
    requires b == if k == n then s[m - 1] else s[k - 1]
    requires RelinkedNext(s, s[k], s[m], s[n], b, s[m - 1], s[n - 1])
    requires RelinkedPrev(s, s[k], s[m], s[n], b, s[m - 1], s[n - 1])
    ensures SplicedNext(s, k, m, n) && SplicedPrev(s, k, m, n)
  {
    hide Distinct;
    forall i {:trigger s[i].next} | 0 <= i < |s| - 1
      ensures s[i].next == if i == n - 1 then s[k] else if i == k - 1 then s[m]
                           else if i == m - 1 && k != n then s[n] else s[i + 1]
    {
      SameNodes(s, i);
    }
    forall i {:trigger s[i].prev} | 0 < i < |s|
      ensures s[i].prev == if i == k then s[n - 1] else if i == n then s[m - 1]
                           else if i == m && k != n then s[k - 1] else s[i - 1]
    {
      SameNodes(s, i);
    }
  }

  /** The pointer assignments of list_splice. */
  method Relink<K>(before: Elem<K>, first: Elem<K>, last: Elem<K>, ghost nodes: set<Elem<K>>)
    returns (ghost b: Elem<K>, ghost p: Elem<K>, ghost q: Elem<K>)
    requires before in nodes && first in nodes && last in nodes && before != first && first != last
    requires before.prev in nodes && first.prev in nodes && last.prev in nodes && last.prev.next == last
    modifies nodes
    ensures b == old(if before == last then first.prev else before.prev) && p == old(first.prev) && q == old(last.prev)
    ensures forall x {:trigger x.next} | x in nodes ::
              x.next == if x == b then first else if x == q then before else if x == p then last else old(x.next)
    ensures forall x {:trigger x.prev} | x in nodes ::
              x.prev == if x == before then q else if x == first then b else if x == last then p else old(x.prev)
  {
    p, q := first.prev, last.prev;
    var last' := last.prev;
    first.prev.next := last'.next;
    last'.next.prev := first.prev;

    first.prev := before.prev;
    b := first.prev;
    last'.next := before;
    before.prev.next := first;
    before.prev := last';
  }

  // ----- Nodes that move to another list -----

  ghost predicate Apart<K>(s: seq<Elem<K>>, o: seq<Elem<K>>) {
    && Distinct(s) && Distinct(o)
    && forall i, j {:trigger s[i], o[j]} | 0 <= i < |s| && 0 <= j < |o| :: s[i] != o[j]
  }

  lemma ApartNodes<K>(s: seq<Elem<K>>, o: seq<Elem<K>>, a: set<Elem<K>>, b: set<Elem<K>>)
    requires a !! b && Distinct(s) && Distinct(o)
    requires (forall i | 0 <= i < |s| :: s[i] in a) && (forall i | 0 <= i < |o| :: o[i] in b)
    ensures Apart(s, o)
  {
  }

  /** The links after nodes m up to n of o have been put before node k of s, read in s and in o. */
  ghost predicate LinksInto<K>(s: seq<Elem<K>>, o: seq<Elem<K>>, k: nat, m: nat, n: nat)
    requires 0 < m < n < |o| && 0 < k < |s|
    reads s
  {
    && (forall i {:trigger s[i].next} | 0 <= i < |s| - 1 :: s[i].next == if i == k - 1 then o[m] else s[i + 1])
    && (forall i {:trigger s[i].prev} | 0 < i < |s| :: s[i].prev == if i == k then o[n - 1] else s[i - 1])
  }

  ghost predicate LinksOutOf<K>(s: seq<Elem<K>>, o: seq<Elem<K>>, k: nat, m: nat, n: nat)
    requires 0 < m < n < |o| && 0 < k < |s|
    reads o
  {
    && (forall i {:trigger o[i].next} | 0 <= i < |o| - 1 ::
          o[i].next == if i == n - 1 then s[k] else if i == m - 1 then o[n] else o[i + 1])
    && (forall i {:trigger o[i].prev} | 0 < i < |o| ::
          o[i].prev == if i == m then s[k - 1] else if i == n then o[m - 1] else o[i - 1])
  }

  lemma RelinkedLinksInto<K>(s: seq<Elem<K>>, o: seq<Elem<K>>, k: nat, m: nat, n: nat)
    requires 0 < m < n < |o| && 0 < k < |s| && Apart(s, o)
    requires RelinkedNext(s, s[k], o[m], o[n], s[k - 1], o[m - 1], o[n - 1])
    requires RelinkedPrev(s, s[k], o[m], o[n], s[k - 1], o[m - 1], o[n - 1])
    ensures LinksInto(s, o, k, m, n)
  {
  }

  lemma RelinkedLinksOutOf<K>(s: seq<Elem<K>>, o: seq<Elem<K>>, k: nat, m: nat, n: nat)
    requires 0 < m < n < |o| && 0 < k < |s| && Apart(s, o)
    requires RelinkedNext(o, s[k], o[m], o[n], s[k - 1], o[m - 1], o[n - 1])
    requires RelinkedPrev(o, s[k], o[m], o[n], s[k - 1], o[m - 1], o[n - 1])
    ensures LinksOutOf(s, o, k, m, n)
  {
  }

  ghost function MovedSet<K>(o: seq<Elem<K>>, m: nat, n: nat): set<Elem<K>>
    requires m <= n <= |o|
  {
    set i | m <= i < n :: o[i]
  }

  lemma MovedSetBound<K>(o: seq<Elem<K>>, a: set<Elem<K>>, b: set<Elem<K>>, m: nat, n: nat)
    requires a !! b && m <= n <= |o| && forall i | 0 <= i < |o| :: o[i] in b
    ensures var moved := MovedSet(o, m, n);
            && moved <= b && (a + moved) !! (b - moved) && (a + moved) + (b - moved) == a + b
            && (forall i | m <= i < n :: o[i] in moved) && (m == n ==> moved == {})
  {
  }

  lemma NodesStay<K>(o: seq<Elem<K>>, b: set<Elem<K>>, m: nat, n: nat)
    requires Distinct(o) && m <= n <= |o| && forall i | 0 <= i < |o| :: o[i] in b
    ensures forall i | 0 <= i < |o| && !(m <= i < n) :: o[i] in b - MovedSet(o, m, n)
  {
  }

  lemma NodesMove<K>(s: seq<Elem<K>>, o: seq<Elem<K>>, a: set<Elem<K>>, b: set<Elem<K>>, k: nat, m: nat, n: nat)
    requires a !! b && Distinct(s) && Distinct(o) && 0 < m <= n < |o| && 0 < k < |s|
    requires (forall i | 0 <= i < |s| :: s[i] in a) && (forall i | 0 <= i < |o| :: o[i] in b)
    ensures var (t, u, moved) := (s[..k] + o[m..n] + s[k..], o[..m] + o[n..], MovedSet(o, m, n));
            && (forall i | 0 <= i < |t| :: t[i] in a + moved) && (forall i | 0 <= i < |u| :: u[i] in b - moved)
            && moved <= b && (a + moved) !! (b - moved) && (a + moved) + (b - moved) == a + b
            && t[0] == s[0] && t[|t| - 1] == s[|s| - 1] && u[0] == o[0] && u[|u| - 1] == o[|o| - 1]
            && (m == n ==> t == s && u == o && moved == {})
  {
    hide MovedSet, Distinct;
    MovedSetBound(o, a, b, m, n);
    NodesStay(o, b, m, n);
    var t, u, d := s[..k] + o[m..n] + s[k..], o[..m] + o[n..], n - m;
    assert forall i | 0 <= i < |t| :: t[i] == if i < k then s[i] else if i < k + d then o[i - k + m] else s[i - d];
    assert forall i | 0 <= i < |u| :: u[i] == if i < m then o[i] else o[i + d];
  }

  lemma InsertedDistinct<T>(s: seq<T>, o: seq<T>, k: nat, m: nat, n: nat)
    requires m <= n <= |o| && k <= |s| && Distinct(s) && Distinct(o)
    requires forall i, j {:trigger s[i], o[j]} | 0 <= i < |s| && 0 <= j < |o| :: s[i] != o[j]
    ensures Distinct(s[..k] + o[m..n] + s[k..]) && Distinct(o[..m] + o[n..])
  {
    var t, d := s[..k] + o[m..n] + s[k..], n - m;
    assert forall i | 0 <= i < |t| :: t[i] == if i < k then s[i] else if i < k + d then o[i - k + m] else s[i - d];
  }

  /** The list that the nodes have moved to. */
  lemma SplicedInto<K>(s: seq<Elem<K>>, o: seq<Elem<K>>, k: nat, m: nat, n: nat)
    requires 0 < m < n < |o| && 0 < k < |s| && Apart(s, o) && LinksInto(s, o, k, m, n) && LinksOutOf(s, o, k, m, n)
    ensures Linked(s[..k] + o[m..n] + s[k..])
  {
    InsertedDistinct(s, o, k, m, n);
    hide Distinct, Apart;
    var t, d := s[..k] + o[m..n] + s[k..], n - m;
    forall i {:trigger t[i].next} | 0 <= i < |t| - 1
      ensures t[i].next == t[i + 1]
    {
      assert t[i] == if i < k then s[i] else if i < k + d then o[i - k + m] else s[i - d];
    }
    forall i {:trigger t[i].prev} | 0 < i < |t|
      ensures t[i].prev == t[i - 1]
    {
      assert t[i] == if i < k then s[i] else if i < k + d then o[i - k + m] else s[i - d];
    }
  }

  /** The list that they have left. */
  lemma SplicedOutOf<K>(s: seq<Elem<K>>, o: seq<Elem<K>>, k: nat, m: nat, n: nat)
    requires 0 < m < n < |o| && 0 < k < |s| && Apart(s, o) && LinksOutOf(s, o, k, m, n)
    ensures Linked(o[..m] + o[n..])
  {
    InsertedDistinct(s, o, k, m, n);
    hide Distinct, Apart;
    var t, d := o[..m] + o[n..], n - m;
    forall i {:trigger t[i].next} | 0 <= i < |t| - 1
      ensures t[i].next == t[i + 1]
    {
      assert t[i] == if i < m then o[i] else o[i + d];
    }
    forall i {:trigger t[i].prev} | 0 < i < |t|
      ensures t[i].prev == t[i - 1]
    {
      assert t[i] == if i < m then o[i] else o[i + d];
    }
  }

  class List<K(0,!new)> {
    const head: Elem<K>
    const tail: Elem<K>
    // head, the elements in order, tail
    ghost var nodes: seq<Elem<K>>
    ghost var repr: set<Elem<K>>

    ghost predicate Valid()
      reads this, repr
    {
      && |nodes| >= 2
      && (forall i | 0 <= i < |nodes| :: nodes[i] in repr)
      && nodes[0] == head && nodes[|nodes| - 1] == tail
      && head.prev == null && tail.next == null
      && Linked(nodes)
    }

    ghost function Contents(): seq<Elem<K>>
      requires Valid()
      reads this, repr
    {
      nodes[1..|nodes| - 1]
    }

    /** list_init */
    constructor ()
      ensures Valid() && Contents() == []
      ensures fresh(repr)
    {
      var unused: K := *;
      var h := new Elem(unused);
      var t := new Elem(unused);
      head, tail := h, t;
      nodes := [h, t];
      repr := {h, t};
      new;
      head.prev, head.next := null, tail;
      tail.prev, tail.next := head, null;
    }

    /** list_insert: `elem` goes just before `before`, an interior element or the tail. */
    method Insert(before: Elem<K>, elem: Elem<K>, ghost k: nat)
      requires Valid()
      requires 0 < k < |nodes| && nodes[k] == before
      requires elem !in nodes
      modifies this, repr, elem
      ensures Valid() && nodes == old(nodes[..k] + [elem] + nodes[k..])
      ensures repr == old(repr) + {elem}
    {
      hide Distinct;
      ghost var s := nodes;
      SameNodes(s, k);
      SameNodes(s, k - 1);
      elem.prev := before.prev;
      elem.next := before;
      before.prev.next := elem;
      before.prev := elem;
      hide NextLinked, PrevLinked;
      InsertedLinks(s, k, elem);
      InsertedNodes(s, k, elem, repr);
      nodes := nodes[..k] + [elem] + nodes[k..];
      repr := repr + {elem};
    }

    /** list_remove; the removed element keeps its own links. */
    method Remove(elem: Elem<K>, ghost k: nat) returns (following: Elem<K>)
      requires Valid()
      requires 0 < k < |nodes| - 1 && nodes[k] == elem
      modifies this, repr
      ensures Valid() && nodes == old(nodes[..k] + nodes[k + 1..])
      ensures repr == old(repr) - {elem}
      ensures following == nodes[k]
      ensures elem.next == old(elem.next) && elem.prev == old(elem.prev)
    {
      elem.prev.next := elem.next;
      elem.next.prev := elem.prev;
      following := elem.next;
      nodes := nodes[..k] + nodes[k + 1..];
      repr := repr - {elem};
    }

    /** list_splice within one list: nodes m up to n move to just before node k, which is none of them. */
    method Splice(before: Elem<K>, first: Elem<K>, last: Elem<K>, ghost k: nat, ghost m: nat, ghost n: nat)
      requires Valid()
      requires 0 < m <= n < |nodes| && 0 < k < |nodes|
      requires before == nodes[k] && first == nodes[m] && last == nodes[n]
      requires k < m || n <= k || m == n
      modifies this, repr
      ensures Valid() && repr == old(repr)
      ensures nodes == if m == n then old(nodes) else SplicedNodes(old(nodes), k, m, n)
    {
      hide SplicedNodes, SplicedNext, SplicedPrev, NextLinked, PrevLinked, Distinct, Moved;
      SameNode(nodes, m, n);
      if first == last {
        return;
      }
      SpliceLinks(before, first, last, k, m, n);
      SplicedKeeps(nodes, k, m, n);
      SplicedNextLinks(nodes, k, m, n);
      SplicedPrevLinks(nodes, k, m, n);
      nodes := SplicedNodes(nodes, k, m, n);
    }

    /** The pointer assignments of list_splice. */
    method SpliceLinks(before: Elem<K>, first: Elem<K>, last: Elem<K>, ghost k: nat, ghost m: nat, ghost n: nat)
      requires Valid()
      requires 0 < m < n < |nodes| && 0 < k < |nodes| && (k < m || n <= k)
      requires before == nodes[k] && first == nodes[m] && last == nodes[n]
      modifies repr
      ensures head.prev == null && tail.next == null && nodes == old(nodes)
      ensures SplicedNext(nodes, k, m, n) && SplicedPrev(nodes, k, m, n)
    {
      hide Distinct;
      ghost var s := nodes;
      SameNodes(s, m);
      SameNodes(s, n);
      SameNodes(s, 0);
      SameNodes(s, |s| - 1);
      ghost var b, p, q := Relink(before, first, last, repr);
      RelinkedIsSpliced(s, k, m, n, b);
    }

    /** list_splice from another list: its nodes m up to n move to just before node k of this one. */
    method SpliceFrom(other: List<K>, before: Elem<K>, first: Elem<K>, last: Elem<K>,
                      ghost k: nat, ghost m: nat, ghost n: nat)
      requires Valid() && other.Valid() && repr !! other.repr
      requires 0 < m <= n < |other.nodes| && 0 < k < |nodes|
      requires before == nodes[k] && first == other.nodes[m] && last == other.nodes[n]
      modifies this, repr, other, other.repr
      ensures Valid() && other.Valid() && repr !! other.repr
      ensures nodes == old(nodes[..k] + other.nodes[m..n] + nodes[k..])
      ensures other.nodes == old(other.nodes[..m] + other.nodes[n..])
      ensures repr + other.repr == old(repr + other.repr)
    {
      hide NextLinked, PrevLinked, Distinct, Apart, LinksInto, LinksOutOf, MovedSet;
      ghost var s, o, moved := nodes, other.nodes, MovedSet(other.nodes, m, n);
      SameNode(o, m, n);
      NodesMove(s, o, repr, other.repr, k, m, n);
      if first != last {
        SpliceFromLinks(other, before, first, last, k, m, n);
        SplicedInto(s, o, k, m, n);
        SplicedOutOf(s, o, k, m, n);
      }
      nodes, other.nodes := s[..k] + o[m..n] + s[k..], o[..m] + o[n..];
      repr, other.repr := repr + moved, other.repr - moved;
    }

    /** The pointer assignments of list_splice. */
    method SpliceFromLinks(other: List<K>, before: Elem<K>, first: Elem<K>, last: Elem<K>,
                           ghost k: nat, ghost m: nat, ghost n: nat)
      requires Valid() && other.Valid() && repr !! other.repr
      requires 0 < m < n < |other.nodes| && 0 < k < |nodes|
      requires before == nodes[k] && first == other.nodes[m] && last == other.nodes[n]
      modifies repr, other.repr
      ensures head.prev == null && tail.next == null && other.head.prev == null && other.tail.next == null
      ensures nodes == old(nodes) && other.nodes == old(other.nodes) && Apart(nodes, other.nodes)
      ensures LinksInto(nodes, other.nodes, k, m, n) && LinksOutOf(nodes, other.nodes, k, m, n)
    {
      hide Distinct, LinksInto, LinksOutOf;
      ghost var s, o := nodes, other.nodes;
      SameNodes(o, m);
      SameNodes(o, n);
      SameNodes(o, 0);
      SameNodes(o, |o| - 1);
      SameNodes(s, k);
      SameNodes(s, 0);
      SameNodes(s, |s| - 1);
      ApartNodes(s, o, repr, other.repr);
      ghost var b, p, q := Relink(before, first, last, repr + other.repr);
      RelinkedLinksInto(s, o, k, m, n);
      RelinkedLinksOutOf(s, o, k, m, n);
    }

    /** list_reverse */
    method Reverse()
      requires Valid()
      modifies this, repr
      ensures Valid()
      ensures nodes == Reversed(old(nodes)) && repr == old(repr)
    {
      ghost var s := nodes;
      if head.next == tail {
        assert s == Reversed(s);
        return;
      }
      SwapInterior(s);
      head.next, tail.prev := tail.prev, head.next;
      head.next.prev, tail.prev.next := tail.prev.next, head.next.prev;
      RelinkReversed(s);
      nodes := Reversed(s);
    }

    /** The loop of list_reverse: swaps the links of every interior element. */
    method SwapInterior(ghost s: seq<Elem<K>>)
      requires Valid() && s == nodes
      modifies repr
      ensures nodes == s
      ensures s[0].next == s[1] && s[|s| - 1].prev == s[|s| - 2]
      ensures head.prev == null && tail.next == null
      ensures forall i {:trigger s[i].prev} | 0 < i < |s| - 1 :: s[i].prev == s[i + 1]
      ensures forall i {:trigger s[i].next} | 0 < i < |s| - 1 :: s[i].next == s[i - 1]
    {
      var e := head.next;
      ghost var k := 1;
      while e != tail
        invariant 1 <= k <= |s| - 1 && e == s[k]
        invariant forall i {:trigger s[i].prev} | 0 < i < |s| :: s[i].prev == if i < k then s[i + 1] else s[i - 1]
        invariant forall i {:trigger s[i].next} | 0 <= i < |s| - 1 ::
                    s[i].next == if 0 < i < k then s[i - 1] else s[i + 1]
        invariant head.prev == null && tail.next == null
        decreases |s| - k
      {
        e.prev, e.next := e.next, e.prev;
        e := e.prev;
        k := k + 1;
      }
    }

    lemma NodeBefore(k: nat)
      requires Valid() && 0 < k < |nodes|
      ensures nodes[k].prev == nodes[k - 1]
    {
    }

    lemma TailIsLast(k: nat)
      requires Valid() && k < |nodes|
      ensures nodes[k] == tail <==> k == |nodes| - 1
    {
    }

    /** find_end_of_run on the range of nodes i up to j. */
    method FindEndOfRun(less: (K, K) -> bool, a: Elem<K>, b: Elem<K>, ghost i: nat, ghost j: nat)
      returns (e: Elem<K>)
      requires Valid()
      requires 0 < i < j < |nodes| && a == nodes[i] && b == nodes[j]
      ensures e == nodes[i + RunEnd(less, nodes[i..j])]
    {
      hide Distinct;
      e := a.next;
      ghost var r := i + 1;
      while e != b && !less(e.key, e.prev.key)
        invariant i < r <= j && e == nodes[r]
        invariant Sorted(less, nodes[i..r])
        decreases j - r
      {
        assert nodes[i..r + 1] == nodes[i..r] + [e];
        e := e.next;
        r := r + 1;
      }
      SameNode(nodes, r, j);
      CutSlice(nodes, i, r, r, j);
      assert r < j ==> e == nodes[i..j][r - i] && e.prev == nodes[i..j][r - i - 1];
      RunEndUnique(less, nodes[i..j], r - i);
    }

    /** The splice of inplace_merge: the front of the second run goes before the front of the first. */
    method TakeSecond(less: (K, K) -> bool, a0: Elem<K>, a1b0: Elem<K>, ghost was: seq<Elem<K>>,
                      ghost lo: nat, ghost mid: nat, ghost hi: nat, ghost i: nat, ghost m: nat)
      requires Valid() && 0 < lo <= mid <= hi < |was|
      requires MergeInvariant(less, was, mid, nodes, lo, i, m, hi)
      requires i < m < hi && a0 == nodes[i] && a1b0 == nodes[m + 1]
      requires less(nodes[m].key, nodes[i].key)
      modifies this, repr
      ensures Valid() && repr == old(repr)
      ensures MergeInvariant(less, was, mid, nodes, lo, i + 1, m + 1, hi)
      ensures a0 == nodes[i + 1] && a1b0 == nodes[m + 1] && nodes[hi] == old(nodes[hi])
    {
      hide Merge, NextLinked, PrevLinked, Distinct, SplicedNodes, MergeInvariant;
      TakeSecondNodes(less, was, mid, nodes, lo, i, m, hi);
      NodeBefore(m + 1);
      Splice(a0, a1b0.prev, a1b0, i, m, m + 1);
    }

    /** inplace_merge of the ranges lo up to mid and mid up to hi. */
    method InplaceMerge(less: (K, K) -> bool, a: Elem<K>, b: Elem<K>, b1: Elem<K>,
                        ghost lo: nat, ghost mid: nat, ghost hi: nat)
      requires Valid()
      requires 0 < lo < mid < hi < |nodes|
      requires a == nodes[lo] && b == nodes[mid] && b1 == nodes[hi]
      modifies this, repr
      ensures Valid() && repr == old(repr)
      ensures nodes == old(nodes[..lo] + Merge(less, nodes[lo..mid], nodes[mid..hi]) + nodes[hi..])
    {
      hide Merge, PrevLinked, Distinct;
      var a0, a1b0 := a, b;
      ghost var i, m := lo, mid;
      ghost var was := nodes;
      MergeStart(less, was, lo, mid, hi);
      while a0 != a1b0 && a1b0 != b1
        invariant Valid() && repr == old(repr)
        invariant MergeInvariant(less, was, mid, nodes, lo, i, m, hi)
        invariant a0 == nodes[i] && a1b0 == nodes[m] && b1 == nodes[hi]
        decreases hi - i
      {
        if !less(a1b0.key, a0.key) {
          MergeTakeFirst(less, was, mid, nodes, lo, i, m, hi);
          a0 := a0.next;
        } else {
          a1b0 := a1b0.next;
          TakeSecond(less, a0, a1b0, was, lo, mid, hi, i, m);
          m := m + 1;
        }
        i := i + 1;
      }
      SameNode(nodes, i, m);
      SameNode(nodes, m, hi);
      MergeDone(less, was, mid, nodes, lo, i, m, hi);
    }

    /** The body of the inner loop of list_sort, from node k; b1 is where the next round starts. */
    method MergeTwoRuns(less: (K, K) -> bool, a0: Elem<K>, ghost k: nat, ghost m: nat, ghost n: nat)
      returns (b1: Elem<K>)
      requires Valid()
      requires 0 < k < |nodes| - 1 && a0 == nodes[k]
      requires m == FirstEnd(less, nodes, k) && n == SecondEnd(less, nodes, k)
      modifies this, repr
      ensures Valid() && repr == old(repr)
      ensures MergedAt(less, old(nodes), k, m, n, nodes)
      ensures n < |nodes| && b1 == nodes[n]
    {
      hide NextLinked, PrevLinked, Distinct, RunEnd, PairEnd, FirstEnd, SecondEnd, Merge;
      ghost var end := |nodes| - 1;
      RunsAt(less, nodes, k, m, n);
      TailIsLast(m);
      var a1b0 := FindEndOfRun(less, a0, tail, k, end);
      if a1b0 == tail {
        MergedWithNone(less, nodes, k, m);
        return tail;
      }
      b1 := FindEndOfRun(less, a1b0, tail, m, end);
      InplaceMerge(less, a0, a1b0, b1, k, m, n);
    }

    /** One iteration of the outer loop of list_sort; returns output_run_cnt. */
    method MergePass(less: (K, K) -> bool) returns (outputRunCnt: nat)
      requires Valid()
      modifies this, repr
      ensures Valid() && repr == old(repr)
      ensures Contents() == Pass(less, old(Contents()))
      ensures outputRunCnt == OutputRuns(less, old(Contents()))
    {
      outputRunCnt := 0;
      var a0 := head.next;
      ghost var k := 1;
      assert a0 == nodes[k];
      hide NextLinked, PrevLinked, Distinct, Pass, OutputRuns, FirstEnd, SecondEnd, PassAt, MergedAt;
      ghost var goal, total := Pass(less, Contents()), OutputRuns(less, Contents());
      PassAtStart(less, nodes);
      while a0 != tail
        invariant Valid() && repr == old(repr)
        invariant 0 < k < |nodes| && a0 == nodes[k]
        invariant PassAt(less, nodes, k, outputRunCnt, goal, total)
        decreases |nodes| - k
      {
        TailIsLast(k);
        ghost var s, m, n := nodes, FirstEnd(less, nodes, k), SecondEnd(less, nodes, k);
        a0 := MergeTwoRuns(less, a0, k, m, n);
        PassRound(less, s, k, nodes, outputRunCnt, goal, total);
        k := n;
        outputRunCnt := outputRunCnt + 1;
      }
      TailIsLast(k);
      PassAtEnd(less, nodes, outputRunCnt, goal, total);
    }

    /** list_sort */
    method Sort(less: (K, K) -> bool)
      requires Valid() && StrictWeakOrder(less)
      modifies this, repr
      ensures Valid() && repr == old(repr)
      ensures Sorted(less, Contents())
      ensures StableRearrangement(less, old(Contents()), Contents())
    {
      var outputRunCnt := 2; // the loop is do ... while
      while outputRunCnt > 1
        invariant Valid() && repr == old(repr)
        invariant StableRearrangement(less, old(Contents()), Contents())
        invariant outputRunCnt <= 1 ==> Sorted(less, Contents())
        decreases if outputRunCnt > 1 then 1 + Runs(less, Contents()) else 0
      {
        ghost var s := Contents();
        outputRunCnt := MergePass(less);
        forall x { PassClass(less, s, x); }
        PassHalvesRuns(less, s);
        RunsAfterPass(less, s);
        if outputRunCnt <= 1 { PassDone(less, s); }
      }
    }

    /** The loop of list_insert_ordered: the first element that is greater. */
    method FindGreater(elem: Elem<K>, less: (K, K) -> bool) returns (e: Elem<K>, ghost k: nat)
      requires Valid()
      ensures k == InsertionPoint(less, Contents(), elem.key) && k + 1 < |nodes| && e == nodes[k + 1]
    {
      ghost var s := Contents();
      hide PrevLinked, Distinct;
      e, k := head.next, 0;
      while e != tail
        invariant 0 <= k <= |s| && e == nodes[k + 1]
        invariant forall i | 0 <= i < k :: !less(elem.key, s[i].key)
        decreases |s| - k
      {
        assert e == s[k];
        if less(elem.key, e.key) { break; }
        e := e.next;
        k := k + 1;
      }
    }

    /** list_insert_ordered */
    method InsertOrdered(elem: Elem<K>, less: (K, K) -> bool)
      requires Valid() && StrictWeakOrder(less)
      requires Sorted(less, Contents())
      requires elem !in repr
      modifies this, repr, elem
      ensures Valid() && repr == old(repr) + {elem}
      ensures Contents() == OrderedInsert(less, old(Contents()), elem)
      ensures Sorted(less, Contents())
      ensures StableRearrangement(less, old(Contents()) + [elem], Contents())
    {
      hide NextLinked, PrevLinked, Distinct, Linked, OrderedInsert, Sorted;
      ghost var s, was := Contents(), nodes;
      var e, k := FindGreater(elem, less);
      InsertedBetween(less, was, k, elem, was[..k + 1] + [elem] + was[k + 1..]);
      Insert(e, elem, k + 1);
      OrderedInsertSorted(less, s, elem);
      forall x { OrderedInsertClass(less, s, elem, x); }
    }
  }
}
