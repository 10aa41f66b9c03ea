// Heapsort and binary search on arrays of fixed-size elements: sort and binary_search of
// Pintos/lib/stdlib.c.  An array is bytes; element k of `size` bytes starts at byte k * size.
module SortSearch {
  import opened Prelude
  import opened Bits

  type Elem = seq<byte>

  /** compare returns the sign of a total preorder, as the comments in stdlib.c ask. */
  ghost predicate TotalPreorder(compare: (Elem, Elem) -> int) {
    && (forall x, y :: compare(x, y) > 0 <==> compare(y, x) < 0)
    && (forall x, y, z :: compare(x, y) <= 0 && compare(y, z) <= 0 ==> compare(x, z) <= 0)
  }

  predicate Sorted(compare: (Elem, Elem) -> int, s: seq<Elem>) {
    forall i, j | 0 <= i < j < |s| :: compare(s[i], s[j]) <= 0
  }

  // ----- Elements in bytes -----

  /** Where element k starts. */
  function Offset(k: nat, size: nat): nat { k * size }

  lemma Offsets(k: nat, total: nat, size: nat)
    requires k < total
    ensures Offset(k, size) + size <= Offset(total, size)
    ensures Offset(k, size) + size == Offset(k + 1, size)
  {
    NextOffset(k, size);
    MulMonotonic(k + 1, total, size);
  }

  lemma NextOffset(k: nat, size: nat)
    ensures (k + 1) * size == k * size + size
  {
  }

  function ElemAt(s: seq<byte>, k: nat, size: nat): Elem
    requires Offset(k, size) + size <= |s|
  {
    s[Offset(k, size)..Offset(k, size) + size]
  }

  function Elems(s: seq<byte>, total: nat, size: nat): (e: seq<Elem>)
    requires Offset(total, size) <= |s|
    ensures |e| == total
  {
    seq(total, k requires 0 <= k < total => Offsets(k, total, size); ElemAt(s, k, size))
  }

  ghost function View(a: array<byte>, total: nat, size: nat): (e: seq<Elem>)
    requires Offset(total, size) <= a.Length
    ensures |e| == total
    reads a
  {
    Elems(a[..], total, size)
  }

  /** The bytes after the elements. */
  ghost function Rest(a: array<byte>, total: nat, size: nat): seq<byte>
    requires Offset(total, size) <= a.Length
    reads a
  {
    a[..][Offset(total, size)..]
  }

  function Swap<T>(s: seq<T>, i: nat, j: nat): (t: seq<T>)
    requires i < |s| && j < |s|
    ensures |t| == |s|
  {
    s[i := s[j]][j := s[i]]
  }

  /** The elements of s and t are the same, in some order. */
  ghost predicate Permutation<T>(s: seq<T>, t: seq<T>) { multiset(s) == multiset(t) }

  lemma SwapPermutes<T>(s: seq<T>, i: nat, j: nat)
    requires i < |s| && j < |s|
    ensures Permutation(s, Swap(s, i, j))
  {
  }

  /** Where byte x comes from when the n bytes at p and those at q change places. */
  function Source(p: nat, q: nat, n: nat, x: nat): nat {
    if p <= x < p + n then x - p + q else if q <= x < q + n then x - q + p else x
  }

  ghost predicate BytesSwapped(was: seq<byte>, now: seq<byte>, p: nat, q: nat, n: nat)
    requires |now| == |was| && p + n <= |was| && q + n <= |was|
  {
    forall x | 0 <= x < |was| :: now[x] == was[Source(p, q, n, x)]
  }

  lemma BlockSwapped(was: seq<byte>, now: seq<byte>, p: nat, q: nat, n: nat, r: nat, from: nat)
    requires |now| == |was| && p + n <= |was| && q + n <= |was| && r + n <= |was| && from + n <= |was|
    requires BytesSwapped(was, now, p, q, n)
    requires p == q || p + n <= q || q + n <= p
    requires (r == p && from == q) || (r == q && from == p)
          || ((r + n <= p || p + n <= r) && (r + n <= q || q + n <= r) && from == r)
    ensures now[r..r + n] == was[from..from + n]
  {
    forall x | r <= x < r + n
      ensures now[x] == was[x - r + from]
    {
    }
  }

  /** Two elements start at the same byte or do not overlap. */
  lemma SameOrApart(i: nat, j: nat, size: nat)
    ensures i == j || Offset(i, size) + size <= Offset(j, size) || Offset(j, size) + size <= Offset(i, size)
  {
    if i < j { Offsets(i, j, size); }
    if j < i { Offsets(j, i, size); }
  }

  lemma ElemSwapped(was: seq<byte>, now: seq<byte>, i: nat, j: nat, size: nat, k: nat, from: nat)
    requires |now| == |was| && from == if k == i then j else if k == j then i else k
    requires Offset(i, size) + size <= |was| && Offset(j, size) + size <= |was| && Offset(k, size) + size <= |was|
    requires BytesSwapped(was, now, Offset(i, size), Offset(j, size), size)
    ensures ElemAt(now, k, size) == ElemAt(was, from, size)
  {
    hide Offset, BytesSwapped;
    SameOrApart(i, j, size);
    SameOrApart(k, i, size);
    SameOrApart(k, j, size);
    BlockSwapped(was, now, Offset(i, size), Offset(j, size), size, Offset(k, size), Offset(from, size));
  }

  lemma SwapMore(was: seq<byte>, now: seq<byte>, p: nat, q: nat, n: nat)
    requires |now| == |was| && p + n < |was| && q + n < |was| && (p == q || p + n < q || q + n < p)
    requires BytesSwapped(was, now, p, q, n)
    ensures BytesSwapped(was, now[p + n := now[q + n]][q + n := now[p + n]], p, q, n + 1)
  {
  }

  lemma RestStays(was: seq<byte>, now: seq<byte>, p: nat, q: nat, n: nat, from: nat)
    requires |now| == |was| && p + n <= from <= |was| && q + n <= from
    requires BytesSwapped(was, now, p, q, n)
    ensures now[from..] == was[from..]
  {
  }

  /** do_swap, with 1-based indexes. */
  method DoSwap(a: array<byte>, aIdx: nat, bIdx: nat, size: nat, ghost total: nat)
    requires 1 <= aIdx <= total && 1 <= bIdx <= total && Offset(total, size) <= a.Length
    modifies a
    ensures View(a, total, size) == Swap(old(View(a, total, size)), aIdx - 1, bIdx - 1)
    ensures Rest(a, total, size) == old(Rest(a, total, size))
  {
    hide Offset, BytesSwapped;
    var i, j := aIdx - 1, bIdx - 1;
    Offsets(i, total, size);
    Offsets(j, total, size);
    SameOrApart(i, j, size);
    SwapBytes(a, Offset(i, size), Offset(j, size), size);
    RestStays(old(a[..]), a[..], Offset(i, size), Offset(j, size), size, Offset(total, size));
    forall k | 0 <= k < total
      ensures View(a, total, size)[k] == Swap(old(View(a, total, size)), i, j)[k]
    {
      Offsets(k, total, size);
      ElemSwapped(old(a[..]), a[..], i, j, size, k, if k == i then j else if k == j then i else k);
    }
  }

  /** The loop of do_swap. */
  method SwapBytes(a: array<byte>, p: nat, q: nat, size: nat)
    requires p + size <= a.Length && q + size <= a.Length && (p == q || p + size <= q || q + size <= p)
    modifies a
    ensures BytesSwapped(old(a[..]), a[..], p, q, size)
  {
    ghost var was := a[..];
    for i := 0 to size
      invariant BytesSwapped(was, a[..], p, q, i)
    {
      SwapMore(was, a[..], p, q, i);
      ghost var now := a[..];
      var t := a[p + i];
      a[p + i] := a[q + i];
      a[q + i] := t;
      assert a[..] == now[p + i := now[q + i]][q + i := now[p + i]];
    }
  }

  // ----- Heaps -----

  /** Element c is not greater than its parent; indexes are 1-based. */
  predicate Below(compare: (Elem, Elem) -> int, s: seq<Elem>, p: nat, c: nat, n: nat)
    requires n <= |s|
  {
    1 <= p <= n && 1 <= c <= n ==> compare(s[c - 1], s[p - 1]) <= 0
  }

  /** Each of the first n elements from position lo on is at least as great as its children. */
  ghost predicate HeapFrom(compare: (Elem, Elem) -> int, s: seq<Elem>, lo: nat, n: nat)
    requires n <= |s|
  {
    forall c {:trigger Below(compare, s, c / 2, c, n)} | 2 * lo <= c <= n :: Below(compare, s, c / 2, c, n)
  }

  /** As HeapFrom, but the element at position i may be too small; what is above it is not
      smaller than what is below it. */
  ghost predicate Sinking(compare: (Elem, Elem) -> int, s: seq<Elem>, lo: nat, i: nat, n: nat)
    requires n <= |s|
  {
    && (forall c {:trigger Below(compare, s, c / 2, c, n)} | 2 * lo <= c <= n && c / 2 != i ::
          Below(compare, s, c / 2, c, n))
    && (i / 2 >= lo ==> Below(compare, s, i / 2, 2 * i, n) && Below(compare, s, i / 2, 2 * i + 1, n))
  }

  /** The greatest element of a heap is the first. */
  lemma {:induction false} RootIsGreatest(compare: (Elem, Elem) -> int, s: seq<Elem>, n: nat, k: nat)
    requires TotalPreorder(compare) && n <= |s| && HeapFrom(compare, s, 1, n) && 1 <= k <= n
    ensures compare(s[k - 1], s[0]) <= 0
  {
    if k == 1 {
      assert compare(s[0], s[0]) <= 0;
    } else {
      RootIsGreatest(compare, s, n, k / 2);
      assert Below(compare, s, k / 2, k, n);
    }
  }

  /** The parents p of c before and after the elements at i and its greater child m change places. */
  lemma SinkOne(compare: (Elem, Elem) -> int, s: seq<Elem>, i: nat, m: nat, p: nat, c: nat, n: nat)
    requires TotalPreorder(compare) && 1 <= i < m <= n <= |s| && 1 <= p < c <= n && p != m
    requires compare(s[m - 1], s[i - 1]) > 0
    requires p == i ==> Below(compare, s, m, c, n)
    requires c == i ==> Below(compare, s, p, m, n)
    requires c == m ==> p == i
    requires p != i ==> Below(compare, s, p, c, n)
    ensures Below(compare, Swap(s, i - 1, m - 1), p, c, n)
  {
  }

  lemma SinkAny(compare: (Elem, Elem) -> int, s: seq<Elem>, lo: nat, i: nat, m: nat, p: nat, c: nat, n: nat)
    requires TotalPreorder(compare) && 1 <= lo <= i <= n <= |s| && Sinking(compare, s, lo, i, n)
    requires (m == 2 * i || m == 2 * i + 1) && m <= n && p == c / 2
    requires compare(s[m - 1], s[i - 1]) > 0
    requires Below(compare, s, m, 2 * i, n) && Below(compare, s, m, 2 * i + 1, n)
    requires 2 * lo <= c <= n && p != m
    ensures Below(compare, Swap(s, i - 1, m - 1), p, c, n)
  {
    hide TotalPreorder, Below, Swap;
    assert c == 2 * p || c == 2 * p + 1;
    assert p != i ==> Below(compare, s, c / 2, c, n);
    SinkOne(compare, s, i, m, p, c, n);
  }

  /** The element at i has sunk to its greater child's place. */
  lemma SinkStep(compare: (Elem, Elem) -> int, s: seq<Elem>, lo: nat, i: nat, m: nat, n: nat)
    requires TotalPreorder(compare) && 1 <= lo <= i <= n <= |s| && Sinking(compare, s, lo, i, n)
    requires (m == 2 * i || m == 2 * i + 1) && m <= n
    requires compare(s[m - 1], s[i - 1]) > 0
    requires Below(compare, s, m, 2 * i, n) && Below(compare, s, m, 2 * i + 1, n)
    ensures Sinking(compare, Swap(s, i - 1, m - 1), lo, m, n)
  {
    hide TotalPreorder, Below, Swap;
    var t := Swap(s, i - 1, m - 1);
    forall c {:trigger Below(compare, t, c / 2, c, n)} | 2 * lo <= c <= n && c / 2 != m
      ensures Below(compare, t, c / 2, c, n)
    {
      SinkAny(compare, s, lo, i, m, c / 2, c, n);
    }
    assert m / 2 == i;
    Grandchild(compare, s, lo, i, m, 2 * m, n);
    Grandchild(compare, s, lo, i, m, 2 * m + 1, n);
  }

  lemma Grandchild(compare: (Elem, Elem) -> int, s: seq<Elem>, lo: nat, i: nat, m: nat, c: nat, n: nat)
    requires 1 <= lo <= i < m <= n <= |s| && Sinking(compare, s, lo, i, n) && c / 2 == m
    ensures Below(compare, Swap(s, i - 1, m - 1), i, c, n)
  {
    assert c <= n ==> Below(compare, s, c / 2, c, n);
  }

  lemma SinkDone(compare: (Elem, Elem) -> int, s: seq<Elem>, lo: nat, i: nat, n: nat)
    requires n <= |s| && Sinking(compare, s, lo, i, n)
    requires Below(compare, s, i, 2 * i, n) && Below(compare, s, i, 2 * i + 1, n)
    ensures HeapFrom(compare, s, lo, n)
  {
    forall c {:trigger Below(compare, s, c / 2, c, n)} | 2 * lo <= c <= n
      ensures Below(compare, s, c / 2, c, n)
    {
      if c / 2 == i { assert c == 2 * i || c == 2 * i + 1; }
    }
  }

  /** Only the first n elements have changed, and only in their order. */
  ghost predicate ReorderedWithin(s: seq<Elem>, t: seq<Elem>, n: nat) {
    |s| == |t| && n <= |s| && Permutation(s[..n], t[..n]) && t[n..] == s[n..]
  }

  lemma ReorderedSwap(s: seq<Elem>, t: seq<Elem>, i: nat, j: nat, n: nat)
    requires ReorderedWithin(s, t, n) && i < n && j < n
    ensures ReorderedWithin(s, Swap(t, i, j), n)
  {
    SwapPermutes(t[..n], i, j);
    assert Swap(t, i, j)[..n] == Swap(t[..n], i, j);
  }

  lemma ReorderedAll(s: seq<Elem>, t: seq<Elem>, n: nat)
    requires ReorderedWithin(s, t, n)
    ensures Permutation(s, t)
  {
    assert s == s[..n] + s[n..] && t == t[..n] + t[n..];
  }

  /** do_compare of two elements, with 1-based indexes. */
  method DoCompare(a: array<byte>, aIdx: nat, bIdx: nat, size: nat, compare: (Elem, Elem) -> int, ghost total: nat)
    returns (r: int)
    requires 1 <= aIdx <= total && 1 <= bIdx <= total && Offset(total, size) <= a.Length
    ensures r == compare(View(a, total, size)[aIdx - 1], View(a, total, size)[bIdx - 1])
  {
    Offsets(aIdx - 1, total, size);
    Offsets(bIdx - 1, total, size);
    var p, q := Offset(aIdx - 1, size), Offset(bIdx - 1, size);
    hide Offset;
    assert a[p..p + size] == a[..][p..p + size] && a[q..q + size] == a[..][q..q + size];
    r := compare(a[p..p + size], a[q..q + size]);
  }

  /** The first part of heapify's loop: the index of the greatest among i and its children. */
  method FindMax(a: array<byte>, i: nat, n: nat, size: nat, compare: (Elem, Elem) -> int, ghost total: nat)
    returns (max: nat)
    requires TotalPreorder(compare) && 1 <= i <= n <= total && Offset(total, size) <= a.Length
    ensures var s := View(a, total, size);
            && Below(compare, s, max, 2 * i, n) && Below(compare, s, max, 2 * i + 1, n)
            && (max != i ==> (max == 2 * i || max == 2 * i + 1) && max <= n && compare(s[max - 1], s[i - 1]) > 0)
  {
    hide View, Offset, Below, TotalPreorder;
    var left, right := 2 * i, 2 * i + 1;
    max := i;
    if left <= n {
      var cmp := DoCompare(a, left, max, size, compare, total);
      if cmp > 0 { max := left; }
    }
    if right <= n {
      var cmp := DoCompare(a, right, max, size, compare, total);
      if cmp > 0 { max := right; }
    }
    MaxOfThree(compare, View(a, total, size), i, max, n);
  }

  /** heapify: the first n elements become a heap from position start on. */
  method Heapify(a: array<byte>, start: nat, n: nat, size: nat, compare: (Elem, Elem) -> int, ghost total: nat)
    requires TotalPreorder(compare) && 1 <= start <= n <= total && Offset(total, size) <= a.Length
    requires HeapFrom(compare, View(a, total, size), start + 1, n)
    modifies a
    ensures HeapFrom(compare, View(a, total, size), start, n)
    ensures ReorderedWithin(old(View(a, total, size)), View(a, total, size), n)
    ensures Rest(a, total, size) == old(Rest(a, total, size))
  {
    hide View, Rest, Offset, HeapFrom, Sinking, Swap, ReorderedWithin, TotalPreorder, Below;
    var i := start;
    ghost var was := View(a, total, size);
    StartSinking(compare, was, start, n);
    while true
      invariant start <= i <= n
      invariant Sinking(compare, View(a, total, size), start, i, n)
      invariant ReorderedWithin(was, View(a, total, size), n)
      invariant Rest(a, total, size) == old(Rest(a, total, size))
      decreases n - i
    {
      ghost var s := View(a, total, size);
      var max := FindMax(a, i, n, size, compare, total);
      if max == i {
        SinkDone(compare, s, start, i, n);
        break;
      }
      SinkStep(compare, s, start, i, max, n);
      ReorderedSwap(was, s, i - 1, max - 1, n);
      DoSwap(a, i, max, size, total);
      i := max;
    }
  }

  lemma StartSinking(compare: (Elem, Elem) -> int, s: seq<Elem>, start: nat, n: nat)
    requires n <= |s| && HeapFrom(compare, s, start + 1, n) && 1 <= start
    ensures Sinking(compare, s, start, start, n)
    ensures ReorderedWithin(s, s, n)
  {
    forall c {:trigger Below(compare, s, c / 2, c, n)} | 2 * start <= c <= n && c / 2 != start
      ensures Below(compare, s, c / 2, c, n)
    {
      assert c >= 2 * (start + 1);
    }
  }

  /** What heapify's three comparisons find. */
  lemma MaxOfThree(compare: (Elem, Elem) -> int, s: seq<Elem>, i: nat, max: nat, n: nat)
    requires TotalPreorder(compare) && 1 <= i <= n <= |s|
    requires var l := if 2 * i <= n && compare(s[2 * i - 1], s[i - 1]) > 0 then 2 * i else i;
             max == if 2 * i + 1 <= n && compare(s[2 * i], s[l - 1]) > 0 then 2 * i + 1 else l
    ensures Below(compare, s, max, 2 * i, n) && Below(compare, s, max, 2 * i + 1, n)
    ensures max != i ==> (max == 2 * i || max == 2 * i + 1) && max <= n && compare(s[max - 1], s[i - 1]) > 0
  {
    assert compare(s[max - 1], s[max - 1]) <= 0;
  }

  /** The elements from n on are sorted and none of them is less than one of the first n. */
  ghost predicate SortedFrom(compare: (Elem, Elem) -> int, s: seq<Elem>, n: nat) {
    && n <= |s| && Sorted(compare, s[n..])
    && forall x, y | x in s[..n] && y in s[n..] :: compare(x, y) <= 0
  }

  /** The greatest element of the heap has been put before the sorted ones. */
  lemma ExtractStep(compare: (Elem, Elem) -> int, s: seq<Elem>, n: nat)
    requires TotalPreorder(compare) && 1 < n <= |s| && HeapFrom(compare, s, 1, n) && SortedFrom(compare, s, n)
    ensures SortedFrom(compare, Swap(s, 0, n - 1), n - 1)
    ensures HeapFrom(compare, Swap(s, 0, n - 1), 2, n - 1)
  {
    var t := Swap(s, 0, n - 1);
    ExtractSorted(compare, s, n);
    forall c {:trigger Below(compare, t, c / 2, c, n - 1)} | 2 * 2 <= c <= n - 1
      ensures Below(compare, t, c / 2, c, n - 1)
    {
      assert Below(compare, s, c / 2, c, n);
    }
  }

  lemma ExtractSorted(compare: (Elem, Elem) -> int, s: seq<Elem>, n: nat)
    requires TotalPreorder(compare) && 1 < n <= |s| && HeapFrom(compare, s, 1, n) && SortedFrom(compare, s, n)
    ensures SortedFrom(compare, Swap(s, 0, n - 1), n - 1)
  {
    var t := Swap(s, 0, n - 1);
    assert t[n - 1..] == [s[0]] + s[n..];
    forall x | x in t[..n - 1]
      ensures x in s[..n] && compare(x, s[0]) <= 0
    {
      var k :| 0 <= k < n - 1 && t[k] == x;
      var j := if k == 0 then n - 1 else k;
      assert s[..n][j] == x;
      RootIsGreatest(compare, s, n, j + 1);
    }
    assert s[..n][0] == s[0];
    hide HeapFrom, Swap;
  }

  /** Reordering the first elements keeps the rest sorted and above them. */
  lemma SortedFromReordered(compare: (Elem, Elem) -> int, s: seq<Elem>, t: seq<Elem>, n: nat)
    requires SortedFrom(compare, s, n) && ReorderedWithin(s, t, n)
    ensures SortedFrom(compare, t, n)
  {
    forall x | x in t[..n]
      ensures x in s[..n]
    {
      assert x in multiset(t[..n]);
    }
  }

  /** The first loop of sort. */
  method BuildHeap(a: array<byte>, cnt: nat, size: nat, compare: (Elem, Elem) -> int)
    requires TotalPreorder(compare) && Offset(cnt, size) <= a.Length
    modifies a
    ensures HeapFrom(compare, View(a, cnt, size), 1, cnt)
    ensures Permutation(old(View(a, cnt, size)), View(a, cnt, size))
    ensures Rest(a, cnt, size) == old(Rest(a, cnt, size))
  {
    hide View, Rest, Offset, TotalPreorder, ReorderedWithin, Permutation, HeapFrom;
    ghost var was := View(a, cnt, size);
    NoHeap(compare, was);
    for i := cnt / 2 downto 0
      invariant HeapFrom(compare, View(a, cnt, size), i + 1, cnt)
      invariant Permutation(was, View(a, cnt, size)) && Rest(a, cnt, size) == old(Rest(a, cnt, size))
    {
      ghost var s := View(a, cnt, size);
      Heapify(a, i + 1, cnt, size, compare, cnt);
      Reordered(was, s, View(a, cnt, size), cnt);
    }
  }

  /** sort */
  method Sort(a: array<byte>, cnt: nat, size: nat, compare: (Elem, Elem) -> int)
    requires TotalPreorder(compare) && Offset(cnt, size) <= a.Length
    modifies a
    ensures Sorted(compare, View(a, cnt, size))
    ensures Permutation(old(View(a, cnt, size)), View(a, cnt, size))
    ensures Rest(a, cnt, size) == old(Rest(a, cnt, size))
  {
    hide View, Rest, Offset, Swap, TotalPreorder, Sorted, SortedFrom, ReorderedWithin, Permutation, HeapFrom;
    ghost var was := View(a, cnt, size);
    BuildHeap(a, cnt, size, compare);
    NoneSorted(compare, View(a, cnt, size));
    var i: nat := cnt;
    while i > 1
      invariant i <= cnt
      invariant HeapFrom(compare, View(a, cnt, size), 1, i) && SortedFrom(compare, View(a, cnt, size), i)
      invariant Permutation(was, View(a, cnt, size)) && Rest(a, cnt, size) == old(Rest(a, cnt, size))
    {
      ghost var s := View(a, cnt, size);
      ExtractStep(compare, s, i);
      DoSwap(a, 1, i, size, cnt);
      ghost var t := View(a, cnt, size);
      Heapify(a, 1, i - 1, size, compare, cnt);
      SortedFromReordered(compare, t, View(a, cnt, size), i - 1);
      SwapAndReorder(was, s, t, View(a, cnt, size), i);
      i := i - 1;
    }
    AllSorted(compare, View(a, cnt, size), i);
  }

  lemma NoHeap(compare: (Elem, Elem) -> int, s: seq<Elem>)
    ensures HeapFrom(compare, s, |s| / 2 + 1, |s|) && Permutation(s, s)
  {
  }

  lemma Reordered(was: seq<Elem>, s: seq<Elem>, t: seq<Elem>, n: nat)
    requires Permutation(was, s) && ReorderedWithin(s, t, n)
    ensures Permutation(was, t)
  {
    ReorderedAll(s, t, n);
  }

  lemma SwapAndReorder(was: seq<Elem>, s: seq<Elem>, t: seq<Elem>, u: seq<Elem>, n: nat)
    requires Permutation(was, s) && 1 < n <= |s| && t == Swap(s, 0, n - 1) && ReorderedWithin(t, u, n - 1)
    ensures Permutation(was, u)
  {
    SwapPermutes(s, 0, n - 1);
    ReorderedAll(t, u, n - 1);
  }

  lemma NoneSorted(compare: (Elem, Elem) -> int, s: seq<Elem>)
    ensures SortedFrom(compare, s, |s|)
  {
  }

  lemma AllSorted(compare: (Elem, Elem) -> int, s: seq<Elem>, n: nat)
    requires SortedFrom(compare, s, n) && n <= 1
    ensures Sorted(compare, s)
  {
    forall i, j | 0 <= i < j < |s|
      ensures compare(s[i], s[j]) <= 0
    {
      assert s[j] == s[n..][j - n];
      if i < n { assert s[..n][i] == s[i]; } else { assert s[i] == s[n..][i - n]; }
    }
  }

  /** binary_search: the offset of a matching element, and none exactly when none matches. */
  method BinarySearch(key: Elem, a: array<byte>, cnt: nat, size: nat, compare: (Elem, Elem) -> int)
    returns (r: Option<nat>, ghost k: nat)
    requires TotalPreorder(compare) && Offset(cnt, size) <= a.Length && size > 0
    requires Sorted(compare, View(a, cnt, size))
    ensures r.Some? ==> k < cnt && r.value == Offset(k, size) && compare(key, View(a, cnt, size)[k]) == 0
    ensures r == None <==> forall j | 0 <= j < cnt :: compare(key, View(a, cnt, size)[j]) != 0
  {
    var first, last := 0, Offset(cnt, size);
    hide Offset, View, TotalPreorder, Sorted;
    OffsetZero(size);
    ghost var lo: nat, hi: nat, e := 0, cnt, View(a, cnt, size);
    k := 0;
    while first < last
      invariant lo <= hi <= cnt && first == Offset(lo, size) && last == Offset(hi, size)
      invariant forall j | 0 <= j < lo :: compare(key, e[j]) > 0
      invariant forall j | hi <= j < cnt :: compare(key, e[j]) < 0
      decreases hi - lo
    {
      RangeIs(lo, hi, size);
      var range := (last - first) / size;
      var middle := first + range / 2 * size;
      k := lo + range / 2;
      MiddleIs(lo, range / 2, size);
      Offsets(k, cnt, size);
      ElemOfView(a, k, cnt, size);
      KeyPasses(compare, key, e, k);
      var cmp := compare(key, a[middle..middle + size]);
      if cmp < 0 {
        last := middle;
        hi := k;
      } else if cmp > 0 {
        first := middle + size;
        lo := k + 1;
      } else {
        return Some(middle), k;
      }
    }
    if lo < hi { Offsets(lo, hi, size); }
    return None, 0;
  }

  lemma OffsetZero(size: nat)
    ensures Offset(0, size) == 0
  {
  }

  lemma ElemOfView(a: array<byte>, k: nat, cnt: nat, size: nat)
    requires k < cnt && Offset(cnt, size) <= a.Length
    ensures Offset(k, size) + size <= a.Length
    ensures a[Offset(k, size)..Offset(k, size) + size] == View(a, cnt, size)[k]
  {
    Offsets(k, cnt, size);
    hide Offset;
  }

  /** What is on the far side of an element is on the far side of the key. */
  lemma KeyPasses(compare: (Elem, Elem) -> int, key: Elem, e: seq<Elem>, k: nat)
    requires TotalPreorder(compare) && Sorted(compare, e) && k < |e|
    ensures compare(key, e[k]) < 0 ==> forall j | k <= j < |e| :: compare(key, e[j]) < 0
    ensures compare(key, e[k]) > 0 ==> forall j | 0 <= j <= k :: compare(key, e[j]) > 0
  {
    forall j | k <= j < |e| && compare(key, e[k]) < 0
      ensures compare(key, e[j]) < 0
    {
      if k < j { assert compare(e[k], e[j]) <= 0; }
    }
    forall j | 0 <= j <= k && compare(key, e[k]) > 0
      ensures compare(key, e[j]) > 0
    {
      if j < k { assert compare(e[j], e[k]) <= 0; }
    }
  }

  lemma RangeIs(lo: nat, hi: nat, size: nat)
    requires Offset(lo, size) < Offset(hi, size) && lo <= hi && size > 0
    ensures lo < hi && (Offset(hi, size) - Offset(lo, size)) / size == hi - lo
  {
    assert Offset(hi, size) - Offset(lo, size) == (hi - lo) * size;
    ModUnique((hi - lo) * size, size, hi - lo, 0);
  }

  lemma MiddleIs(lo: nat, h: nat, size: nat)
    ensures Offset(lo, size) + h * size == Offset(lo + h, size)
  {
  }
}
