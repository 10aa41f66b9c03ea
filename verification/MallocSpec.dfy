// The bookkeeping of Pintos/threads/malloc.c as a value: arena headers, free
// lists and the blocks that callers hold.  Malloc.dfy proves that the code moves
// between such values; the lemmas here say what every such value guarantees.
module MallocSpec {
  import opened Bitmap
  import opened Palloc
  import opened Prelude
  import opened Bits

  const HEADER: nat := 12   // sizeof (struct arena)
  const DESC_CNT: nat := 7  // block sizes 16, 32, ..., 1024
  const U32: nat := 0x1_0000_0000

  function BlockSize(d: nat): (s: nat)
    ensures s >= 16
  {
    16 * Pow2(d)
  }

  function BlocksPerArena(d: nat): nat {
    hide BlockSize;
    DivBounds(PGSIZE - HEADER, 0, PGSIZE, BlockSize(d));
    (PGSIZE - HEADER) / BlockSize(d)
  }

  /** arena_to_block: block i of the arena on page pn. */
  function BlockAt(pn: nat, d: nat, i: nat): nat {
    pn * PGSIZE + HEADER + i * BlockSize(d)
  }

  /** An arena header: its descriptor, or None for a big block; free_cnt counts free
      blocks of a normal arena and pages of a big block. */
  datatype Arena = Arena(desc: Option<nat>, freeCnt: nat)
  {
    function Pages(): nat { if desc.None? then freeCnt else 1 }
  }

  /** Headers by page number, one free list per descriptor, and the number of bytes
      granted for each block that is in use. */
  datatype Heap = Heap(arenas: map<nat, Arena>, free: seq<seq<nat>>, live: map<nat, nat>)

  /** x is the address of a block of the normal arena on its page. */
  ghost predicate IsBlock(d: nat, x: nat) {
    exists i | 0 <= i < BlocksPerArena(d) :: x == BlockAt(x / PGSIZE, d, i)
  }

  /** Blocks 0 to n - 1 of an arena, in order. */
  function BlockSeq(pn: nat, d: nat, n: nat): (s: seq<nat>)
    ensures |s| == n && forall i | 0 <= i < n :: s[i] == BlockAt(pn, d, i)
  {
    if n == 0 then [] else BlockSeq(pn, d, n - 1) + [BlockAt(pn, d, n - 1)]
  }

  function Blocks(pn: nat, d: nat, n: nat): (s: set<nat>)
  {
    set i: nat | i < n :: BlockAt(pn, d, i)
  }

  /** The free blocks of one arena. */
  function FreeIn(list: seq<nat>, pn: nat): set<nat> {
    set x | x in list && x / PGSIZE == pn
  }

  ghost predicate FreeListInv(h: Heap, d: nat)
    requires d < |h.free|
  {
    && Distinct(h.free[d])
    && forall x | x in h.free[d] ::
         x / PGSIZE in h.arenas && h.arenas[x / PGSIZE].desc == Some(d) && IsBlock(d, x) && x !in h.live
  }

  ghost predicate ArenaInv(h: Heap, pn: nat)
    requires pn in h.arenas
  {
    match h.arenas[pn].desc
    case None => pn * PGSIZE + HEADER in h.live && h.arenas[pn].freeCnt > 0
    case Some(d) =>
      && d < |h.free|
      && h.arenas[pn].freeCnt == |FreeIn(h.free[d], pn)|
      && forall i: nat | i < BlocksPerArena(d) :: BlockAt(pn, d, i) in h.free[d] || BlockAt(pn, d, i) in h.live
  }

  /** A block in use lies in an arena, behind its header, and has the bytes it was granted. */
  ghost predicate LiveInv(h: Heap, x: nat)
    requires x in h.live
  {
    && x / PGSIZE in h.arenas
    && match h.arenas[x / PGSIZE].desc
       case None => x % PGSIZE == HEADER && HEADER + h.live[x] <= h.arenas[x / PGSIZE].freeCnt * PGSIZE
       case Some(d) => IsBlock(d, x) && h.live[x] <= BlockSize(d)
  }

  ghost predicate Inv(h: Heap) {
    && |h.free| == DESC_CNT
    && (forall d | 0 <= d < DESC_CNT :: FreeListInv(h, d))
    && (forall pn {:trigger ArenaInv(h, pn)} | pn in h.arenas :: ArenaInv(h, pn))
    && (forall x {:trigger LiveInv(h, x)} | x in h.live :: LiveInv(h, x))
  }

  /** Between calls no normal arena is entirely free. */
  ghost predicate Tidy(h: Heap) {
    forall pn | pn in h.arenas && h.arenas[pn].desc.Some? ::
      h.arenas[pn].freeCnt < BlocksPerArena(h.arenas[pn].desc.value)
  }

  // ----- Addresses -----

  lemma BlockSizes()
    ensures BlockSize(0) == 16 && BlockSize(6) == 1024
    ensures forall d: nat | d < DESC_CNT ::
              1 <= BlocksPerArena(d) && BlocksPerArena(d) * BlockSize(d) <= PGSIZE - HEADER
  {
    assert Pow2(3) == 8;
    Pow2Add(3, 3);
    forall d: nat | d < DESC_CNT
      ensures 1 <= BlocksPerArena(d) && BlocksPerArena(d) * BlockSize(d) <= PGSIZE - HEADER
    {
      Pow2Monotonic(d, 6);
      ArenaIsFull(d);
    }
  }

  /** An arena has as many blocks as its page has room for behind the header. */
  lemma ArenaIsFull(d: nat)
    ensures BlocksPerArena(d) * BlockSize(d) <= PGSIZE - HEADER < (BlocksPerArena(d) + 1) * BlockSize(d)
    ensures BlockSize(d) <= PGSIZE - HEADER ==> BlocksPerArena(d) > 0
  {
    hide Pow2, BlockSize;
    DivBounds(PGSIZE - HEADER, 0, PGSIZE, BlockSize(d));
    QuotientRoom(PGSIZE - HEADER, BlockSize(d));
  }

  lemma QuotientRoom(a: nat, s: nat)
    requires s > 0
    ensures a / s * s <= a < (a / s + 1) * s
    ensures s <= a ==> a / s > 0
  {
    assert a == a / s * s + a % s;
    if s <= a && a / s == 0 { assert false; }
  }

  /** Blocks of b bytes are the least that serve a request: block sizes double from 16. */
  predicate LeastBlock(size: nat, b: nat) { size <= b && if size <= 16 then b == 16 else b < 2 * size }

  /** Only one descriptor has the least blocks for a request. */
  lemma LeastBlockOfOne(size: nat, d: nat, e: nat)
    requires LeastBlock(size, BlockSize(d)) && LeastBlock(size, BlockSize(e))
    ensures d == e
  {
    if d < e { Twice(d, e); }
    if e < d { Twice(e, d); }
  }

  lemma Twice(d: nat, e: nat)
    requires d < e
    ensures 2 * BlockSize(d) <= BlockSize(e)
  {
    Pow2Monotonic(d + 1, e);
    assert Pow2(d + 1) == 2 * Pow2(d);
  }

  /** No arena of the least blocks for this request has a free one. */
  ghost predicate NoneFree(arenas: map<nat, Arena>, size: nat) {
    forall pn | pn in arenas && arenas[pn].desc.Some? && LeastBlock(size, BlockSize(arenas[pn].desc.value)) ::
      arenas[pn].freeCnt == 0
  }

  lemma EmptyListNoneFree(h: Heap, d: nat, size: nat)
    requires Inv(h) && d < DESC_CNT && h.free[d] == [] && LeastBlock(size, BlockSize(d))
    ensures NoneFree(h.arenas, size)
  {
    hide BlockSize, BlocksPerArena, LeastBlock;
    forall pn | pn in h.arenas && h.arenas[pn].desc.Some? && LeastBlock(size, BlockSize(h.arenas[pn].desc.value))
      ensures h.arenas[pn].freeCnt == 0
    {
      LeastBlockOfOne(size, d, h.arenas[pn].desc.value);
      assert ArenaInv(h, pn);
      assert FreeIn(h.free[d], pn) == {};
    }
  }

  /** A block lies on its arena's page, behind the header, and ends on that page. */
  lemma BlockOnPage(pn: nat, d: nat, i: nat)
    requires d < DESC_CNT && i < BlocksPerArena(d)
    ensures var x := BlockAt(pn, d, i);
      x / PGSIZE == pn && HEADER <= x % PGSIZE && x + BlockSize(d) <= (pn + 1) * PGSIZE && IsBlock(d, x)
  {
    BlockSizes();
    hide BlockSize;
    var s := BlockSize(d);
    MulMonotonic(i + 1, BlocksPerArena(d), s);
    assert (i + 1) * s == i * s + s;
    assert BlockAt(pn, d, i) / PGSIZE == pn;
  }

  lemma BlocksOnPage(pn: nat, d: nat)
    requires d < DESC_CNT
    ensures forall i: nat | i < BlocksPerArena(d) :: BlockAt(pn, d, i) / PGSIZE == pn
    ensures forall x | x in Blocks(pn, d, BlocksPerArena(d)) :: x / PGSIZE == pn
  {
    hide BlockAt, BlocksPerArena;
    forall i: nat | i < BlocksPerArena(d)
      ensures BlockAt(pn, d, i) / PGSIZE == pn
    {
      BlockOnPage(pn, d, i);
    }
  }

  lemma BlocksApart(pn: nat, d: nat, i: nat, j: nat)
    requires i < j
    ensures BlockAt(pn, d, i) + BlockSize(d) <= BlockAt(pn, d, j)
  {
    hide BlockSize;
    var s := BlockSize(d);
    MulMonotonic(i + 1, j, s);
    assert (i + 1) * s == i * s + s;
  }

  lemma {:induction false} BlocksCount(pn: nat, d: nat, n: nat)
    ensures |Blocks(pn, d, n)| == n
  {
    if n == 0 {
      assert Blocks(pn, d, 0) == {};
    } else {
      BlocksCount(pn, d, n - 1);
      var x := BlockAt(pn, d, n - 1);
      assert Blocks(pn, d, n) == Blocks(pn, d, n - 1) + {x};
      forall i: nat | i < n - 1
        ensures BlockAt(pn, d, i) != x
      {
        BlocksApart(pn, d, i, n - 1);
      }
    }
  }

  // ----- The four state changes -----

  /** A fresh page becomes an arena whose blocks are all appended to the free list. */
  function AddArena(h: Heap, d: nat, pn: nat): Heap
    requires d < |h.free|
  {
    h.(arenas := h.arenas[pn := Arena(Some(d), BlocksPerArena(d))],
       free := h.free[d := h.free[d] + BlockSeq(pn, d, BlocksPerArena(d))])
  }

  /** The front of the free list is handed out. */
  function TakeBlock(h: Heap, d: nat, granted: nat): Heap
    requires d < |h.free| && h.free[d] != [] && h.free[d][0] / PGSIZE in h.arenas
    requires h.arenas[h.free[d][0] / PGSIZE].freeCnt > 0
  {
    var x := h.free[d][0];
    var a := h.arenas[x / PGSIZE];
    Heap(h.arenas[x / PGSIZE := a.(freeCnt := a.freeCnt - 1)], h.free[d := h.free[d][1..]], h.live[x := granted])
  }

  /** A block goes back to the front of its free list. */
  function GiveBlock(h: Heap, x: nat, d: nat): Heap
    requires d < |h.free| && x / PGSIZE in h.arenas
  {
    var a := h.arenas[x / PGSIZE];
    Heap(h.arenas[x / PGSIZE := a.(freeCnt := a.freeCnt + 1)], h.free[d := [x] + h.free[d]], h.live - {x})
  }

  /** The list without the given blocks. */
  function Minus(s: seq<nat>, gone: set<nat>): seq<nat> {
    if s == [] then [] else (if s[0] in gone then [] else [s[0]]) + Minus(s[1..], gone)
  }

  /** An entirely free arena leaves the free list and is forgotten. */
  function DropArena(h: Heap, pn: nat, d: nat): Heap
    requires d < |h.free|
  {
    h.(arenas := h.arenas - {pn}, free := h.free[d := Minus(h.free[d], Blocks(pn, d, BlocksPerArena(d)))])
  }

  function AddBig(h: Heap, pn: nat, pageCnt: nat, granted: nat): Heap {
    h.(arenas := h.arenas[pn := Arena(None, pageCnt)], live := h.live[pn * PGSIZE + HEADER := granted])
  }

  function DropBig(h: Heap, pn: nat): Heap {
    h.(arenas := h.arenas - {pn}, live := h.live - {pn * PGSIZE + HEADER})
  }

  // ----- Each keeps the invariant -----

  lemma BigOnPage(pn: nat)
    ensures var x := pn * PGSIZE + HEADER; x / PGSIZE == pn && x % PGSIZE == HEADER
  {
  }

  lemma AddBigInv(h: Heap, pn: nat, pageCnt: nat, granted: nat)
    requires Inv(h) && pn !in h.arenas && pageCnt > 0 && HEADER + granted <= pageCnt * PGSIZE
    ensures Inv(AddBig(h, pn, pageCnt, granted))
  {
    hide IsBlock, Distinct, FreeIn, BlockAt;
    BigOnPage(pn);
    var t := AddBig(h, pn, pageCnt, granted);
    forall d | 0 <= d < DESC_CNT
      ensures FreeListInv(t, d)
    {
      assert FreeListInv(h, d);
    }
    forall q | q in t.arenas
      ensures ArenaInv(t, q)
    {
      if q != pn { assert ArenaInv(h, q); BigOnPage(q); }
    }
    forall x | x in t.live
      ensures LiveInv(t, x)
    {
      if x != pn * PGSIZE + HEADER { assert LiveInv(h, x); }
    }
  }

  lemma DropBigInv(h: Heap, pn: nat)
    requires Inv(h) && pn in h.arenas && h.arenas[pn].desc.None?
    ensures Inv(DropBig(h, pn))
  {
    hide IsBlock, Distinct, FreeIn, BlockAt;
    BigOnPage(pn);
    var t := DropBig(h, pn);
    forall d | 0 <= d < DESC_CNT
      ensures FreeListInv(t, d)
    {
      assert FreeListInv(h, d);
    }
    forall q | q in t.arenas
      ensures ArenaInv(t, q)
    {
      assert ArenaInv(h, q);
      BigOnPage(q);
      if h.arenas[q].desc.Some? {
        var d := h.arenas[q].desc.value;
        forall i: nat | i < BlocksPerArena(d)
          ensures BlockAt(q, d, i) in t.free[d] || BlockAt(q, d, i) in t.live
        {
          BlockOnPage(q, d, i);
        }
      }
    }
    forall x | x in t.live
      ensures LiveInv(t, x)
    {
      assert LiveInv(h, x);
    }
  }

  lemma AddArenaLists(list: seq<nat>, pn: nat, d: nat, all: seq<nat>)
    requires d < DESC_CNT && Distinct(list) && (forall x | x in list :: x / PGSIZE != pn)
    requires all == list + BlockSeq(pn, d, BlocksPerArena(d))
    ensures Distinct(all)
    ensures forall x | x in all :: x in list || (x / PGSIZE == pn && IsBlock(d, x))
    ensures forall i: nat | i < BlocksPerArena(d) :: BlockAt(pn, d, i) in all
    ensures FreeIn(all, pn) == Blocks(pn, d, BlocksPerArena(d))
    ensures forall q | q != pn :: FreeIn(all, q) == FreeIn(list, q)
  {
    var n := BlocksPerArena(d);
    var blocks := BlockSeq(pn, d, n);
    ArenaBlocks(pn, d);
    hide IsBlock, BlockAt, BlockSize, BlocksPerArena;
    DistinctConcat(list, blocks) by {
      assert forall x | x in blocks :: x / PGSIZE == pn;
    }
    assert forall x :: x in all <==> x in list || x in blocks;
  }

  /** The blocks of an arena are distinct and lie on its page. */
  lemma ArenaBlocks(pn: nat, d: nat)
    requires d < DESC_CNT
    ensures var s := BlockSeq(pn, d, BlocksPerArena(d));
      && Distinct(s) && (forall x | x in s :: x / PGSIZE == pn && IsBlock(d, x))
      && (forall i: nat | i < BlocksPerArena(d) :: BlockAt(pn, d, i) in s)
      && (forall x :: x in s <==> x in Blocks(pn, d, BlocksPerArena(d)))
  {
    var n := BlocksPerArena(d);
    var s := BlockSeq(pn, d, n);
    forall i: nat | i < n
      ensures s[i] / PGSIZE == pn && IsBlock(d, s[i])
    {
      BlockOnPage(pn, d, i);
    }
    forall i: nat, j: nat | i < j < n
      ensures s[i] != s[j]
    {
      BlocksApart(pn, d, i, j);
    }
    hide IsBlock, BlockAt, BlockSize, BlocksPerArena;
    forall i: nat | i < n
      ensures BlockAt(pn, d, i) in s
    {
      assert s[i] in s;
    }
  }

  lemma DistinctConcat(a: seq<nat>, b: seq<nat>)
    requires Distinct(a) && Distinct(b) && forall x | x in a :: x !in b
    ensures Distinct(a + b)
  {
    var s := a + b;
    forall i, j | 0 <= i < j < |s|
      ensures s[i] != s[j]
    {
      assert i < |a| ==> s[i] == a[i] && a[i] in a;
      assert j >= |a| ==> s[j] == b[j - |a|] && b[j - |a|] in b;
    }
  }

  lemma AddArenaInv(h: Heap, d: nat, pn: nat)
    requires Inv(h) && d < DESC_CNT && pn !in h.arenas
    ensures Inv(AddArena(h, d, pn))
  {
    var t := AddArena(h, d, pn);
    forall x | x in h.live
      ensures x / PGSIZE in h.arenas
    {
      assert LiveInv(h, x);
    }
    forall x | x in h.free[d]
      ensures x / PGSIZE != pn
    {
      assert FreeListInv(h, d);
    }
    assert FreeListInv(h, d);
    AddArenaLists(h.free[d], pn, d, t.free[d]);
    BlocksCount(pn, d, BlocksPerArena(d));
    hide IsBlock, Distinct, FreeIn, BlockAt, BlocksPerArena, Blocks;
    forall e | 0 <= e < DESC_CNT
      ensures FreeListInv(t, e)
    {
      assert FreeListInv(h, e);
    }
    forall q | q in t.arenas
      ensures ArenaInv(t, q)
    {
      if q != pn { assert ArenaInv(h, q); }
    }
    forall x | x in t.live
      ensures LiveInv(t, x)
    {
      assert LiveInv(h, x);
    }
  }

  lemma TakeFree(list: seq<nat>, q: nat)
    requires list != [] && Distinct(list)
    ensures Distinct(list[1..]) && list[0] !in list[1..]
    ensures list[0] / PGSIZE == q ==> list[0] in FreeIn(list, q) && FreeIn(list[1..], q) == FreeIn(list, q) - {list[0]}
    ensures list[0] / PGSIZE != q ==> FreeIn(list[1..], q) == FreeIn(list, q)
  {
    assert list == [list[0]] + list[1..];
  }

  lemma TakeBlockArena(h: Heap, d: nat, granted: nat, q: nat)
    requires Inv(h) && d < DESC_CNT && h.free[d] != [] && q in h.arenas
    ensures h.free[d][0] / PGSIZE in h.arenas && h.arenas[h.free[d][0] / PGSIZE].freeCnt > 0
    ensures ArenaInv(TakeBlock(h, d, granted), q)
  {
    var x := h.free[d][0];
    assert FreeListInv(h, d) && x in h.free[d];
    assert ArenaInv(h, x / PGSIZE) && ArenaInv(h, q);
    TakeFree(h.free[d], x / PGSIZE);
    TakeFree(h.free[d], q);
    hide Distinct, FreeIn, IsBlock, BlockAt;
    assert h.free[d] == [x] + h.free[d][1..];
  }

  lemma TakeBlockList(h: Heap, d: nat, granted: nat, e: nat)
    requires Inv(h) && d < DESC_CNT && h.free[d] != [] && e < DESC_CNT
    requires h.free[d][0] / PGSIZE in h.arenas && h.arenas[h.free[d][0] / PGSIZE].freeCnt > 0
    ensures FreeListInv(TakeBlock(h, d, granted), e)
  {
    var x := h.free[d][0];
    assert FreeListInv(h, d) && FreeListInv(h, e);
    assert x in h.free[d];
    TakeFree(h.free[d], 0);
    hide Distinct, IsBlock, FreeIn;
    assert h.free[d] == [x] + h.free[d][1..];
  }

  lemma TakeBlockInv(h: Heap, d: nat, granted: nat)
    requires Inv(h) && d < DESC_CNT && h.free[d] != [] && granted <= BlockSize(d)
    ensures h.free[d][0] / PGSIZE in h.arenas && h.arenas[h.free[d][0] / PGSIZE].freeCnt > 0
    ensures Inv(TakeBlock(h, d, granted))
  {
    var x := h.free[d][0];
    assert FreeListInv(h, d) && x in h.free[d];
    TakeBlockArena(h, d, granted, x / PGSIZE);
    hide IsBlock, FreeListInv, ArenaInv;
    var t := TakeBlock(h, d, granted);
    forall e | 0 <= e < DESC_CNT
      ensures FreeListInv(t, e)
    {
      TakeBlockList(h, d, granted, e);
    }
    forall q | q in t.arenas
      ensures ArenaInv(t, q)
    {
      TakeBlockArena(h, d, granted, q);
    }
    forall y | y in t.live
      ensures LiveInv(t, y)
    {
      if y != x { assert LiveInv(h, y); }
    }
  }

  lemma GiveFree(list: seq<nat>, x: nat, q: nat)
    requires x !in list && Distinct(list)
    ensures Distinct([x] + list)
    ensures x / PGSIZE == q ==> x !in FreeIn(list, q) && FreeIn([x] + list, q) == FreeIn(list, q) + {x}
    ensures x / PGSIZE != q ==> FreeIn([x] + list, q) == FreeIn(list, q)
  {
  }

  lemma GiveBlockArena(h: Heap, x: nat, d: nat, q: nat)
    requires Inv(h) && d < DESC_CNT && q in h.arenas
    requires x / PGSIZE in h.arenas && h.arenas[x / PGSIZE].desc == Some(d) && x in h.live
    ensures ArenaInv(GiveBlock(h, x, d), q)
  {
    assert FreeListInv(h, d) && ArenaInv(h, q) && ArenaInv(h, x / PGSIZE);
    GiveFree(h.free[d], x, x / PGSIZE);
    GiveFree(h.free[d], x, q);
    var t := GiveBlock(h, x, d);
    assert x in t.free[d];
    if h.arenas[q].desc.None? { BigOnPage(q); }
    hide Distinct, FreeIn, IsBlock, BlockAt, BlocksPerArena;
    if h.arenas[q].desc.Some? {
      BlocksOnPage(q, h.arenas[q].desc.value);
      assert forall y | y in h.free[d] :: y in t.free[d];
    }
  }

  lemma GiveBlockInv(h: Heap, x: nat, d: nat)
    requires Inv(h) && d < DESC_CNT
    requires x / PGSIZE in h.arenas && h.arenas[x / PGSIZE].desc == Some(d) && x in h.live
    ensures Inv(GiveBlock(h, x, d))
  {
    assert FreeListInv(h, d) && LiveInv(h, x);
    GiveFree(h.free[d], x, 0);
    hide IsBlock, Distinct, FreeIn, BlockAt, BlocksPerArena, ArenaInv;
    var t := GiveBlock(h, x, d);
    forall e | 0 <= e < DESC_CNT
      ensures FreeListInv(t, e)
    {
      assert FreeListInv(h, e);
    }
    forall q | q in t.arenas
      ensures ArenaInv(t, q)
    {
      GiveBlockArena(h, x, d, q);
    }
    forall y | y in t.live
      ensures LiveInv(t, y)
    {
      assert LiveInv(h, y);
    }
  }

  lemma {:induction false} MinusElements(s: seq<nat>, gone: set<nat>)
    ensures forall x :: x in Minus(s, gone) <==> x in s && x !in gone
    ensures Distinct(s) ==> Distinct(Minus(s, gone))
  {
    if s != [] {
      MinusElements(s[1..], gone);
      assert s == [s[0]] + s[1..];
      if Distinct(s) {
        assert Distinct(s[1..]) && s[0] !in s[1..];
      }
    }
  }

  lemma {:induction false} MinusNothing(s: seq<nat>)
    ensures Minus(s, {}) == s
  {
    if s != [] { MinusNothing(s[1..]); }
  }

  /** Removing one block after the other is removing them all. */
  lemma {:induction false} MinusTwice(s: seq<nat>, a: set<nat>, b: set<nat>)
    ensures Minus(Minus(s, a), b) == Minus(s, a + b)
  {
    if s != [] {
      MinusTwice(s[1..], a, b);
      var m := Minus(s[1..], a);
      if s[0] in a {
        assert Minus(s, a) == m;
      } else {
        assert ([s[0]] + m)[1..] == m;
      }
    }
  }

  /** When an arena counts all of its blocks as free, all of them are on the free list. */
  lemma AllFree(h: Heap, pn: nat, d: nat)
    requires Inv(h) && d < DESC_CNT && pn in h.arenas && h.arenas[pn].desc == Some(d)
    requires h.arenas[pn].freeCnt >= BlocksPerArena(d)
    ensures h.arenas[pn].freeCnt == BlocksPerArena(d)
    ensures FreeIn(h.free[d], pn) == Blocks(pn, d, BlocksPerArena(d))
    ensures forall x | x in h.live :: x / PGSIZE != pn
  {
    var all, some := Blocks(pn, d, BlocksPerArena(d)), FreeIn(h.free[d], pn);
    assert ArenaInv(h, pn) && FreeListInv(h, d);
    BlocksCount(pn, d, BlocksPerArena(d));
    assert some <= all;
    SubsetSameSize(some, all);
    forall x | x in h.live
      ensures x / PGSIZE != pn
    {
      assert LiveInv(h, x);
      assert x / PGSIZE == pn ==> x in all;
    }
  }

  lemma SubsetSameSize(a: set<nat>, b: set<nat>)
    requires a <= b
    ensures |a| <= |b| && (|a| == |b| ==> a == b)
  {
    assert b == a + (b - a);
  }

  lemma DropArenaLists(h: Heap, pn: nat, d: nat)
    requires Inv(h) && d < DESC_CNT && pn in h.arenas && h.arenas[pn].desc == Some(d)
    requires h.arenas[pn].freeCnt >= BlocksPerArena(d)
    ensures var rest := DropArena(h, pn, d).free[d];
      && Distinct(rest)
      && (forall x :: x in rest <==> x in h.free[d] && x / PGSIZE != pn)
      && (forall q | q != pn :: FreeIn(rest, q) == FreeIn(h.free[d], q))
    ensures forall x | x in h.live :: x / PGSIZE != pn
  {
    AllFree(h, pn, d);
    BlocksOnPage(pn, d);
    var gone := Blocks(pn, d, BlocksPerArena(d));
    assert FreeListInv(h, d);
    MinusElements(h.free[d], gone);
    hide Blocks, Distinct, BlocksPerArena, Minus;
    forall x | x in h.free[d] && x / PGSIZE == pn
      ensures x in gone
    {
      assert x in FreeIn(h.free[d], pn);
    }
  }

  /** Taking out an entirely free arena. */
  lemma DropArenaInv(h: Heap, pn: nat, d: nat)
    requires Inv(h) && d < DESC_CNT && pn in h.arenas && h.arenas[pn].desc == Some(d)
    requires h.arenas[pn].freeCnt >= BlocksPerArena(d)
    ensures Inv(DropArena(h, pn, d))
  {
    DropArenaLists(h, pn, d);
    hide IsBlock, Distinct, FreeIn, Blocks, BlocksPerArena, Minus, BlockAt;
    var t := DropArena(h, pn, d);
    forall e | 0 <= e < DESC_CNT
      ensures FreeListInv(t, e)
    {
      assert FreeListInv(h, e);
    }
    forall q | q in t.arenas
      ensures ArenaInv(t, q)
    {
      assert ArenaInv(h, q);
      if h.arenas[q].desc.Some? { BlocksOnPage(q, h.arenas[q].desc.value); }
    }
    forall x | x in t.live
      ensures LiveInv(t, x)
    {
      assert LiveInv(h, x);
    }
  }

  // ----- Tidiness -----

  /** A block taken from an otherwise tidy heap leaves it tidy. */
  lemma TakeBlockTidy(h: Heap, d: nat, granted: nat)
    requires Inv(h) && d < DESC_CNT && h.free[d] != [] && granted <= BlockSize(d)
    requires forall pn {:trigger h.arenas[pn]} | pn in h.arenas && h.arenas[pn].desc.Some?
                                                 && pn != h.free[d][0] / PGSIZE ::
      h.arenas[pn].freeCnt < BlocksPerArena(h.arenas[pn].desc.value)
    requires var a := h.free[d][0] / PGSIZE;
      a in h.arenas ==> h.arenas[a].freeCnt <= BlocksPerArena(d)
    ensures h.free[d][0] / PGSIZE in h.arenas && h.arenas[h.free[d][0] / PGSIZE].freeCnt > 0
    ensures Tidy(TakeBlock(h, d, granted))
  {
    TakeBlockInv(h, d, granted);
    assert FreeListInv(h, d) && h.free[d][0] in h.free[d];
    hide Inv, FreeListInv, BlocksPerArena;
  }

  lemma TidyTake(h: Heap, d: nat, granted: nat)
    requires Inv(h) && Tidy(h) && d < DESC_CNT && h.free[d] != [] && granted <= BlockSize(d)
    ensures h.free[d][0] / PGSIZE in h.arenas && h.arenas[h.free[d][0] / PGSIZE].freeCnt > 0
    ensures Tidy(TakeBlock(h, d, granted)) && h.free[d][0] !in h.live
  {
    assert FreeListInv(h, d) && h.free[d][0] in h.free[d];
    hide Inv, FreeListInv, BlocksPerArena;
    TakeBlockTidy(h, d, granted);
  }

  lemma FreshArenaTidy(h: Heap, d: nat, pn: nat, granted: nat)
    requires Inv(h) && Tidy(h) && d < DESC_CNT && h.free[d] == [] && pn !in h.arenas && granted <= BlockSize(d)
    ensures var t := AddArena(h, d, pn);
      && Inv(t) && t.free[d] != [] && t.free[d][0] / PGSIZE in t.arenas && t.arenas[t.free[d][0] / PGSIZE].freeCnt > 0
      && Tidy(TakeBlock(t, d, granted)) && t.free[d][0] !in h.live && t.free[d][0] / PGSIZE == pn
  {
    AddArenaInv(h, d, pn);
    assert FreeListInv(AddArena(h, d, pn), d);
    BlockSizes();
    var t := AddArena(h, d, pn);
    hide Inv, BlocksPerArena, BlockSize;
    assert t.free[d] == BlockSeq(pn, d, BlocksPerArena(d));
    BlockOnPage(pn, d, 0);
    TakeBlockTidy(t, d, granted);
  }

  /** A block given back leaves the heap tidy unless it was the last one in use of its arena. */
  lemma GiveTidy(h: Heap, x: nat, d: nat)
    requires Inv(h) && Tidy(h) && d < DESC_CNT
    requires x / PGSIZE in h.arenas && h.arenas[x / PGSIZE].desc == Some(d) && x in h.live
    ensures Inv(GiveBlock(h, x, d))
    ensures h.arenas[x / PGSIZE].freeCnt + 1 < BlocksPerArena(d) ==> Tidy(GiveBlock(h, x, d))
    ensures h.arenas[x / PGSIZE].freeCnt + 1 >= BlocksPerArena(d) ==>
      Inv(DropArena(GiveBlock(h, x, d), x / PGSIZE, d)) && Tidy(DropArena(GiveBlock(h, x, d), x / PGSIZE, d))
  {
    GiveBlockInv(h, x, d);
    hide Inv, BlocksPerArena, Minus;
    if h.arenas[x / PGSIZE].freeCnt + 1 >= BlocksPerArena(d) {
      DropArenaInv(GiveBlock(h, x, d), x / PGSIZE, d);
    }
  }

  // ----- What the invariant gives the callers -----

  ghost predicate OnPage(live: map<nat, nat>, pn: nat) { exists x :: x in live && x / PGSIZE == pn }

  /** A page is an arena exactly as long as it has a block in use. */
  lemma ArenaIffInUse(h: Heap, pn: nat)
    requires Inv(h) && Tidy(h)
    ensures pn in h.arenas <==> OnPage(h.live, pn)
  {
    if x :| x in h.live && x / PGSIZE == pn {
      LiveInArena(h, x);
    }
    if pn in h.arenas {
      assert ArenaInv(h, pn);
      BigOnPage(pn);
      if h.arenas[pn].desc.Some? {
        NotAllFree(h, pn, h.arenas[pn].desc.value);
      } else {
        assert pn * PGSIZE + HEADER in h.live;
      }
    }
  }

  lemma NotAllFree(h: Heap, pn: nat, d: nat)
    requires Inv(h) && Tidy(h) && pn in h.arenas && h.arenas[pn].desc == Some(d)
    ensures exists x :: x in h.live && x / PGSIZE == pn
  {
    assert ArenaInv(h, pn);
    BlocksOnPage(pn, d);
    BlocksCount(pn, d, BlocksPerArena(d));
    var all, some := Blocks(pn, d, BlocksPerArena(d)), FreeIn(h.free[d], pn);
    if all <= some { SubsetSameSize(all, some); }
    var x :| x in all && x !in some;
    assert x in h.live;
  }

  /** block_size: the bytes from a block's address to the end of the block. */
  function Capacity(h: Heap, x: nat): nat
    requires x / PGSIZE in h.arenas
  {
    var a := h.arenas[x / PGSIZE];
    if a.desc.Some? then BlockSize(a.desc.value) else PGSIZE * a.freeCnt - Min(x % PGSIZE, PGSIZE * a.freeCnt)
  }

  /** Blocks in use lie in the pages of their arena, behind its header, and hold what they
      were granted ... */
  lemma LiveInArena(h: Heap, x: nat)
    requires Inv(h) && x in h.live
    ensures var pn := x / PGSIZE;
      && pn in h.arenas && pn * PGSIZE + HEADER <= x && h.live[x] <= Capacity(h, x)
      && x + Capacity(h, x) <= (pn + h.arenas[pn].Pages()) * PGSIZE
  {
    assert LiveInv(h, x);
    var pn := x / PGSIZE;
    if h.arenas[pn].desc.Some? {
      var d := h.arenas[pn].desc.value;
      assert ArenaInv(h, pn);
      var i :| 0 <= i < BlocksPerArena(d) && x == BlockAt(pn, d, i);
      BlockOnPage(pn, d, i);
    }
  }

  /** The arenas of a are still there, as large as they were. */
  ghost predicate ArenasStay(a: map<nat, Arena>, b: map<nat, Arena>) {
    forall pn {:trigger b[pn]} {:trigger a[pn]} | pn in a ::
      pn in b && b[pn].desc == a[pn].desc && b[pn].Pages() == a[pn].Pages()
  }

  lemma CapacityStays(h: Heap, g: Heap, x: nat)
    requires ArenasStay(h.arenas, g.arenas) && x / PGSIZE in h.arenas
    ensures x / PGSIZE in g.arenas && Capacity(g, x) == Capacity(h, x)
  {
  }

  /** A block in use is clear of the header of every arena, as long as arenas do not overlap. */
  lemma LiveClearOfHeaders(h: Heap, x: nat, q: nat)
    requires Inv(h) && x in h.live && q in h.arenas
    requires forall p, q | p in h.arenas && q in h.arenas && p < q :: p + h.arenas[p].Pages() <= q
    ensures x / PGSIZE in h.arenas && (q * PGSIZE + HEADER <= x || x + Capacity(h, x) <= q * PGSIZE)
  {
    LiveInArena(h, x);
    hide Inv, Capacity, Arena.Pages;
    var p := x / PGSIZE;
    assert p < q ==> p + h.arenas[p].Pages() <= q;
  }

  lemma CapacityCases(h: Heap, x: nat)
    requires Inv(h) && x in h.live
    ensures x / PGSIZE in h.arenas && h.live[x] <= Capacity(h, x)
    ensures var a := h.arenas[x / PGSIZE];
      if a.desc.Some? then a.desc.value < DESC_CNT && Capacity(h, x) == BlockSize(a.desc.value)
      else x % PGSIZE <= PGSIZE * a.freeCnt && Capacity(h, x) == PGSIZE * a.freeCnt - x % PGSIZE
  {
    LiveInArena(h, x);
    assert LiveInv(h, x) && ArenaInv(h, x / PGSIZE);
  }

  /** ... and two of them never overlap, as long as arenas do not. */
  lemma LiveDisjoint(h: Heap, x: nat, y: nat)
    requires Inv(h) && x in h.live && y in h.live && x < y
    requires forall p, q | p in h.arenas && q in h.arenas && p < q :: p + h.arenas[p].Pages() <= q
    ensures x / PGSIZE in h.arenas && x + Capacity(h, x) <= y
  {
    LiveInArena(h, x);
    LiveInArena(h, y);
    assert LiveInv(h, x) && LiveInv(h, y);
    var p, q := x / PGSIZE, y / PGSIZE;
    if p == q {
      if h.arenas[p].desc.Some? {
        var d := h.arenas[p].desc.value;
        var i :| 0 <= i < BlocksPerArena(d) && x == BlockAt(p, d, i);
        var j :| 0 <= j < BlocksPerArena(d) && y == BlockAt(p, d, j);
        if i < j { BlocksApart(p, d, i, j); }
        if j < i { BlocksApart(p, d, j, i); }
      }
    }
  }

  // ----- Arenas and the page pool -----

  predicate IsRange(a: Arena, pn: nat, ranges: map<nat, nat>, first: nat) {
    first <= pn && pn - first in ranges && ranges[pn - first] == a.Pages()
  }

  /** Every arena is a range that the pool, whose first page is `first`, has given out ... */
  ghost predicate ArenasBacked(arenas: map<nat, Arena>, ranges: map<nat, nat>, first: nat) {
    forall pn {:trigger arenas[pn]} | pn in arenas :: IsRange(arenas[pn], pn, ranges, first)
  }

  /** ... and every range is an arena, or somebody else's, at one of the indexes in `others`. */
  ghost predicate RangesOwned(arenas: set<nat>, ranges: set<nat>, others: set<nat>, first: nat) {
    others <= ranges && forall i | i in ranges :: i in others <==> first + i !in arenas
  }

  ghost predicate Backed(arenas: map<nat, Arena>, ranges: map<nat, nat>, others: set<nat>, first: nat) {
    ArenasBacked(arenas, ranges, first) && RangesOwned(arenas.Keys, ranges.Keys, others, first)
  }

  lemma BackedAdd(arenas: map<nat, Arena>, ranges: map<nat, nat>, others: set<nat>, first: nat, pn: nat, a: Arena)
    requires Backed(arenas, ranges, others, first) && first <= pn && pn - first !in ranges
    ensures pn !in arenas && Backed(arenas[pn := a], ranges[pn - first := a.Pages()], others, first)
  {
    hide Arena.Pages;
    assert pn in arenas ==> IsRange(arenas[pn], pn, ranges, first);
    assert arenas[pn := a].Keys == arenas.Keys + {pn};
  }

  lemma OwnedDrop(arenas: set<nat>, ranges: set<nat>, others: set<nat>, first: nat, pn: nat)
    requires RangesOwned(arenas, ranges, others, first) && first <= pn && pn in arenas && pn - first in ranges
    ensures RangesOwned(arenas - {pn}, ranges - {pn - first}, others, first)
  {
    assert first + (pn - first) == pn;
  }

  lemma BackedDrop(arenas: map<nat, Arena>, ranges: map<nat, nat>, others: set<nat>, first: nat, pn: nat)
    requires Backed(arenas, ranges, others, first) && pn in arenas
    ensures IsRange(arenas[pn], pn, ranges, first)
    ensures Backed(arenas - {pn}, ranges - {pn - first}, others, first)
  {
    hide Arena.Pages, RangesOwned;
    assert IsRange(arenas[pn], pn, ranges, first);
    OwnedDrop(arenas.Keys, ranges.Keys, others, first, pn);
    assert (arenas - {pn}).Keys == arenas.Keys - {pn} && (ranges - {pn - first}).Keys == ranges.Keys - {pn - first};
  }

  lemma BackedUpdate(arenas: map<nat, Arena>, ranges: map<nat, nat>, others: set<nat>, first: nat, pn: nat, a: Arena)
    requires Backed(arenas, ranges, others, first) && pn in arenas && a.Pages() == arenas[pn].Pages()
    ensures Backed(arenas[pn := a], ranges, others, first)
  {
    hide Arena.Pages, RangesOwned;
    assert arenas[pn := a].Keys == arenas.Keys;
  }

  /** Somebody else takes a range ... */
  lemma BackedOtherTakes(arenas: map<nat, Arena>, ranges: map<nat, nat>, others: set<nat>, first: nat, i: nat, cnt: nat)
    requires Backed(arenas, ranges, others, first) && i !in ranges
    ensures Backed(arenas, ranges[i := cnt], others + {i}, first)
  {
    hide Arena.Pages;
    assert first + i in arenas ==> IsRange(arenas[first + i], first + i, ranges, first);
    assert ranges[i := cnt].Keys == ranges.Keys + {i};
  }

  /** ... or gives one back. */
  lemma BackedOtherGives(arenas: map<nat, Arena>, ranges: map<nat, nat>, others: set<nat>, first: nat, i: nat)
    requires Backed(arenas, ranges, others, first) && i in others
    ensures Backed(arenas, ranges - {i}, others - {i}, first)
  {
    hide Arena.Pages;
    assert (ranges - {i}).Keys == ranges.Keys - {i};
    forall pn {:trigger arenas[pn]} | pn in arenas
      ensures IsRange(arenas[pn], pn, ranges - {i}, first)
    {
      assert IsRange(arenas[pn], pn, ranges, first);
    }
  }

  lemma ArenasDisjoint(v: seq<bool>, arenas: map<nat, Arena>, ranges: map<nat, nat>, others: set<nat>, first: nat,
                       p: nat, q: nat)
    requires Accounts(v, ranges) && Backed(arenas, ranges, others, first)
    requires p in arenas && q in arenas && p < q
    ensures p + arenas[p].Pages() <= q
  {
    assert IsRange(arenas[p], p, ranges, first) && IsRange(arenas[q], q, ranges, first);
  }

  /** The map of used pages when a block on page pn is handed out: a page that was an arena already
      costs nothing, and a new arena the lowest free group of cnt pages. */
  ghost predicate PagesTaken(was: seq<bool>, now: seq<bool>, arenas: map<nat, Arena>, first: nat, pn: nat, cnt: nat) {
    if pn in arenas then now == was else first <= pn && Requested(was, cnt, Some(pn - first), now)
  }

  /** The map of used pages when a block on page pn is taken back: exactly the arena's pages are
      released if it is gone, and none if it is still there. */
  ghost predicate PagesGiven(was: seq<bool>, now: seq<bool>, arenas: map<nat, Arena>, left: map<nat, Arena>,
                             first: nat, pn: nat) {
    && first <= pn && pn in arenas
    && if pn in left then now == was else Released(was, pn - first, arenas[pn].Pages(), now)
  }
}
