// malloc and free of Pintos/threads/malloc.c, on arenas that come from palloc.
module Malloc {
  import opened Bits
  import opened Bitmap
  import opened Palloc
  import opened Prelude
  import opened MallocSpec

  /** The number of pages asked for a big block, in 32-bit arithmetic. */
  function BigPages(size: nat): nat
    requires size < U32
  {
    ((size + HEADER) % U32 + PGSIZE - 1) % U32 / PGSIZE
  }

  /** The bytes that a block really has for a request of `size` bytes. */
  function Granted(size: nat): nat
    requires size < U32
  {
    if size <= U32 - HEADER then size else PGSIZE - HEADER
  }

  /** The pages that malloc may have to ask palloc for. */
  function PagesNeeded(size: nat): nat
    requires size < U32
  {
    if size <= 1024 then 1 else BigPages(size)
  }

  /** A big request gets at least the bytes it asked for exactly when adding the header
      does not wrap; for the 11 sizes above that it gets one page. */
  lemma BigPagesSuffice(size: nat)
    requires size < U32
    ensures BigPages(size) == 0 || HEADER + size <= BigPages(size) * PGSIZE <==> size <= U32 - HEADER
    ensures size > U32 - HEADER ==> BigPages(size) == 1 && Granted(size) < size
    ensures BigPages(size) > 0 ==> HEADER + Granted(size) <= BigPages(size) * PGSIZE
    ensures BigPages(size) > 0 ==> (BigPages(size) - 1) * PGSIZE < HEADER + size
    ensures BigPages(size) == 0 <==> U32 - HEADER - PGSIZE < size <= U32 - HEADER
  {
  }

  class Allocator {
    const pages: PageAllocator
    var descs: seq<nat>             // block_size of each descriptor
    var arenas: map<nat, Arena>     // arena headers, by page number
    var free: seq<seq<nat>>         // free_list of each descriptor
    ghost var live: map<nat, nat>   // bytes granted for each block in use
    ghost var ranges: map<nat, nat> // page ranges in use in the kernel pool, by index in the pool
    ghost var others: set<nat>      // those of them that are not malloc's

    ghost function State(): Heap
      reads this
    {
      Heap(arenas, free, live)
    }

    /** Number of the first page of the kernel pool. */
    function FirstPage(): nat {
      pages.kernelPool.base / PGSIZE
    }

    ghost function KernelUsed(): seq<bool>
      requires pages.Valid()
      reads pages.kernelPool.usedMap.bits
    {
      pages.kernelPool.Used()
    }

    ghost function UserUsed(): seq<bool>
      requires pages.Valid()
      reads pages.userPool.usedMap.bits
    {
      pages.userPool.Used()
    }

    /** The kernel pool accounts for its pages: its ranges are the arenas and those of others. */
    ghost predicate PagesInv()
      reads this, pages.kernelPool.usedMap.bits
    {
      && pages.Valid()
      && Accounts(KernelUsed(), ranges)
      && Backed(arenas, ranges, others, FirstPage())
    }

    /** The kernel pool has no free group of cnt pages. */
    ghost predicate NoRoom(cnt: nat)
      requires pages.Valid()
      reads this, pages.kernelPool.usedMap.bits
    {
      forall j: nat :: !Group(KernelUsed(), j, cnt, false)
    }

    ghost predicate Valid()
      reads this, pages.kernelPool.usedMap.bits
    {
      && PagesInv()
      && Inv(State()) && Tidy(State())
      && |descs| == DESC_CNT && forall d | 0 <= d < DESC_CNT :: descs[d] == BlockSize(d)
    }

    lemma FreeLists()
      requires Valid()
      ensures |free| == DESC_CNT
    {
    }

    /** malloc_init; others may hold pages already. */
    constructor (pages: PageAllocator, ghost held: map<nat, nat>)
      requires pages.Valid() && Accounts(pages.kernelPool.Used(), held)
      ensures Valid() && this.pages == pages && live == map[] && ranges == held && others == held.Keys
    {
      this.pages := pages;
      arenas, live, ranges, others := map[], map[], held, held.Keys;
      free := [];
      descs := [];
      new;
      var blockSize := 16;
      while blockSize < PGSIZE / 2
        invariant |descs| == |free| <= DESC_CNT && blockSize == BlockSize(|descs|)
        invariant forall d | 0 <= d < |descs| :: descs[d] == BlockSize(d) && free[d] == []
        invariant arenas == map[] && live == map[] && ranges == held && others == held.Keys
        decreases PGSIZE - blockSize
      {
        BlockSizeBound(|descs|);
        descs := descs + [blockSize];
        free := free + [[]];
        blockSize := blockSize * 2;
      }
      BlockSizeBound(|descs|);
    }

    /** The first descriptor whose blocks are large enough, or DESC_CNT. */
    method FindDesc(size: nat) returns (d: nat)
      requires Valid()
      ensures d <= DESC_CNT
      ensures d < DESC_CNT ==> size <= BlockSize(d) && LeastBlock(size, BlockSize(d))
      ensures forall e | 0 <= e < d :: BlockSize(e) < size
    {
      d := 0;
      while d < |descs|
        invariant d <= DESC_CNT
        invariant forall e | 0 <= e < d :: BlockSize(e) < size
      {
        if descs[d] >= size {
          FirstIsLeast(size, d);
          return;
        }
        d := d + 1;
      }
    }

    /** palloc_get_multiple(0, pageCnt): the pages returned are not those of any arena. */
    method GetPages(pageCnt: nat) returns (pn: Option<nat>)
      requires PagesInv()
      modifies `ranges, pages.kernelPool.usedMap.bits
      ensures pages.Valid() && Accounts(KernelUsed(), ranges)
      ensures pageCnt == 0 ==> pn.None?
      ensures pn.None? ==>
        KernelUsed() == old(KernelUsed()) && ranges == old(ranges) && (pageCnt == 0 || old(NoRoom(pageCnt)))
      ensures pn.Some? ==>
        && FirstPage() <= pn.value && pn.value - FirstPage() !in old(ranges) && pageCnt > 0
        && Requested(old(KernelUsed()), pageCnt, Some(pn.value - FirstPage()), KernelUsed())
        && ranges == old(ranges)[pn.value - FirstPage() := pageCnt]
    {
      ghost var v := KernelUsed();
      var p := pages.GetMultiple(false, pageCnt);
      if p.None? { return None; }
      ghost var idx := p.value / PGSIZE - FirstPage();
      RequestAccounts(v, ranges, pageCnt, idx, KernelUsed());
      ranges := ranges[idx := pageCnt];
      return Some(p.value / PGSIZE);
    }

    /** The part of malloc for sizes above every descriptor. */
    method MallocBig(size: nat) returns (r: Option<nat>)
      requires Valid() && size < U32
      modifies `arenas, `live, `ranges, pages.kernelPool.usedMap.bits
      ensures Valid()
      ensures r.None? ==> live == old(live) && (BigPages(size) == 0 || old(NoRoom(BigPages(size))))
      ensures r.None? ==> KernelUsed() == old(KernelUsed())
      ensures r.Some? ==> r.value !in old(live) && live == old(live)[r.value := Granted(size)]
      ensures r.Some? ==>
        PagesTaken(old(KernelUsed()), KernelUsed(), old(arenas), FirstPage(), r.value / PGSIZE, BigPages(size))
      ensures ArenasStay(old(arenas), arenas)
    {
      hide Inv, Accounts, Backed, NoRoom, Requested;
      BigPagesSuffice(size);
      ghost var h, rs := State(), ranges;
      var pageCnt := BigPages(size);
      var p := GetPages(pageCnt);
      if p.None? { return None; }
      var pn := p.value;
      BackedAdd(arenas, rs, others, FirstPage(), pn, Arena(None, pageCnt));
      AddBigInv(h, pn, pageCnt, Granted(size));
      BigOnPage(pn);
      NotLive(h, pn, pn * PGSIZE + HEADER);
      arenas := arenas[pn := Arena(None, pageCnt)];
      live := live[pn * PGSIZE + HEADER := Granted(size)];
      assert State() == AddBig(h, pn, pageCnt, Granted(size));
      return Some(pn * PGSIZE + HEADER);
    }

    /** The new arena of malloc: a page whose blocks all go to the back of the free list. */
    method NewArena(d: nat) returns (pn: Option<nat>)
      requires Valid() && d < DESC_CNT
      modifies `arenas, `free, `ranges, pages.kernelPool.usedMap.bits
      ensures PagesInv()
      ensures pn.None? ==> State() == old(State()) && old(NoRoom(1)) && KernelUsed() == old(KernelUsed())
      ensures pn.Some? ==> pn.value !in old(arenas) && State() == old(AddArena(State(), d, pn.value))
      ensures pn.Some? ==> PagesTaken(old(KernelUsed()), KernelUsed(), old(arenas), FirstPage(), pn.value, 1)
    {
      hide Inv, Accounts, Backed, Tidy, NoRoom, Requested, BlocksPerArena;
      FreeLists();
      ghost var rs, was := ranges, KernelUsed();
      pn := GetPages(1);
      if pn.None? { return; }
      BackedAdd(arenas, rs, others, FirstPage(), pn.value, Arena(Some(d), BlocksPerArena(d)));
      assert PagesTaken(was, KernelUsed(), arenas, FirstPage(), pn.value, 1);
      hide PagesTaken;
      arenas := arenas[pn.value := Arena(Some(d), BlocksPerArena(d))];
      AddBlocks(pn.value, d);
    }

    /** The loop of malloc over the blocks of a new arena. */
    method AddBlocks(pn: nat, d: nat)
      requires d < |free|
      modifies `free
      ensures free == old(free)[d := old(free)[d] + BlockSeq(pn, d, BlocksPerArena(d))]
    {
      var i := 0;
      while i < BlocksPerArena(d)
        invariant 0 <= i <= BlocksPerArena(d)
        invariant |free| == |old(free)| && forall e | 0 <= e < |free| && e != d :: free[e] == old(free)[e]
        invariant free[d] == old(free)[d] + BlockSeq(pn, d, i)
      {
        free := free[d := free[d] + [BlockAt(pn, d, i)]];
        i := i + 1;
      }
      assert free == old(free)[d := old(free)[d] + BlockSeq(pn, d, i)];
    }

    /** Pops the front of a nonempty free list. */
    method PopBlock(d: nat, ghost granted: nat) returns (x: nat)
      requires PagesInv() && Inv(State()) && d < DESC_CNT && free[d] != [] && granted <= BlockSize(d)
      modifies `arenas, `free, `live
      ensures x == old(free[d][0])
      ensures x / PGSIZE in old(arenas) && old(arenas)[x / PGSIZE].freeCnt > 0
      ensures x / PGSIZE in arenas && arenas[x / PGSIZE].desc == Some(d)
      ensures State() == TakeBlock(old(State()), d, granted)
      ensures PagesInv() && Inv(State()) && ArenasStay(old(arenas), arenas)
    {
      hide Inv, FreeListInv, Accounts, Backed, BlockSize;
      FreeListFront(State(), d);
      TakeBlockInv(State(), d, granted);
      x := free[d][0];
      free := free[d := free[d][1..]];
      var a := arenas[x / PGSIZE];
      BackedUpdate(arenas, ranges, others, FirstPage(), x / PGSIZE, a.(freeCnt := a.freeCnt - 1));
      arenas := arenas[x / PGSIZE := a.(freeCnt := a.freeCnt - 1)];
      live := live[x := granted];
    }

    /** Makes sure that the free list is not empty: malloc's "create a new arena". */
    method EnsureBlock(d: nat, ghost size: nat) returns (ok: bool)
      requires Valid() && d < DESC_CNT && size <= BlockSize(d)
      modifies `arenas, `free, `ranges, pages.kernelPool.usedMap.bits
      ensures !ok ==> Valid() && old(NoRoom(1)) && State() == old(State()) && KernelUsed() == old(KernelUsed())
      ensures ok ==> PagesInv() && Inv(State()) && |free| == DESC_CNT && free[d] != [] && free[d][0] !in live
      ensures ok ==> free[d][0] / PGSIZE in arenas && arenas[free[d][0] / PGSIZE].freeCnt > 0
      ensures ok ==> Tidy(TakeBlock(State(), d, size))
      ensures |old(free)| == DESC_CNT && (old(free[d]) != [] ==> ok && State() == old(State()))
      ensures ok ==>
        PagesTaken(old(KernelUsed()), KernelUsed(), old(arenas), FirstPage(), free[d][0] / PGSIZE, 1)
      ensures ArenasStay(old(arenas), arenas) && live == old(live)
    {
      hide Accounts, Backed, Inv, Tidy, TakeBlock, NoRoom, BlockSize, BlocksPerArena, BlockSeq, Requested;
      FreeLists();
      ghost var h := State();
      if free[d] == [] {
        var pn := NewArena(d);
        if pn.None? { return false; }
        FreshArenaTidy(h, d, pn.value, size);
        hide PagesTaken;
      } else {
        TidyTake(h, d, size);
      }
      return true;
    }

    /** The part of malloc for sizes up to a descriptor's. */
    method MallocSmall(size: nat, d: nat) returns (r: Option<nat>)
      requires Valid() && size < U32 && d < DESC_CNT && 0 < size <= BlockSize(d)
      modifies `arenas, `free, `live, `ranges, pages.kernelPool.usedMap.bits
      ensures Valid()
      ensures r.None? ==> live == old(live) && old(NoRoom(1)) && KernelUsed() == old(KernelUsed())
      ensures r.Some? ==> r.value !in old(live) && live == old(live)[r.value := size]
      ensures r.Some? ==> PagesTaken(old(KernelUsed()), KernelUsed(), old(arenas), FirstPage(), r.value / PGSIZE, 1)
      ensures r.Some? ==> r.value / PGSIZE in arenas && arenas[r.value / PGSIZE].desc == Some(d)
      ensures |old(free)| == DESC_CNT && (old(free[d]) != [] ==> r.Some? && r.value / PGSIZE in old(arenas))
      ensures ArenasStay(old(arenas), arenas)
    {
      hide Accounts, Backed, Inv, Tidy, NoRoom, PagesTaken, BlockSize, ArenasStay;
      ghost var as0 := arenas;
      var ok := EnsureBlock(d, size);
      if !ok { return None; }
      ghost var as1 := arenas;
      var x := PopBlock(d, size);
      StayOn(as0, as1, arenas);
      return Some(x);
    }

    /** malloc; None is the null pointer. */
    method Malloc(size: nat) returns (r: Option<nat>)
      requires Valid() && size < U32
      modifies `arenas, `free, `live, `ranges, pages.kernelPool.usedMap.bits
      ensures Valid()
      ensures size == 0 ==> r.None?
      ensures r.None? ==> live == old(live)
      ensures r.None? && size > 0 ==> PagesNeeded(size) == 0 || old(NoRoom(PagesNeeded(size)))
      ensures r.Some? ==> r.value !in old(live) && live == old(live)[r.value := Granted(size)]
      ensures r.None? ==> KernelUsed() == old(KernelUsed())
      ensures r.Some? ==>
        PagesTaken(old(KernelUsed()), KernelUsed(), old(arenas), FirstPage(), r.value / PGSIZE, PagesNeeded(size))
      ensures 0 < size <= 1024 && r.Some? ==>
        r.value / PGSIZE in arenas && LeastBlock(size, Capacity(State(), r.value))
      ensures 0 < size <= 1024 && (r.None? || r.value / PGSIZE !in old(arenas)) ==> NoneFree(old(arenas), size)
      ensures ArenasStay(old(arenas), arenas)
    {
      hide Inv, Tidy, Accounts, Backed, NoRoom, BigPages, PagesTaken, NoneFree, LeastBlock;
      if size == 0 { return None; }
      var d := FindDesc(size);
      if d == |descs| {
        assert BlockSize(6) < size;
        BlockSizes();
        r := MallocBig(size);
      } else {
        SmallSize(size, d);
        FreeLists();
        if free[d] == [] { EmptyListNoneFree(State(), d, size); }
        r := MallocSmall(size, d);
      }
    }

    /** palloc_free_multiple of an arena's pages. */
    method FreePages(pn: nat, pageCnt: nat)
      requires PagesInv() && pn in arenas && pageCnt == arenas[pn].Pages()
      modifies `arenas, `ranges, pages.kernelPool.usedMap.bits, pages.userPool.usedMap.bits
      ensures PagesInv()
      ensures arenas == old(arenas) - {pn}
      ensures PagesGiven(old(KernelUsed()), KernelUsed(), old(arenas), arenas, FirstPage(), pn)
      ensures UserUsed() == old(UserUsed())
    {
      hide Backed, Accounts, Group, Filled;
      BackedDrop(arenas, ranges, others, FirstPage(), pn);
      ghost var idx := pn - FirstPage();
      RangeIsUsed(KernelUsed(), ranges, idx);
      ghost var v := KernelUsed();
      InPool(v, idx, pageCnt);
      assert pages.PoolFor(false).Owns(pn * PGSIZE);
      pages.FreeMultiple(pn * PGSIZE, pageCnt);
      assert pages.PoolFor(!false).Used() == old(pages.PoolFor(!false).Used());
      ReleaseAccounts(v, ranges, idx, KernelUsed());
      ranges := ranges - {idx};
      arenas := arenas - {pn};
    }

    /** The loop of free that unlinks every block of an arena. */
    method UnlinkBlocks(pn: nat, d: nat)
      requires d < |free|
      modifies `free
      ensures free == old(free)[d := Minus(old(free)[d], Blocks(pn, d, BlocksPerArena(d)))]
    {
      var i := 0;
      ghost var list := free[d];
      MinusNothing(list);
      assert Blocks(pn, d, 0) == {};
      while i < BlocksPerArena(d)
        invariant 0 <= i <= BlocksPerArena(d)
        invariant |free| == |old(free)| && forall e | 0 <= e < |free| && e != d :: free[e] == old(free)[e]
        invariant free[d] == Minus(list, Blocks(pn, d, i))
      {
        var x := BlockAt(pn, d, i);
        MinusTwice(list, Blocks(pn, d, i), {x});
        assert Blocks(pn, d, i + 1) == Blocks(pn, d, i) + {x};
        free := free[d := Minus(free[d], {x})]; // list_remove
        i := i + 1;
      }
      assert free == old(free)[d := free[d]];
    }

    /** list_push_front of a block and the count of its arena. */
    method PushBlock(x: nat, d: nat)
      requires PagesInv() && d < |free| && x / PGSIZE in arenas && arenas[x / PGSIZE].desc == Some(d)
      modifies `arenas, `free, `live
      ensures PagesInv() && State() == GiveBlock(old(State()), x, d)
    {
      hide Accounts, Backed;
      var pn := x / PGSIZE;
      var a := arenas[pn];
      BackedUpdate(arenas, ranges, others, FirstPage(), pn, a.(freeCnt := a.freeCnt + 1));
      free := free[d := [x] + free[d]];
      arenas := arenas[pn := a.(freeCnt := a.freeCnt + 1)];
      live := live - {x};
    }

    /** The part of free for a block of descriptor d. */
    method FreeSmall(x: nat, d: nat)
      requires Valid() && d < DESC_CNT
      requires x in live && x / PGSIZE in arenas && arenas[x / PGSIZE].desc == Some(d)
      modifies `arenas, `free, `live, `ranges, pages.kernelPool.usedMap.bits, pages.userPool.usedMap.bits
      ensures Valid() && live == old(live) - {x}
      ensures PagesGiven(old(KernelUsed()), KernelUsed(), old(arenas), arenas, FirstPage(), x / PGSIZE)
      ensures UserUsed() == old(UserUsed()) && arenas.Keys >= old(arenas).Keys - {x / PGSIZE}
    {
      hide Inv, Tidy, Accounts, Backed, Released, BlocksPerArena;
      ghost var h := State();
      FreeLists();
      GiveTidy(h, x, d);
      BackedDrop(arenas, ranges, others, FirstPage(), x / PGSIZE);
      var pn := x / PGSIZE;
      PushBlock(x, d);
      if arenas[pn].freeCnt >= BlocksPerArena(d) {
        UnlinkBlocks(pn, d);
        FreePages(pn, 1);
        assert State() == DropArena(GiveBlock(h, x, d), pn, d);
      }
    }

    /** The part of free for a big block. */
    method FreeBig(x: nat)
      requires Valid() && x in live && x / PGSIZE in arenas && arenas[x / PGSIZE].desc == None
      modifies `arenas, `live, `ranges, pages.kernelPool.usedMap.bits, pages.userPool.usedMap.bits
      ensures Valid() && live == old(live) - {x}
      ensures PagesGiven(old(KernelUsed()), KernelUsed(), old(arenas), arenas, FirstPage(), x / PGSIZE)
      ensures UserUsed() == old(UserUsed())
    {
      hide Inv, Tidy, Accounts, Backed, PagesGiven, Released;
      ghost var h := State();
      BigBlock(h, x);
      DropBigInv(h, x / PGSIZE);
      DropBigTidy(h, x / PGSIZE);
      FreePages(x / PGSIZE, arenas[x / PGSIZE].freeCnt);
      live := live - {x};
      assert State() == DropBig(h, x / PGSIZE);
    }

    /** free: the arena's pages go back to palloc exactly when its last block is freed. */
    method Free(p: Option<nat>)
      requires Valid()
      requires p.Some? ==> p.value in live
      modifies `arenas, `free, `live, `ranges, pages.kernelPool.usedMap.bits, pages.userPool.usedMap.bits
      ensures Valid()
      ensures live == if p.Some? then old(live) - {p.value} else old(live)
      ensures p.None? ==> KernelUsed() == old(KernelUsed())
      ensures p.Some? ==>
        && FirstPage() <= p.value / PGSIZE && p.value / PGSIZE in old(arenas)
        && if OnPage(live, p.value / PGSIZE) then KernelUsed() == old(KernelUsed())
           else Released(old(KernelUsed()), p.value / PGSIZE - FirstPage(), old(arenas)[p.value / PGSIZE].Pages(),
                         KernelUsed())
      ensures UserUsed() == old(UserUsed())
    {
      hide Inv, Tidy, Accounts, Backed, Released, BlockSize, OnPage;
      if p.None? { return; }
      var pn := p.value / PGSIZE;
      ghost var h := State();
      CapacityCases(h, p.value);
      var a := arenas[pn];
      if a.desc.Some? {
        FreeSmall(p.value, a.desc.value);
      } else {
        FreeBig(p.value);
      }
      ArenaIffInUse(State(), pn);
    }

    /** block_size */
    method BlockBytes(x: nat) returns (n: nat)
      requires Valid() && x in live
      ensures x / PGSIZE in arenas && n == Capacity(State(), x) && live[x] <= n
    {
      hide Inv, Tidy, Accounts, Backed, Capacity, BlockSize;
      CapacityCases(State(), x);
      var a := arenas[x / PGSIZE];
      n := if a.desc.Some? then descs[a.desc.value] else PGSIZE * a.freeCnt - x % PGSIZE;
    }

    /** realloc; `copied` is the length that it passes to memcpy. */
    method Realloc(oldBlock: Option<nat>, newSize: nat) returns (r: Option<nat>, copied: nat)
      requires Valid() && newSize < U32 && (oldBlock.Some? ==> oldBlock.value in live)
      modifies `arenas, `free, `live, `ranges, pages.kernelPool.usedMap.bits, pages.userPool.usedMap.bits
      ensures Valid()
      ensures newSize == 0 ==>
                r.None? && live == if oldBlock.Some? then old(live) - {oldBlock.value} else old(live)
      ensures newSize > 0 && r.None? ==>
                live == old(live) && (PagesNeeded(newSize) == 0 || old(NoRoom(PagesNeeded(newSize))))
      ensures r.Some? ==> r.value !in old(live)
      ensures r.Some? ==>
                live == (if oldBlock.Some? then old(live) - {oldBlock.value} else old(live))
                        [r.value := Granted(newSize)]
      ensures r.Some? && oldBlock.Some? ==>
        && oldBlock.value / PGSIZE in old(arenas)
        && copied == Min(newSize, Capacity(old(State()), oldBlock.value))
        && copied >= Min(newSize, old(live)[oldBlock.value])
      ensures r.Some? && newSize <= U32 - HEADER ==> copied <= live[r.value]
      ensures UserUsed() == old(UserUsed())
      ensures !(r.Some? && oldBlock.Some?) ==> copied == 0
    {
      hide Inv, Tidy, Accounts, Backed, NoRoom, PagesNeeded, PagesTaken, Released, Capacity, ArenasStay, OnPage;
      copied := 0;
      if newSize == 0 {
        Free(oldBlock);
        return None, 0;
      }
      ghost var h := State();
      if oldBlock.Some? { CapacityCases(h, oldBlock.value); }
      r := Malloc(newSize);
      if oldBlock.Some? && r.Some? {
        CapacityStays(h, State(), oldBlock.value);
        var oldSize := BlockBytes(oldBlock.value);
        copied := if newSize < oldSize then newSize else oldSize;
        Free(oldBlock);
      }
    }

    // ----- Other users of the kernel pool -----

    /** palloc_get_multiple(0, cnt) by somebody else. */
    method OtherGets(cnt: nat) returns (pn: Option<nat>)
      requires Valid()
      modifies `ranges, `others, pages.kernelPool.usedMap.bits
      ensures Valid() && State() == old(State())
      ensures others == if pn.Some? then old(others) + {pn.value - FirstPage()} else old(others)
      ensures pn.Some? ==> ranges == old(ranges)[pn.value - FirstPage() := cnt]
    {
      hide Inv, Tidy, Accounts, Backed, NoRoom;
      ghost var rs := ranges;
      pn := GetPages(cnt);
      if pn.Some? {
        BackedOtherTakes(arenas, rs, others, FirstPage(), pn.value - FirstPage(), cnt);
        others := others + {pn.value - FirstPage()};
      }
    }

    /** palloc_free_multiple by somebody else, of pages that they were given. */
    method OtherGives(pn: nat, cnt: nat)
      requires Valid() && FirstPage() <= pn && pn - FirstPage() in others
      requires pn - FirstPage() in ranges && ranges[pn - FirstPage()] == cnt
      modifies `ranges, `others, pages.kernelPool.usedMap.bits, pages.userPool.usedMap.bits
      ensures Valid() && State() == old(State())
      ensures others == old(others) - {pn - FirstPage()} && ranges == old(ranges) - {pn - FirstPage()}
    {
      hide Inv, Tidy, Backed;
      ghost var v, idx := KernelUsed(), pn - FirstPage();
      RangeIsUsed(v, ranges, idx);
      BackedOtherGives(arenas, ranges, others, FirstPage(), idx);
      assert pages.PoolFor(false).Owns(pn * PGSIZE);
      pages.FreeMultiple(pn * PGSIZE, cnt);
      ReleaseAccounts(v, ranges, idx, KernelUsed());
      ranges, others := ranges - {idx}, others - {idx};
    }

    // ----- What holds after any calls -----

    lemma ArenasApart()
      requires Valid()
      ensures forall p, q | p in arenas && q in arenas && p < q :: p + arenas[p].Pages() <= q
    {
      hide Inv, Tidy, Accounts;
      forall p, q | p in arenas && q in arenas && p < q
        ensures p + arenas[p].Pages() <= q
      {
        ArenasDisjoint(KernelUsed(), arenas, ranges, others, FirstPage(), p, q);
      }
    }

    /** A block in use holds what it was granted, lies behind the header of its arena and within its
        pages, and is clear of the headers of all other arenas. */
    lemma BlockInUse(x: nat, q: nat)
      requires Valid() && x in live && q in arenas
      ensures x / PGSIZE in arenas && x / PGSIZE * PGSIZE + HEADER <= x
      ensures live[x] <= Capacity(State(), x)
      ensures x + Capacity(State(), x) <= (x / PGSIZE + arenas[x / PGSIZE].Pages()) * PGSIZE
      ensures q * PGSIZE + HEADER <= x || x + Capacity(State(), x) <= q * PGSIZE
    {
      hide Inv, Tidy, Accounts, Backed;
      ArenasApart();
      LiveInArena(State(), x);
      LiveClearOfHeaders(State(), x, q);
    }

    /** Blocks in use do not overlap. */
    lemma BlocksInUse(x: nat, y: nat)
      requires Valid() && x in live && y in live && x < y
      ensures x / PGSIZE in arenas && x + Capacity(State(), x) <= y
    {
      hide Inv, Tidy, Accounts, Backed;
      ArenasApart();
      LiveDisjoint(State(), x, y);
    }

    /** A page is an arena exactly as long as it has a block in use, and of the ranges in use in the
        pool exactly those of arenas are malloc's, each with the arena's number of pages. */
    lemma ArenasInUse()
      requires Valid()
      ensures forall pn :: pn in arenas <==> OnPage(live, pn)
      ensures forall i | i in ranges :: i in others <==> !OnPage(live, FirstPage() + i)
      ensures forall pn | pn in arenas :: IsRange(arenas[pn], pn, ranges, FirstPage())
    {
      hide Inv, Tidy, Accounts;
      forall pn
        ensures pn in arenas <==> OnPage(live, pn)
      {
        ArenaIffInUse(State(), pn);
      }
    }

    /** When no block is in use malloc holds no page. */
    lemma AllReturned()
      requires Valid() && live == map[]
      ensures arenas == map[] && ranges.Keys == others
    {
      ArenasInUse();
      hide Inv, Tidy, Accounts;
    }
  }

  lemma FirstIsLeast(size: nat, d: nat)
    requires size <= BlockSize(d) && forall e | 0 <= e < d :: BlockSize(e) < size
    ensures LeastBlock(size, BlockSize(d))
  {
    if d > 0 {
      assert BlockSize(d - 1) < size;
      assert Pow2(d) == 2 * Pow2(d - 1);
    }
  }

  /** Sizes that a descriptor serves do not wrap. */
  lemma SmallSize(size: nat, d: nat)
    requires d < DESC_CNT && size <= BlockSize(d)
    ensures size <= 1024 && size <= U32 - HEADER
  {
    BlockSizeBound(d);
    BlockSizeBound(6);
    assert BlockSize(7) == 2 * BlockSize(6);
    Pow2Monotonic(d, 6);
    assert Pow2(3) == 8;
    Pow2Add(3, 3);
  }

  lemma StayOn(a: map<nat, Arena>, b: map<nat, Arena>, c: map<nat, Arena>)
    requires ArenasStay(a, b) && ArenasStay(b, c)
    ensures ArenasStay(a, c)
  {
  }

  lemma InPool(v: seq<bool>, idx: nat, cnt: nat)
    requires Group(v, idx, cnt, true) && cnt > 0
    ensures idx < |v|
  {
  }

  lemma FreeListFront(h: Heap, d: nat)
    requires Inv(h) && d < DESC_CNT && h.free[d] != []
    ensures |h.free| == DESC_CNT
    ensures h.free[d][0] / PGSIZE in h.arenas && h.arenas[h.free[d][0] / PGSIZE].desc == Some(d)
  {
    assert FreeListInv(h, d) && h.free[d][0] in h.free[d];
  }

  lemma DropBigTidy(h: Heap, pn: nat)
    requires Tidy(h)
    ensures Tidy(DropBig(h, pn))
  {
    hide BlocksPerArena;
  }

  lemma BigBlock(h: Heap, x: nat)
    requires Inv(h) && x in h.live && x / PGSIZE in h.arenas && h.arenas[x / PGSIZE].desc == None
    ensures x == x / PGSIZE * PGSIZE + HEADER
  {
    assert LiveInv(h, x);
  }

  /** No block in use lies on a page that is not an arena's. */
  lemma NotLive(h: Heap, pn: nat, x: nat)
    requires Inv(h) && pn !in h.arenas && x / PGSIZE == pn
    ensures x !in h.live
  {
    if x in h.live { LiveInArena(h, x); }
  }

  /** The powers of two below half a page are the sizes of descriptors 0 to 6. */
  lemma BlockSizeBound(d: nat)
    ensures BlockSize(d) < PGSIZE / 2 <==> d < DESC_CNT
    ensures BlockSize(d + 1) == 2 * BlockSize(d)
  {
    assert Pow2(3) == 8;
    Pow2Add(3, 3);
    assert Pow2(7) == 2 * Pow2(6);
    if d < DESC_CNT { Pow2Monotonic(d, 6); } else { Pow2Monotonic(7, d); }
  }
}
