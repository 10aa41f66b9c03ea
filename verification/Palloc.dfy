// Pintos/threads/palloc.c: page ranges handed out first fit from two pools.
module Palloc {
  import opened Bitmap
  import opened Prelude

  const PGSIZE: nat := 4096

  function DivRoundUp(x: nat, step: nat): nat
    requires step > 0
  {
    (x + step - 1) / step
  }

  /** The least multiple of step that is not below x. */
  lemma DivRoundUpLeast(x: nat, step: nat)
    requires step > 0
    ensures x <= DivRoundUp(x, step) * step < x + step
  {
    var y := x + step - 1;
    assert y == y / step * step + y % step;
  }

  /** bitmap_buf_size: the header and one 4-byte word for every 32 bits. */
  function BitmapBufSize(bitCnt: nat): nat {
    8 + 4 * DivRoundUp(bitCnt, ELEM_BITS)
  }

  /** Pages of a pool that hold its own bitmap. */
  function BitmapPages(pageCnt: nat): nat {
    DivRoundUp(BitmapBufSize(pageCnt), PGSIZE)
  }

  lemma BitmapFits(pageCnt: nat)
    requires BitmapPages(pageCnt) <= pageCnt
    ensures forall words: nat | words * ELEM_BITS < pageCnt - BitmapPages(pageCnt) + ELEM_BITS ::
              8 + 4 * words <= BitmapPages(pageCnt) * PGSIZE
    ensures BitmapPages(pageCnt) * PGSIZE < 12 + pageCnt / 8 + PGSIZE
  {
    hide DivRoundUp;
    DivRoundUpLeast(BitmapBufSize(pageCnt), PGSIZE);
    DivRoundUpLeast(pageCnt, ELEM_BITS);
  }

  lemma AlignedBase(start: nat, n: nat)
    requires start % PGSIZE == 0
    ensures (start + n * PGSIZE) % PGSIZE == 0
  {
    assert start + n * PGSIZE == (start / PGSIZE + n) * PGSIZE;
  }

  // ----- What a request and a release do to the map of used pages -----

  /** A request for cnt > 0 pages takes the lowest free group, or fails when there is none. */
  ghost predicate Requested(v: seq<bool>, cnt: nat, idx: Option<nat>, w: seq<bool>) {
    && (idx.Some? ==> Group(v, idx.value, cnt, false) && w == Filled(v, idx.value, cnt, true))
    && (idx.None? ==> w == v)
    && (forall j: nat | idx.Some? ==> j < idx.value :: !Group(v, j, cnt, false))
  }

  ghost predicate Released(v: seq<bool>, idx: nat, cnt: nat, w: seq<bool>) {
    Group(v, idx, cnt, true) && w == Filled(v, idx, cnt, false)
  }

  class Pool {
    const usedMap: Bitmap
    const base: nat

    ghost predicate Valid() {
      usedMap.Valid() && base % PGSIZE == 0 && base > 0
    }

    ghost function Used(): seq<bool>
      requires Valid()
      reads usedMap.bits
    {
      usedMap.View()
    }

    function End(): nat {
      base + usedMap.bitCnt * PGSIZE
    }

    /** init_pool; the kernel panics when the bitmap alone does not fit.  The first page follows the
        bitmap's header and words, and begins less than a page behind what a bitmap for pageCnt needs. */
    constructor (start: nat, pageCnt: nat)
      requires start % PGSIZE == 0 && start > 0 && BitmapPages(pageCnt) <= pageCnt
      ensures Valid() && fresh(usedMap) && fresh(usedMap.bits)
      ensures base == start + BitmapPages(pageCnt) * PGSIZE && End() == start + pageCnt * PGSIZE
      ensures Used() == seq(usedMap.bitCnt, _ => false)
      ensures start + 8 + 4 * usedMap.bits.Length <= base < start + 12 + pageCnt / 8 + PGSIZE
    {
      hide BitmapPages;
      BitmapFits(pageCnt);
      AlignedBase(start, BitmapPages(pageCnt));
      var bmPages := BitmapPages(pageCnt);
      var m := new Bitmap(pageCnt - bmPages);
      usedMap := m;
      base := start + bmPages * PGSIZE;
    }

    /** page_from_pool */
    predicate Owns(page: nat) {
      base / PGSIZE <= page / PGSIZE < base / PGSIZE + usedMap.bitCnt
    }
  }

  class PageAllocator {
    const kernelPool: Pool
    const userPool: Pool

    ghost predicate Valid() {
      && kernelPool.Valid() && userPool.Valid()
      && kernelPool.usedMap.bits != userPool.usedMap.bits
      && kernelPool.End() <= userPool.base
    }

    /** palloc_init: the user pool follows the kernel pool. */
    constructor (freeStart: nat, kernelPages: nat, userPages: nat)
      requires freeStart % PGSIZE == 0 && freeStart > 0
      requires BitmapPages(kernelPages) <= kernelPages && BitmapPages(userPages) <= userPages
      ensures Valid()
    {
      var k := new Pool(freeStart, kernelPages);
      var u := new Pool(freeStart + kernelPages * PGSIZE, userPages);
      kernelPool, userPool := k, u;
    }

    function PoolFor(user: bool): Pool {
      if user then userPool else kernelPool
    }

    /** palloc_get_multiple without PAL_ASSERT; None is the null pointer. */
    method GetMultiple(user: bool, pageCnt: nat) returns (pages: Option<nat>)
      requires Valid()
      modifies PoolFor(user).usedMap.bits
      ensures Valid()
      ensures pageCnt == 0 ==> pages == None && PoolFor(user).Used() == old(PoolFor(user).Used())
      ensures pageCnt > 0 ==>
        && (pages.Some? ==> PoolFor(user).Owns(pages.value) && pages.value % PGSIZE == 0)
        && Requested(old(PoolFor(user).Used()), pageCnt, PageIndex(PoolFor(user), pages), PoolFor(user).Used())
    {
      if pageCnt == 0 { return None; }
      var pool := PoolFor(user);
      var idx := pool.usedMap.ScanAndFlip(0, pageCnt, false);
      if idx.None? { return None; }
      PageAddress(pool, idx.value);
      return Some(pool.base + PGSIZE * idx.value);
    }

    /** palloc_free_multiple: the pool is found from the address. */
    method FreeMultiple(pages: nat, pageCnt: nat)
      requires Valid()
      requires pages % PGSIZE == 0
      requires pages != 0 && pageCnt > 0 ==> exists user ::
        PoolFor(user).Owns(pages) && Group(PoolFor(user).Used(), PageNo(PoolFor(user), pages), pageCnt, true)
      modifies kernelPool.usedMap.bits, userPool.usedMap.bits
      ensures Valid()
      ensures pages == 0 || pageCnt == 0 ==>
        kernelPool.Used() == old(kernelPool.Used()) && userPool.Used() == old(userPool.Used())
      ensures forall user | pages != 0 && pageCnt > 0 && PoolFor(user).Owns(pages) ::
        && Released(old(PoolFor(user).Used()), PageNo(PoolFor(user), pages), pageCnt, PoolFor(user).Used())
        && PoolFor(!user).Used() == old(PoolFor(!user).Used())
    {
      if pages == 0 || pageCnt == 0 { return; }
      var user := !kernelPool.Owns(pages);
      PoolsDisjoint(pages);
      var pool := PoolFor(user);
      pool.usedMap.SetMultiple(pages / PGSIZE - pool.base / PGSIZE, pageCnt, false);
    }

    lemma PoolsDisjoint(pages: nat)
      requires Valid()
      ensures !(kernelPool.Owns(pages) && userPool.Owns(pages))
    {
      assert kernelPool.End() / PGSIZE == kernelPool.base / PGSIZE + kernelPool.usedMap.bitCnt;
    }
  }

  function PageNo(pool: Pool, page: nat): nat
    requires pool.Owns(page)
  {
    page / PGSIZE - pool.base / PGSIZE
  }

  ghost function PageIndex(pool: Pool, pages: Option<nat>): Option<nat>
    requires pages.Some? ==> pool.Owns(pages.value)
  {
    if pages.Some? then Some(PageNo(pool, pages.value)) else None
  }

  lemma PageAddress(pool: Pool, idx: nat)
    requires pool.Valid() && idx < pool.usedMap.bitCnt
    ensures var page := pool.base + PGSIZE * idx;
      pool.Owns(page) && page % PGSIZE == 0 && PageNo(pool, page) == idx
  {
  }

  // ----- Live ranges -----

  predicate InSome(live: map<nat, nat>, p: nat) {
    exists s | s in live :: s <= p < s + live[s]
  }

  /** The ranges (start page to count) are nonempty, disjoint, and cover exactly the used pages. */
  ghost predicate Accounts(v: seq<bool>, live: map<nat, nat>) {
    && (forall s | s in live :: live[s] > 0 && s + live[s] <= |v|)
    && (forall s, t | s in live && t in live && s < t :: s + live[s] <= t)
    && (forall p | 0 <= p < |v| :: v[p] <==> InSome(live, p))
  }

  lemma RequestAccounts(v: seq<bool>, live: map<nat, nat>, cnt: nat, idx: nat, w: seq<bool>)
    requires Accounts(v, live) && cnt > 0 && Requested(v, cnt, Some(idx), w)
    ensures idx !in live && Accounts(w, live[idx := cnt])
  {
    var more := live[idx := cnt];
    forall s | s in live
      ensures s + live[s] <= idx || idx + cnt <= s
    {
      assert InSome(live, s) && InSome(live, s + live[s] - 1);
      if s < idx < s + live[s] { assert InSome(live, idx); }
    }
    forall p | 0 <= p < |v|
      ensures w[p] <==> InSome(more, p)
    {
      if InSome(live, p) {
        var s :| s in live && s <= p < s + live[s];
        assert s in more && more[s] == live[s];
      }
      if idx <= p < idx + cnt { assert idx in more; }
    }
  }

  lemma ReleaseAccounts(v: seq<bool>, live: map<nat, nat>, idx: nat, w: seq<bool>)
    requires Accounts(v, live) && idx in live && Released(v, idx, live[idx], w)
    ensures Accounts(w, live - {idx})
  {
    var less := live - {idx};
    forall p | 0 <= p < |v|
      ensures w[p] <==> InSome(less, p)
    {
      if InSome(live, p) {
        var s :| s in live && s <= p < s + live[s];
        if s != idx { assert s in less; }
      }
    }
  }

  lemma RangeIsUsed(v: seq<bool>, live: map<nat, nat>, idx: nat)
    requires Accounts(v, live) && idx in live
    ensures live[idx] > 0 && Group(v, idx, live[idx], true)
  {
    forall k | idx <= k < idx + live[idx]
      ensures v[k]
    {
      assert InSome(live, k);
    }
  }

  // ----- Runs of requests and releases on one pool -----

  datatype PoolState = PoolState(used: seq<bool>, live: map<nat, nat>)

  ghost predicate PoolNext(a: PoolState, b: PoolState) {
    || (exists cnt, idx :: cnt > 0 && Requested(a.used, cnt, Some(idx), b.used) && b.live == a.live[idx := cnt])
    || (exists cnt :: cnt > 0 && Requested(a.used, cnt, None, b.used) && b.live == a.live)
    || (exists idx :: idx in a.live && Released(a.used, idx, a.live[idx], b.used) && b.live == a.live - {idx})
  }

  ghost predicate PoolRun(run: seq<PoolState>) {
    && run != [] && run[0].live == map[] && run[0].used == seq(|run[0].used|, _ => false)
    && forall i, j | 0 <= i < |run| && 0 <= j < |run| && j == i + 1 :: PoolNext(run[i], run[j])
  }

  /** In every run the live ranges are disjoint and cover exactly the set bits. */
  lemma {:induction false} PoolRunAccounts(run: seq<PoolState>)
    requires PoolRun(run)
    ensures Accounts(run[|run| - 1].used, run[|run| - 1].live)
  {
    var n := |run| - 1;
    if n > 0 {
      PoolRunAccounts(run[..n]);
      var a, b := run[n - 1], run[n];
      assert PoolNext(a, b);
      if cnt, idx :| cnt > 0 && Requested(a.used, cnt, Some(idx), b.used) && b.live == a.live[idx := cnt] {
        RequestAccounts(a.used, a.live, cnt, idx, b.used);
      } else if idx :| idx in a.live && Released(a.used, idx, a.live[idx], b.used) && b.live == a.live - {idx} {
        ReleaseAccounts(a.used, a.live, idx, b.used);
      }
    }
  }
}
