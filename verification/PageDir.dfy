// The two-level page table of Pintos/userprog/pagedir.c and Pintos/threads/pte.h.
// Addresses are numbers below 2^32; a "kernel address" is one at or above PHYS_BASE.
module PageDir {
  import opened Prelude

  // PHYS_BASE is 0xc000_0000, and 768 page directory entries lie below it.

  type Addr = a: nat | a < 0x1_0000_0000

  predicate IsUserVaddr(a: nat) { a < 0xc000_0000 }

  predicate IsKernelPage(k: nat) { 0xc000_0000 <= k < 0x1_0000_0000 && k % 4096 == 0 }

  // ----- Entries.  Addresses of pages have their low 12 bits clear, so | is + -----

  function PdeCreate(pt: nat): nat
    requires IsKernelPage(pt)
  {
    pt - 0xc000_0000 + 7
  }

  function PteCreateUser(page: nat, writable: bool): nat
    requires IsKernelPage(page)
  {
    page - 0xc000_0000 + 1 + (if writable then 2 else 0) + 4
  }

  /** pde_get_pt and pte_get_page: the kernel address of the page that an entry refers to. */
  function PageOf(e: nat): nat { 0xc000_0000 + (e - e % 4096) }

  predicate Present(e: nat) { e % 2 == 1 }

  predicate IsWritable(e: nat) { e / 2 % 2 == 1 }

  predicate IsForUser(e: nat) { e / 4 % 2 == 1 }

  lemma EntryRoundTrip(page: nat, writable: bool)
    requires IsKernelPage(page)
    ensures PageOf(PteCreateUser(page, writable)) == page && Present(PteCreateUser(page, writable))
    ensures IsWritable(PteCreateUser(page, writable)) == writable && IsForUser(PteCreateUser(page, writable))
    ensures PageOf(PdeCreate(page)) == page && Present(PdeCreate(page)) && PdeCreate(page) != 0
    ensures IsWritable(PdeCreate(page)) && IsForUser(PdeCreate(page))
  {
    var a, f := page - 0xc000_0000, if writable then 7 else 5;
    FrameAligned(page);
    FlagsOfAligned(a, 7);
    FlagsOfAligned(a, f);
    assert PteCreateUser(page, writable) == a + f && PdeCreate(page) == a + 7;
    hide PteCreateUser, PdeCreate, IsKernelPage;
  }

  lemma FrameAligned(page: nat)
    requires IsKernelPage(page)
    ensures (page - 0xc000_0000) % 4096 == 0
  {
    var q := page / 4096;
    assert page == 4096 * q;
    assert page - 0xc000_0000 == 4096 * (q - 0xc_0000);
  }

  /** Flags added to an aligned address do not disturb it, nor it them. */
  lemma FlagsOfAligned(a: nat, f: nat)
    requires a % 4096 == 0 && f < 8
    ensures (a + f) % 4096 == f && (a + f) % 2 == f % 2 && (a + f) / 2 % 2 == f / 2 % 2
    ensures (a + f) / 4 % 2 == f / 4
  {
    var q := a / 4096;
    assert a == 4096 * q;
    Halve(a + f, 2048 * q + f / 2, f % 2);
    Halve(2048 * q + f / 2, 1024 * q + f / 4, f / 2 % 2);
    Halve(1024 * q + f / 4, 512 * q, f / 4);
    assert (a + f) / 4 == 1024 * q + f / 4;
  }

  lemma Halve(x: nat, y: nat, r: nat)
    requires x == 2 * y + r && r < 2
    ensures x / 2 == y && x % 2 == r
  {
  }

  lemma Indices(vaddr: Addr)
    ensures vaddr / 0x40_0000 == vaddr / 4096 / 1024
    ensures vaddr % 0x40_0000 / 4096 == vaddr / 4096 % 1024
    ensures IsUserVaddr(vaddr) ==> vaddr / 4096 < 0xc_0000 && vaddr / 0x40_0000 < 768
  {
  }

  // ----- The meaning of a page directory -----

  datatype Page = Page(kpage: nat, writable: bool)

  /** Every user entry of the directory is empty or refers to a page table of its own. */
  ghost predicate WellFormed(pd: seq<nat>, tables: map<nat, seq<nat>>) {
    && |pd| == 1024
    && (forall t | t in tables :: |tables[t]| == 1024)
    && (forall i | 0 <= i < 768 && pd[i] != 0 :: Present(pd[i]) && PageOf(pd[i]) in tables)
    && (forall i, j | 0 <= i < j < 768 && pd[i] != 0 && pd[j] != 0 :: PageOf(pd[i]) != PageOf(pd[j]))
  }

  /** What user page number n is mapped to. */
  function Mapping(pd: seq<nat>, tables: map<nat, seq<nat>>, n: nat): Option<Page>
    requires WellFormed(pd, tables) && n < 0xc_0000
  {
    var pde := pd[n / 1024];
    if pde == 0 then None
    else
      var pte := tables[PageOf(pde)][n % 1024];
      if Present(pte) then Some(Page(PageOf(pte), IsWritable(pte))) else None
  }

  function SetEntry(tables: map<nat, seq<nat>>, t: nat, k: nat, pte: nat): map<nat, seq<nat>>
    requires t in tables && k < |tables[t]|
  {
    var table: seq<nat> := tables[t][k := pte];
    tables[t := table]
  }

  lemma NewTable(pd: seq<nat>, tables: map<nat, seq<nat>>, i: nat, t: nat, zeros: seq<nat>, n: nat)
    requires WellFormed(pd, tables) && i < 768 && pd[i] == 0 && n < 0xc_0000
    requires IsKernelPage(t) && t !in tables && |zeros| == 1024 && forall k | 0 <= k < 1024 :: zeros[k] == 0
    ensures WellFormed(pd[i := PdeCreate(t)], tables[t := zeros])
    ensures Mapping(pd[i := PdeCreate(t)], tables[t := zeros], n) == Mapping(pd, tables, n)
  {
    EntryRoundTrip(t, true);
    hide PdeCreate, PageOf, IsKernelPage;
  }

  lemma NewEntry(pd: seq<nat>, tables: map<nat, seq<nat>>, m: nat, t: nat, pte: nat, n: nat)
    requires WellFormed(pd, tables) && m < 0xc_0000 && n < 0xc_0000 && pd[m / 1024] != 0 && t == PageOf(pd[m / 1024])
    ensures WellFormed(pd, SetEntry(tables, t, m % 1024, pte))
    ensures n != m ==> Mapping(pd, SetEntry(tables, t, m % 1024, pte), n) == Mapping(pd, tables, n)
    ensures Mapping(pd, SetEntry(tables, t, m % 1024, pte), m)
         == if Present(pte) then Some(Page(PageOf(pte), IsWritable(pte))) else None
  {
    assert n != m ==> n / 1024 != m / 1024 || n % 1024 != m % 1024;
    assert n / 1024 < m / 1024 || n / 1024 == m / 1024 || n / 1024 > m / 1024;
    hide PageOf, Present, IsWritable;
  }

  lemma NewTableForAll(pd: seq<nat>, tables: map<nat, seq<nat>>, i: nat, t: nat, zeros: seq<nat>)
    requires WellFormed(pd, tables) && i < 768 && pd[i] == 0
    requires IsKernelPage(t) && t !in tables && |zeros| == 1024 && forall k | 0 <= k < 1024 :: zeros[k] == 0
    ensures WellFormed(pd[i := PdeCreate(t)], tables[t := zeros])
    ensures forall n | 0 <= n < 0xc_0000 ::
              Mapping(pd[i := PdeCreate(t)], tables[t := zeros], n) == Mapping(pd, tables, n)
    ensures PdeCreate(t) != 0
  {
    EntryRoundTrip(t, true);
    NewTable(pd, tables, i, t, zeros, 0);
    hide WellFormed, Mapping, PdeCreate, IsKernelPage;
    forall n | 0 <= n < 0xc_0000
      ensures Mapping(pd[i := PdeCreate(t)], tables[t := zeros], n) == Mapping(pd, tables, n)
    {
      NewTable(pd, tables, i, t, zeros, n);
    }
  }

  class PageDirectory {
    var pd: seq<nat>
    var tables: map<nat, seq<nat>> // the page tables, by kernel address

    ghost predicate Valid()
      reads this
    {
      WellFormed(pd, tables)
    }

    ghost function At(n: nat): Option<Page>
      requires Valid() && n < 0xc_0000
      reads this
    {
      Mapping(pd, tables, n)
    }

    /** pagedir_create: no user page is mapped. */
    constructor (kernelEntries: seq<nat>)
      requires |kernelEntries| == 256
      ensures Valid() && tables == map[] && forall n | 0 <= n < 0xc_0000 :: At(n) == None
    {
      pd := seq(768, i => 0) + kernelEntries;
      tables := map[];
    }

    /** lookup_page: the table and the index of the entry for vaddr; `pt` is the result of
        palloc_get_page if it is called. */
    method LookupPage(vaddr: Addr, create: bool, pt: Option<nat>) returns (r: Option<(nat, nat)>)
      requires Valid() && IsUserVaddr(vaddr)
      requires create && pt.Some? ==> IsKernelPage(pt.value) && pt.value !in tables
      modifies this
      ensures Valid() && forall n | 0 <= n < 0xc_0000 :: At(n) == old(At(n))
      ensures r == None <==> pd[vaddr / 4096 / 1024] == 0
      ensures r.Some? ==> r.value == (PageOf(pd[vaddr / 4096 / 1024]), vaddr / 4096 % 1024)
      ensures r == None <==> old(pd)[vaddr / 4096 / 1024] == 0 && !(create && pt.Some?)
      ensures !(create && pt.Some?) ==> pd == old(pd) && tables == old(tables)
      ensures tables.Keys == old(tables.Keys) || (create && pt.Some? && tables.Keys == old(tables.Keys) + {pt.value})
    {
      hide Mapping, PdeCreate, PageOf;
      Indices(vaddr);
      var i := vaddr / 0x40_0000;
      if pd[i] == 0 {
        if !create || pt == None {
          return None;
        }
        var zeros: seq<nat> := seq(1024, k => 0);
        NewTableForAll(pd, tables, i, pt.value, zeros);
        tables := tables[pt.value := zeros];
        pd := pd[i := PdeCreate(pt.value)];
      }
      return Some((PageOf(pd[i]), vaddr % 0x40_0000 / 4096));
    }

    /** pagedir_set_page; the requires are its assertions. */
    method SetPage(upage: Addr, kpage: nat, writable: bool, pt: Option<nat>) returns (ok: bool)
      requires Valid() && upage % 4096 == 0 && IsUserVaddr(upage) && IsKernelPage(kpage)
      requires At(upage / 4096) == None
      requires pt.Some? ==> IsKernelPage(pt.value) && pt.value !in tables
      modifies this
      ensures Valid()
      ensures forall n | 0 <= n < 0xc_0000 ::
                At(n) == if ok && n == upage / 4096 then Some(Page(kpage, writable)) else old(At(n))
      ensures ok <==> old(pd)[upage / 4096 / 1024] != 0 || pt.Some?
      ensures tables.Keys == old(tables.Keys) || (pt.Some? && tables.Keys == old(tables.Keys) + {pt.value})
    {
      hide Mapping, PageOf, IsWritable, Present, PteCreateUser;
      var pte := LookupPage(upage, true, pt);
      if pte == None {
        return false;
      }
      var (t, k) := pte.value;
      EntryRoundTrip(kpage, writable);
      var e := PteCreateUser(kpage, writable);
      forall n | 0 <= n < 0xc_0000
        ensures WellFormed(pd, SetEntry(tables, t, k, e))
        ensures Mapping(pd, SetEntry(tables, t, k, e), n)
             == if n == upage / 4096 then Some(Page(kpage, writable)) else At(n)
      {
        NewEntry(pd, tables, upage / 4096, t, e, n);
      }
      NewEntry(pd, tables, upage / 4096, t, e, 0);
      tables := SetEntry(tables, t, k, e);
      return true;
    }

    /** pagedir_get_page */
    method GetPage(uaddr: Addr) returns (r: Option<nat>)
      requires Valid() && IsUserVaddr(uaddr)
      ensures r == if At(uaddr / 4096) == None then None else Some(At(uaddr / 4096).value.kpage + uaddr % 4096)
    {
      Indices(uaddr);
      var i := uaddr / 0x40_0000;
      if pd[i] == 0 {
        return None;
      }
      var pte := tables[PageOf(pd[i])][uaddr % 0x40_0000 / 4096];
      return if Present(pte) then Some(PageOf(pte) + uaddr % 4096) else None;
    }

    /** pagedir_clear_page: afterwards the page is not mapped, the others are as they were, and all
        bits of the entries above the lowest too. */
    method ClearPage(upage: Addr)
      requires Valid() && upage % 4096 == 0 && IsUserVaddr(upage)
      modifies this
      ensures Valid()
      ensures forall n | 0 <= n < 0xc_0000 :: At(n) == if n == upage / 4096 then None else old(At(n))
      ensures pd == old(pd) && tables.Keys == old(tables).Keys
      ensures forall t, k | t in tables && 0 <= k < 1024 ::
                |tables[t]| == |old(tables)[t]| == 1024 && tables[t][k] / 2 == old(tables)[t][k] / 2
    {
      var pte := LookupPage(upage, false, None);
      if pte == None {
        return;
      }
      var (t, k) := pte.value;
      var e := tables[t][k];
      if Present(e) {
        hide Mapping, PageOf, IsWritable;
        forall n | 0 <= n < 0xc_0000
          ensures WellFormed(pd, SetEntry(tables, t, k, e - 1))
          ensures Mapping(pd, SetEntry(tables, t, k, e - 1), n) == if n == upage / 4096 then None else At(n)
        {
          NewEntry(pd, tables, upage / 4096, t, e - 1, n);
        }
        NewEntry(pd, tables, upage / 4096, t, e - 1, 0);
        tables := SetEntry(tables, t, k, e - 1);
      }
    }
  }
}
