// Loading an executable's segments: validate_segment, load, load_segment, install_page and
// setup_stack of Pintos/userprog/process.c.
module ElfLoader {
  import opened Prelude
  import opened PageDir
  import InodeIo

  type Word = w: nat | w < 0x1_0000_0000

  datatype Phdr = Phdr(pType: Word, pOffset: Word, pVaddr: Word, pFilesz: Word, pMemsz: Word, writable: bool)

  /** Arithmetic of uint32_t. */
  function Add(x: nat, y: nat): Word { (x + y) % 0x1_0000_0000 }

  function Sub(x: Word, y: Word): Word { (x - y) % 0x1_0000_0000 }

  /** ROUND_UP to pages. */
  function PageRoundUp(x: Word): Word { Add(x, 4095) / 4096 * 4096 }

  /** validate_segment, test by test. */
  predicate ValidateSegment(phdr: Phdr, fileLength: nat) {
    && phdr.pOffset % 4096 == phdr.pVaddr % 4096
    && !(phdr.pOffset > fileLength)
    && !(phdr.pMemsz < phdr.pFilesz)
    && phdr.pMemsz != 0
    && IsUserVaddr(phdr.pVaddr)
    && IsUserVaddr(Add(phdr.pVaddr, phdr.pMemsz))
    && !(Add(phdr.pVaddr, phdr.pMemsz) < phdr.pVaddr)
    && !(phdr.pVaddr < 4096)
  }

  datatype Layout = Layout(filePage: Word, memPage: Word, readBytes: Word, zeroBytes: Word)

  /** What load computes for a PT_LOAD segment. */
  function SegmentLayout(phdr: Phdr): Layout {
    var filePage := phdr.pOffset - phdr.pOffset % 4096;
    var memPage := phdr.pVaddr - phdr.pVaddr % 4096;
    var pageOffset := phdr.pVaddr % 4096;
    if phdr.pFilesz > 0 then
      var readBytes := Add(pageOffset, phdr.pFilesz);
      Layout(filePage, memPage, readBytes, Sub(PageRoundUp(Add(pageOffset, phdr.pMemsz)), readBytes))
    else
      Layout(filePage, memPage, 0, PageRoundUp(Add(pageOffset, phdr.pMemsz)))
  }

  /** A segment that is not empty, starts in the file, has no more bytes there than in memory, and lies
      in user space above page 0, at the same offset in its page as in the file's. */
  predicate SoundSegment(phdr: Phdr, fileLength: nat) {
    && phdr.pOffset % 4096 == phdr.pVaddr % 4096 && phdr.pOffset <= fileLength
    && phdr.pFilesz <= phdr.pMemsz && phdr.pMemsz > 0
    && 4096 <= phdr.pVaddr && phdr.pVaddr + phdr.pMemsz < 0xc000_0000
  }

  /** The tests of validate_segment accept exactly those, although they add with wrap-around. */
  lemma ValidSegment(phdr: Phdr, fileLength: nat)
    ensures ValidateSegment(phdr, fileLength) <==> SoundSegment(phdr, fileLength)
  {
  }

  lemma AddExact(x: nat, y: nat)
    requires x + y < 0x1_0000_0000
    ensures Add(x, y) == x + y
  {
  }

  lemma PageRoundUpExact(x: nat)
    requires x <= 0xd000_0000
    ensures PageRoundUp(x) % 4096 == 0 && x <= PageRoundUp(x) < x + 4096
  {
    AddExact(x, 4095);
    hide Add;
  }

  lemma Aligned(x: nat)
    ensures x - x % 4096 >= 0 && (x - x % 4096) % 4096 == 0
  {
  }

  /** A multiple of the page size above a page-aligned address stays within an aligned bound. */
  lemma WithinBound(a: nat, r: nat, x: nat)
    requires a % 4096 == 0 && r % 4096 == 0 && r < x + 4096 && a + x < 0xc000_0000
    ensures a + r <= 0xc000_0000
  {
    var p, q := a / 4096, r / 4096;
    assert a == 4096 * p && r == 4096 * q;
  }

  /** For a valid segment the assertions of load_segment hold, and its pages cover the segment
      and lie in user space. */
  lemma LayoutOfValidSegment(phdr: Phdr, fileLength: nat)
    requires SoundSegment(phdr, fileLength)
    ensures var l := SegmentLayout(phdr);
            && l.readBytes + l.zeroBytes < 0x1_0000_0000 && (l.readBytes + l.zeroBytes) % 4096 == 0
            && l.memPage % 4096 == 0 && l.filePage % 4096 == 0 && l.filePage <= fileLength
            && l.memPage >= 4096 && l.memPage + l.readBytes + l.zeroBytes <= 0xc000_0000
            && l.memPage <= phdr.pVaddr && phdr.pVaddr + phdr.pMemsz <= l.memPage + l.readBytes + l.zeroBytes
            && l.memPage + l.readBytes + l.zeroBytes < phdr.pVaddr + phdr.pMemsz + 4096
            && phdr.pVaddr - l.memPage == phdr.pOffset - l.filePage
            && l.readBytes == if phdr.pFilesz > 0 then phdr.pVaddr - l.memPage + phdr.pFilesz else 0
  {
    var po := phdr.pVaddr % 4096;
    var x := po + phdr.pMemsz;
    Aligned(phdr.pVaddr);
    Aligned(phdr.pOffset);
    assert phdr.pVaddr - po >= 4096 by { assert phdr.pVaddr / 4096 >= 1; }
    assert phdr.pOffset % 4096 == po;
    AddExact(po, phdr.pFilesz);
    AddExact(po, phdr.pMemsz);
    PageRoundUpExact(x);
    WithinBound(phdr.pVaddr - po, PageRoundUp(x), x);
    assert phdr.pFilesz > 0 ==> Sub(PageRoundUp(x), po + phdr.pFilesz) == PageRoundUp(x) - (po + phdr.pFilesz) by {
      SubExact(PageRoundUp(x), if po + phdr.pFilesz <= PageRoundUp(x) then po + phdr.pFilesz else 0);
    }
    hide Add, Sub, PageRoundUp, SoundSegment;
  }

  lemma SubExact(x: Word, y: Word)
    requires y <= x
    ensures Sub(x, y) == x - y
  {
  }

  // ----- Memory -----

  /** The bytes that file_read takes from the file at pos for page number i of a segment. */
  function PageRead(readBytes: nat, i: nat): nat {
    if i * 4096 >= readBytes then 0 else if readBytes - i * 4096 < 4096 then readBytes - i * 4096 else 4096
  }

  /** A page that starts with n bytes of the file and is zero after them. */
  function PageContents(file: seq<byte>, pos: nat, n: nat): (s: seq<byte>)
    requires n <= 4096 && (n > 0 ==> pos + n <= |file|)
    ensures |s| == 4096
  {
    (if n == 0 then [] else file[pos..pos + n]) + Zeros(4096 - n)
  }

  /** The file has the bytes that a segment reads. */
  predicate InFile(file: seq<byte>, ofs: nat, readBytes: nat) { readBytes > 0 ==> ofs + readBytes <= |file| }

  /** Page number i of a segment. */
  function PageImage(file: seq<byte>, ofs: nat, readBytes: nat, i: nat): (s: seq<byte>)
    requires InFile(file, ofs, readBytes)
    ensures |s| == 4096
  {
    PageContents(file, ofs + i * 4096, PageRead(readBytes, i))
  }

  /** Byte x of the segment: that of the file, or zero after those that are read. */
  lemma SegmentByte(file: seq<byte>, ofs: nat, readBytes: nat, x: nat)
    requires InFile(file, ofs, readBytes)
    ensures PageImage(file, ofs, readBytes, x / 4096)[x % 4096] == if x < readBytes then file[ofs + x] else 0
  {
  }

  /** Page number i of the segment, and the file as far as the page needs it. */
  ghost predicate HasPage(file: seq<byte>, ofs: nat, readBytes: nat, i: nat,
                          view: Option<(seq<byte>, bool)>, writable: bool) {
    && InFile(file, ofs + i * 4096, PageRead(readBytes, i))
    && view == Some((PageContents(file, ofs + i * 4096, PageRead(readBytes, i)), writable))
  }

  lemma SamePage(file: seq<byte>, ofs: nat, readBytes: nat, i: nat, pos: nat, n: nat, writable: bool)
    requires n == PageRead(readBytes, i) && (n > 0 ==> pos == ofs + i * 4096) && InFile(file, pos, n)
    ensures HasPage(file, ofs, readBytes, i, Some((PageContents(file, pos, n), writable)), writable)
  {
  }

  lemma PageInFile(file: seq<byte>, ofs: nat, readBytes: nat, i: nat, pos: nat, n: nat)
    requires n == PageRead(readBytes, i) && (n > 0 ==> pos == ofs + i * 4096)
    ensures InFile(file, ofs, readBytes) ==> InFile(file, pos, n)
  {
  }

  /** The reasons why load_segment can fail, apart from a page that is mapped already. */
  ghost predicate LacksSomething(file: seq<byte>, ofs: nat, readBytes: nat, firstPage: nat, pages: nat,
                                 freeUser: nat, freeKernel: nat, hasMemory: nat -> bool) {
    || freeUser < pages || freeKernel < pages || !InFile(file, ofs, readBytes)
    || exists n :: firstPage <= n < firstPage + pages && !hasMemory(n)
  }

  /** When the last page that reads from the file is there, the file has all the bytes. */
  lemma AllRead(file: seq<byte>, ofs: nat, readBytes: nat, view: Option<(seq<byte>, bool)>, writable: bool)
    requires readBytes > 0 ==> HasPage(file, ofs, readBytes, (readBytes - 1) / 4096, view, writable)
    ensures InFile(file, ofs, readBytes)
  {
  }

  /** Where load_segment's variables are after i pages. */
  predicate Cursor(readBytes: nat, zeroBytes: nat, upage: nat, ofs: nat,
                   i: nat, read: nat, zero: int, page: nat, pos: nat) {
    && page == upage + i * 4096
    && read == (if i * 4096 < readBytes then readBytes - i * 4096 else 0)
    && zero == readBytes + zeroBytes - i * 4096 - read && zero >= 0
    && pos == ofs + readBytes - read
  }

  lemma CursorStart(readBytes: nat, zeroBytes: nat, upage: nat, ofs: nat)
    ensures Cursor(readBytes, zeroBytes, upage, ofs, 0, readBytes, zeroBytes, upage, ofs)
  {
  }

  lemma CursorNext(readBytes: nat, zeroBytes: nat, upage: nat, ofs: nat,
                   i: nat, read: nat, zero: int, page: nat, pos: nat)
    requires Cursor(readBytes, zeroBytes, upage, ofs, i, read, zero, page, pos) && (read > 0 || zero > 0)
    requires (readBytes + zeroBytes) % 4096 == 0 && upage % 4096 == 0 && upage + readBytes + zeroBytes <= 0xc000_0000
    ensures var n := if read < 4096 then read else 4096;
            && Cursor(readBytes, zeroBytes, upage, ofs, i + 1, read - n, zero - (4096 - n), page + 4096, pos + n)
            && n == PageRead(readBytes, i) && (n > 0 ==> pos == ofs + i * 4096)
    ensures i < (readBytes + zeroBytes) / 4096
    ensures page % 4096 == 0 && page + 4096 <= 0xc000_0000 && page / 4096 == upage / 4096 + i
  {
    var cnt, p := (readBytes + zeroBytes) / 4096, upage / 4096;
    assert readBytes + zeroBytes == 4096 * cnt && upage == 4096 * p;
  }

  lemma CursorEnd(readBytes: nat, zeroBytes: nat, upage: nat, ofs: nat,
                  i: nat, read: nat, zero: int, page: nat, pos: nat)
    requires Cursor(readBytes, zeroBytes, upage, ofs, i, read, zero, page, pos) && read == 0 && zero <= 0
    ensures i == (readBytes + zeroBytes) / 4096
    ensures readBytes > 0 ==> (readBytes - 1) / 4096 < i
  {
  }

  // ----- User memory as the process sees it -----

  /** The contents of each user page and whether the process may write it. */
  type Views = v: seq<Option<(seq<byte>, bool)>> | |v| == 0xc_0000 witness seq(0xc_0000, n => None)

  ghost predicate ByteIs(v: Views, a: nat, x: byte, writable: bool) {
    && a < 0xc000_0000 && v[a / 4096].Some? && |v[a / 4096].value.0| == 4096
    && v[a / 4096].value.0[a % 4096] == x && v[a / 4096].value.1 == writable
  }

  /** Byte j of the segment reads the matching byte of the file, or zero after those. */
  ghost predicate ByteIn(v: Views, file: seq<byte>, phdr: Phdr, j: nat)
    requires InFile(file, phdr.pOffset, phdr.pFilesz)
  {
    ByteIs(v, phdr.pVaddr + j, if j < phdr.pFilesz then file[phdr.pOffset + j] else 0, phdr.writable)
  }

  ghost predicate SegmentIn(v: Views, file: seq<byte>, phdr: Phdr) {
    && InFile(file, phdr.pOffset, phdr.pFilesz)
    && forall j {:trigger ByteIn(v, file, phdr, j)} | 0 <= j < phdr.pMemsz :: ByteIn(v, file, phdr, j)
  }

  /** What was mapped is as it was. */
  ghost predicate Keeps(v: Views, w: Views) {
    forall n | 0 <= n < 0xc_0000 && v[n].Some? :: w[n] == v[n]
  }

  lemma SegmentStays(v: Views, w: Views, file: seq<byte>, phdr: Phdr)
    requires SegmentIn(v, file, phdr) && Keeps(v, w)
    ensures SegmentIn(w, file, phdr)
  {
    forall j {:trigger ByteIn(w, file, phdr, j)} | 0 <= j < phdr.pMemsz
      ensures ByteIn(w, file, phdr, j)
    {
      assert ByteIn(v, file, phdr, j);
    }
  }

  /** How the pages of a segment lie to the segment. */
  predicate Covers(l: Layout, phdr: Phdr) {
    && l.memPage % 4096 == 0 && (l.readBytes + l.zeroBytes) % 4096 == 0
    && l.memPage + l.readBytes + l.zeroBytes <= 0xc000_0000
    && l.memPage <= phdr.pVaddr && phdr.pVaddr + phdr.pMemsz <= l.memPage + l.readBytes + l.zeroBytes
    && phdr.pVaddr - l.memPage == phdr.pOffset - l.filePage && phdr.pFilesz <= phdr.pMemsz
    && l.readBytes == if phdr.pFilesz > 0 then phdr.pVaddr - l.memPage + phdr.pFilesz else 0
  }

  ghost predicate PagesIn(v: Views, file: seq<byte>, l: Layout, writable: bool)
    requires InFile(file, l.filePage, l.readBytes) && l.memPage + l.readBytes + l.zeroBytes <= 0xc000_0000
  {
    forall n | l.memPage / 4096 <= n < l.memPage / 4096 + (l.readBytes + l.zeroBytes) / 4096 ::
      v[n] == Some((PageImage(file, l.filePage, l.readBytes, n - l.memPage / 4096), writable))
  }

  lemma PagesHoldByte(v: Views, file: seq<byte>, phdr: Phdr, l: Layout, j: nat)
    requires Covers(l, phdr) && InFile(file, l.filePage, l.readBytes) && PagesIn(v, file, l, phdr.writable)
    requires j < phdr.pMemsz
    ensures InFile(file, phdr.pOffset, phdr.pFilesz) && ByteIn(v, file, phdr, j)
  {
    hide PageImage;
    var x := phdr.pVaddr + j - l.memPage;
    SegmentByte(file, l.filePage, l.readBytes, x);
    PageOfByte(l.memPage, x, l.readBytes + l.zeroBytes);
    assert v[(phdr.pVaddr + j) / 4096] == Some((PageImage(file, l.filePage, l.readBytes, x / 4096), phdr.writable));
  }

  /** The pages that load_segment maps for a valid segment hold it. */
  lemma PagesHoldSegment(v: Views, file: seq<byte>, phdr: Phdr, l: Layout)
    requires Covers(l, phdr) && InFile(file, l.filePage, l.readBytes) && PagesIn(v, file, l, phdr.writable)
    requires phdr.pMemsz > 0
    ensures SegmentIn(v, file, phdr)
  {
    hide Covers, PagesIn, ByteIn, InFile;
    PagesHoldByte(v, file, phdr, l, 0);
    forall j {:trigger ByteIn(v, file, phdr, j)} | 0 <= j < phdr.pMemsz
      ensures ByteIn(v, file, phdr, j)
    {
      PagesHoldByte(v, file, phdr, l, j);
    }
  }

  lemma PageOfByte(memPage: nat, x: nat, size: nat)
    requires memPage % 4096 == 0 && size % 4096 == 0 && x < size
    ensures (memPage + x) / 4096 == memPage / 4096 + x / 4096 && (memPage + x) % 4096 == x % 4096
    ensures x / 4096 < size / 4096
  {
    var p := memPage / 4096;
    assert memPage == 4096 * p;
  }

  // ----- What all of load needs -----

  const STACK_PAGE := 0xb_ffff

  /** Page number n is one of those that the segment is loaded into. */
  predicate InPages(phdr: Phdr, n: nat) {
    var l := SegmentLayout(phdr);
    l.memPage / 4096 <= n < l.memPage / 4096 + (l.readBytes + l.zeroBytes) / 4096
  }

  function PageCount(phdr: Phdr): nat {
    var l := SegmentLayout(phdr);
    (l.readBytes + l.zeroBytes) / 4096
  }

  lemma PagesOfValidSegment(phdr: Phdr, fileLength: nat, l: Layout)
    requires SoundSegment(phdr, fileLength) && fileLength < 0x8000_0000 && l == SegmentLayout(phdr)
    ensures Covers(l, phdr) && phdr.pMemsz > 0 && l.filePage % 4096 == 0
    ensures l.readBytes + l.zeroBytes < 0x1_0000_0000 && (l.readBytes + l.zeroBytes) % 4096 == 0
    ensures l.memPage % 4096 == 0 && l.memPage + l.readBytes + l.zeroBytes <= 0xc000_0000
    ensures PageCount(phdr) == (l.readBytes + l.zeroBytes) / 4096
    ensures forall n: nat :: InPages(phdr, n) <==> l.memPage / 4096 <= n < l.memPage / 4096 + PageCount(phdr)
  {
    LayoutOfValidSegment(phdr, fileLength);
    hide SegmentLayout;
  }

  ghost predicate SegmentLacks(file: seq<byte>, phdr: Phdr, freeUser: nat, freeKernel: nat, hasMemory: nat -> bool) {
    var l := SegmentLayout(phdr);
    LacksSomething(file, l.filePage, l.readBytes, l.memPage / 4096, PageCount(phdr), freeUser, freeKernel, hasMemory)
  }

  predicate IsLoad(p: Option<Phdr>) { p.Some? && p.value.pType == 1 }

  /** One of the first k segments goes into page n. */
  ghost predicate Touched(phdrs: seq<Option<Phdr>>, k: nat, n: nat) {
    exists i :: 0 <= i < k && i < |phdrs| && IsLoad(phdrs[i]) && InPages(phdrs[i].value, n)
  }

  function TotalPages(phdrs: seq<Option<Phdr>>, k: nat): nat
    requires k <= |phdrs|
  {
    if k == 0 then 0
    else TotalPages(phdrs, k - 1) + if IsLoad(phdrs[k - 1]) then PageCount(phdrs[k - 1].value) else 0
  }

  /** The file has what the segment reads, and nothing is mapped where it goes. */
  ghost predicate Fits(file: seq<byte>, phdr: Phdr, v: Views, hasMemory: nat -> bool) {
    && SoundSegment(phdr, |file|) && InFile(file, SegmentLayout(phdr).filePage, SegmentLayout(phdr).readBytes)
    && forall n: nat | InPages(phdr, n) :: n < 0xc_0000 && n != STACK_PAGE && v[n] == None && hasMemory(n)
  }

  /** All headers are acceptable, the segments and the stack have their pages for themselves, and
      there are enough pages for them and for the page tables. */
  ghost predicate Loadable(file: seq<byte>, phdrs: seq<Option<Phdr>>, v: Views, freeUser: nat, freeKernel: nat,
                           hasMemory: nat -> bool) {
    && (forall p | p in phdrs :: p.Some? && p.value.pType !in {2, 3, 5})
    && (forall i | 0 <= i < |phdrs| && IsLoad(phdrs[i]) :: Fits(file, phdrs[i].value, v, hasMemory))
    && (forall i, j, n: nat | 0 <= i < j < |phdrs| && IsLoad(phdrs[i]) && IsLoad(phdrs[j]) ::
          !(InPages(phdrs[i].value, n) && InPages(phdrs[j].value, n)))
    && v[STACK_PAGE] == None && TotalPages(phdrs, |phdrs|) < freeUser && TotalPages(phdrs, |phdrs|) < freeKernel
  }

  lemma TotalStart(phdrs: seq<Option<Phdr>>)
    ensures TotalPages(phdrs, 0) == 0 && forall n: nat :: !Touched(phdrs, 0, n)
  {
  }

  lemma TotalStep(phdrs: seq<Option<Phdr>>, i: nat)
    requires i < |phdrs|
    ensures TotalPages(phdrs, i + 1)
         == TotalPages(phdrs, i) + if IsLoad(phdrs[i]) then PageCount(phdrs[i].value) else 0
  {
  }

  lemma {:induction false} TotalGrows(phdrs: seq<Option<Phdr>>, i: nat, k: nat)
    requires i <= k <= |phdrs|
    ensures TotalPages(phdrs, i) <= TotalPages(phdrs, k)
  {
    hide PageCount;
    if i < k { TotalGrows(phdrs, i, k - 1); }
  }

  lemma TouchedMore(phdrs: seq<Option<Phdr>>, i: nat, k: nat)
    requires i <= k
    ensures forall n: nat | Touched(phdrs, i, n) :: Touched(phdrs, k, n)
  {
    hide InPages;
  }

  lemma TouchedBy(phdrs: seq<Option<Phdr>>, i: nat)
    requires i < |phdrs| && IsLoad(phdrs[i])
    ensures forall n: nat | InPages(phdrs[i].value, n) :: Touched(phdrs, i + 1, n)
  {
    hide InPages;
  }

  lemma BadHeader(file: seq<byte>, phdrs: seq<Option<Phdr>>, v: Views, freeUser: nat, freeKernel: nat,
                  hasMemory: nat -> bool, i: nat)
    requires i < |phdrs|
    ensures Loadable(file, phdrs, v, freeUser, freeKernel, hasMemory) ==>
              phdrs[i].Some? && phdrs[i].value.pType !in {2, 3, 5}
  {
    assert phdrs[i] in phdrs;
  }

  /** When all is loadable segment i finds its pages free after those before it. */
  lemma SegmentFits(file: seq<byte>, phdrs: seq<Option<Phdr>>, v: Views, freeUser: nat, freeKernel: nat,
                    hasMemory: nat -> bool, i: nat, now: Views, user: nat, kernel: nat)
    requires Loadable(file, phdrs, v, freeUser, freeKernel, hasMemory) && i < |phdrs| && IsLoad(phdrs[i])
    requires forall n | 0 <= n < 0xc_0000 && !Touched(phdrs, i, n) :: now[n] == v[n]
    requires user >= freeUser - TotalPages(phdrs, i) && kernel >= freeKernel - TotalPages(phdrs, i)
    ensures SoundSegment(phdrs[i].value, |file|)
    ensures !SegmentLacks(file, phdrs[i].value, user, kernel, hasMemory)
    ensures forall n: nat | InPages(phdrs[i].value, n) && n < 0xc_0000 :: now[n] == None
  {
    hide TotalPages, PageCount, InPages, Fits, SegmentLacks;
    TotalStep(phdrs, i);
    TotalGrows(phdrs, i + 1, |phdrs|);
    assert Fits(file, phdrs[i].value, v, hasMemory);
    FitsLacksNothing(file, phdrs[i].value, v, user, kernel, hasMemory);
    forall n: nat | InPages(phdrs[i].value, n) && n < 0xc_0000
      ensures now[n] == None
    {
      assert !Touched(phdrs, i, n);
    }
  }

  lemma FitsLacksNothing(file: seq<byte>, phdr: Phdr, v: Views, user: nat, kernel: nat, hasMemory: nat -> bool)
    requires Fits(file, phdr, v, hasMemory) && PageCount(phdr) <= user && PageCount(phdr) <= kernel
    ensures SoundSegment(phdr, |file|) && !SegmentLacks(file, phdr, user, kernel, hasMemory)
    ensures forall n: nat | InPages(phdr, n) && n < 0xc_0000 :: v[n] == None
  {
    hide SoundSegment, SegmentLayout, InFile;
    var l := SegmentLayout(phdr);
    assert forall n: nat | l.memPage / 4096 <= n < l.memPage / 4096 + PageCount(phdr) :: InPages(phdr, n);
  }

  lemma StackFits(file: seq<byte>, phdrs: seq<Option<Phdr>>, v: Views, freeUser: nat, freeKernel: nat,
                  hasMemory: nat -> bool, now: Views)
    requires Loadable(file, phdrs, v, freeUser, freeKernel, hasMemory)
    requires forall n | 0 <= n < 0xc_0000 && !Touched(phdrs, |phdrs|, n) :: now[n] == v[n]
    ensures now[STACK_PAGE] == None
    ensures freeUser - TotalPages(phdrs, |phdrs|) > 0 && freeKernel - TotalPages(phdrs, |phdrs|) > 0
  {
    hide SegmentLayout, SoundSegment, InFile, TotalPages, PageCount, InPages;
    assert !Touched(phdrs, |phdrs|, STACK_PAGE);
  }

  // ----- The process -----

  /** The process's user memory: the page directory, the contents of the user pages, and what
      palloc has left of user and of kernel pages. */
  class Memory {
    const pagedir: PageDirectory
    var frames: map<nat, seq<byte>>
    var freeUser: seq<nat>
    var freeKernel: seq<nat>

    ghost predicate Valid()
      reads this, pagedir
    {
      && pagedir.Valid() && Distinct(freeUser) && Distinct(freeKernel)
      && (forall k | k in frames :: IsKernelPage(k) && |frames[k]| == 4096)
      && (forall k | k in freeUser :: k in frames)
      && (forall t | t in freeKernel :: IsKernelPage(t) && t !in pagedir.tables)
      && (forall n | 0 <= n < 0xc_0000 && pagedir.At(n).Some? ::
            pagedir.At(n).value.kpage in frames && pagedir.At(n).value.kpage !in freeUser)
      && (forall n, m | 0 <= n < m < 0xc_0000 && pagedir.At(n).Some? && pagedir.At(m).Some? ::
            pagedir.At(n).value.kpage != pagedir.At(m).value.kpage)
    }

    /** The contents of user page number n and whether the user may write it. */
    ghost function View(n: nat): Option<(seq<byte>, bool)>
      requires Valid() && n < 0xc_0000
      reads this, pagedir
    {
      if pagedir.At(n) == None then None
      else Some((frames[pagedir.At(n).value.kpage], pagedir.At(n).value.writable))
    }

    /** After pagedir_create; `user` and `kernel` are the pages that palloc can hand out. */
    constructor (kernelEntries: seq<nat>, user: map<nat, seq<byte>>, freeUser: seq<nat>, freeKernel: seq<nat>)
      requires |kernelEntries| == 256 && Distinct(freeUser) && Distinct(freeKernel)
      requires forall k | k in user :: IsKernelPage(k) && |user[k]| == 4096
      requires (forall k | k in freeUser :: k in user) && (forall t | t in freeKernel :: IsKernelPage(t))
      ensures Valid() && fresh(pagedir) && forall n | 0 <= n < 0xc_0000 :: View(n) == None
    {
      pagedir := new PageDirectory(kernelEntries);
      frames, this.freeUser, this.freeKernel := user, freeUser, freeKernel;
    }

    /** A page that palloc has handed out and that is not mapped. */
    ghost predicate Spare(kpage: nat)
      requires Valid()
      reads this, pagedir
    {
      && kpage in frames && kpage !in freeUser
      && forall n | 0 <= n < 0xc_0000 && pagedir.At(n).Some? :: pagedir.At(n).value.kpage != kpage
    }

    /** palloc_get_page(PAL_USER) */
    method AllocPage() returns (r: Option<nat>)
      requires Valid()
      modifies `freeUser
      ensures Valid() && (r.Some? ==> Spare(r.value))
      ensures if old(freeUser) == [] then r == None && freeUser == []
              else r.Some? && old(freeUser) == [r.value] + freeUser
      ensures forall n | 0 <= n < 0xc_0000 :: View(n) == old(View(n))
    {
      hide WellFormed, Mapping;
      if freeUser == [] {
        return None;
      }
      assert freeUser[0] in freeUser && freeUser[0] !in freeUser[1..];
      r := Some(freeUser[0]);
      freeUser := freeUser[1..];
    }

    /** palloc_free_page */
    method FreePage(kpage: nat)
      requires Valid() && Spare(kpage)
      modifies `freeUser
      ensures Valid() && freeUser == [kpage] + old(freeUser)
      ensures forall n | 0 <= n < 0xc_0000 :: View(n) == old(View(n))
    {
      hide WellFormed, Mapping;
      freeUser := [kpage] + freeUser;
    }

    /** file_read at pos into the page, and memset of the rest; hasMemory is the result of malloc
        in inode_read_at. */
    method FillPage(kpage: nat, file: seq<byte>, pos: nat, n: nat, hasMemory: bool) returns (ok: bool)
      requires Valid() && Spare(kpage) && n <= 4096
      modifies `frames
      ensures Valid() && Spare(kpage)
      ensures ok ==> InFile(file, pos, n) && frames[kpage] == PageContents(file, pos, n)
      ensures !ok ==> !InFile(file, pos, n) || !hasMemory
      ensures forall n | 0 <= n < 0xc_0000 :: View(n) == old(View(n))
    {
      hide WellFormed, Mapping;
      var cnt := InodeIo.Count(|file|, n, pos, hasMemory);
      var got := if cnt == 0 then [] else file[pos..pos + cnt];
      if cnt != n {
        frames := frames[kpage := got + frames[kpage][cnt..]];
        return false;
      }
      frames := frames[kpage := got + Zeros(4096 - n)];
      return true;
    }

    /** install_page */
    method InstallPage(upage: Addr, kpage: nat, writable: bool) returns (ok: bool)
      requires Valid() && upage % 4096 == 0 && IsUserVaddr(upage) && Spare(kpage)
      modifies this`freeKernel, pagedir
      ensures Valid() && (!ok ==> Spare(kpage))
      ensures forall n | 0 <= n < 0xc_0000 ::
                View(n) == if ok && n == upage / 4096 then Some((frames[kpage], writable)) else old(View(n))
      ensures if ok then old(View(upage / 4096)) == None else old(View(upage / 4096)).Some? || old(freeKernel) == []
      ensures freeKernel == old(freeKernel) || (ok && old(freeKernel) != [] && freeKernel == old(freeKernel)[1..])
    {
      hide WellFormed, Mapping;
      var page := pagedir.GetPage(upage);
      if page != None {
        return false;
      }
      var pt := if freeKernel == [] then None else Some(freeKernel[0]);
      assert pt.Some? ==> pt.value in freeKernel;
      ok := pagedir.SetPage(upage, kpage, writable, pt);
      if pt.Some? && pt.value in pagedir.tables {
        freeKernel := freeKernel[1..];
      }
    }

    /** One round of load_segment's loop. */
    method LoadPage(file: seq<byte>, pos: nat, pageReadBytes: nat, upage: Addr, writable: bool, hasMemory: bool)
      returns (ok: bool)
      requires Valid() && upage % 4096 == 0 && IsUserVaddr(upage) && pageReadBytes <= 4096
      modifies this, pagedir
      ensures Valid()
      ensures ok ==> InFile(file, pos, pageReadBytes) && old(View(upage / 4096)) == None
      ensures forall n | 0 <= n < 0xc_0000 ::
                View(n) == if ok && n == upage / 4096 then Some((PageContents(file, pos, pageReadBytes), writable))
                           else old(View(n))
      ensures !ok ==> old(freeUser) == [] || old(freeKernel) == [] || old(View(upage / 4096)).Some?
                      || !InFile(file, pos, pageReadBytes) || !hasMemory
      ensures if ok then old(freeUser) != [] && freeUser == old(freeUser)[1..] && |freeKernel| >= |old(freeKernel)| - 1
              else freeUser == old(freeUser) && freeKernel == old(freeKernel)
    {
      hide Valid, View, Spare, PageContents, InFile;
      var kpage := AllocPage();
      if kpage == None {
        return false;
      }
      ok := FillPage(kpage.value, file, pos, pageReadBytes, hasMemory);
      if !ok {
        FreePage(kpage.value);
        return false;
      }
      ok := InstallPage(upage, kpage.value, writable);
      if !ok {
        FreePage(kpage.value);
      }
    }

    /** load_segment; the first requires are its assertions.  hasMemory tells for each page whether
        malloc in inode_read_at would succeed.  `loaded` pages are mapped, and no other page is taken. */
    method LoadSegment(file: seq<byte>, ofs: nat, upage: Addr, readBytes: Word, zeroBytes: Word, writable: bool,
                       hasMemory: nat -> bool)
      returns (ok: bool, ghost loaded: nat)
      requires Valid()
      requires (readBytes + zeroBytes) % 4096 == 0 && upage % 4096 == 0 && ofs % 4096 == 0
      requires readBytes + zeroBytes < 0x1_0000_0000 && upage + readBytes + zeroBytes <= 0xc000_0000
      modifies this, pagedir
      ensures Valid()
      ensures loaded <= (readBytes + zeroBytes) / 4096 && (ok ==> loaded == (readBytes + zeroBytes) / 4096)
      ensures loaded <= |old(freeUser)| && freeUser == old(freeUser)[loaded..]
      ensures |freeKernel| >= |old(freeKernel)| - loaded
      ensures forall n | upage / 4096 <= n < upage / 4096 + loaded ::
                HasPage(file, ofs, readBytes, n - upage / 4096, View(n), writable) && old(View(n)) == None
      ensures forall n | 0 <= n < 0xc_0000 && !(upage / 4096 <= n < upage / 4096 + loaded) :: View(n) == old(View(n))
      ensures ok ==> InFile(file, ofs, readBytes)
      ensures ok ==> forall n | upage / 4096 <= n < upage / 4096 + (readBytes + zeroBytes) / 4096 ::
                       && View(n) == Some((PageImage(file, ofs, readBytes, n - upage / 4096), writable))
                       && old(View(n)) == None
      ensures !ok ==>
                var (first, cnt) := (upage / 4096, (readBytes + zeroBytes) / 4096);
                || LacksSomething(file, ofs, readBytes, first, cnt, |old(freeUser)|, |old(freeKernel)|, hasMemory)
                || exists n :: first <= n < first + cnt && old(View(n)).Some?
    {
      hide Valid, View, Cursor, PageContents, PageRead, InFile;
      var read, zero, page, pos := readBytes, zeroBytes, upage, ofs;
      ghost var cnt, n0 := (readBytes + zeroBytes) / 4096, upage / 4096;
      loaded := 0;
      CursorStart(readBytes, zeroBytes, upage, ofs);
      while read > 0 || zero > 0
        invariant Valid() && loaded <= cnt && Cursor(readBytes, zeroBytes, upage, ofs, loaded, read, zero, page, pos)
        invariant forall n | n0 <= n < n0 + loaded ::
                    HasPage(file, ofs, readBytes, n - n0, View(n), writable) && old(View(n)) == None
        invariant forall n | 0 <= n < 0xc_0000 && !(n0 <= n < n0 + loaded) :: View(n) == old(View(n))
        invariant loaded <= |old(freeUser)| && freeUser == old(freeUser)[loaded..]
        invariant |freeKernel| >= |old(freeKernel)| - loaded
        decreases cnt - loaded
      {
        var pageReadBytes := if read < 4096 then read else 4096;
        var pageZeroBytes := 4096 - pageReadBytes;
        CursorNext(readBytes, zeroBytes, upage, ofs, loaded, read, zero, page, pos);
        PageInFile(file, ofs, readBytes, loaded, pos, pageReadBytes);
        ok := LoadPage(file, pos, pageReadBytes, page, writable, hasMemory(page / 4096));
        if !ok {
          assert page / 4096 == n0 + loaded;
          return false, loaded;
        }
        SamePage(file, ofs, readBytes, loaded, pos, pageReadBytes, writable);
        read := read - pageReadBytes;
        zero := zero - pageZeroBytes;
        page := page + 4096;
        pos := pos + pageReadBytes;
        loaded := loaded + 1;
      }
      CursorEnd(readBytes, zeroBytes, upage, ofs, loaded, read, zero, page, pos);
      ghost var last := if readBytes > 0 then (readBytes - 1) / 4096 else 0;
      assert readBytes > 0 ==> HasPage(file, ofs, readBytes, last, View(n0 + last), writable);
      AllRead(file, ofs, readBytes, if readBytes > 0 then View(n0 + last) else None, writable);
      forall n | n0 <= n < n0 + cnt
        ensures View(n) == Some((PageImage(file, ofs, readBytes, n - n0), writable)) && old(View(n)) == None
      {
        assert HasPage(file, ofs, readBytes, n - n0, View(n), writable);
      }
      ok := true;
    }

    ghost function Seen(): (v: Views)
      requires Valid()
      reads this, pagedir
      ensures forall n | 0 <= n < 0xc_0000 :: v[n] == View(n)
    {
      seq(0xc_0000, n requires 0 <= n < 0xc_0000 reads this, pagedir requires Valid() => View(n))
    }

    lemma SeenPages(file: seq<byte>, l: Layout, writable: bool)
      requires Valid() && InFile(file, l.filePage, l.readBytes) && l.memPage + l.readBytes + l.zeroBytes <= 0xc000_0000
      requires forall n | l.memPage / 4096 <= n < l.memPage / 4096 + (l.readBytes + l.zeroBytes) / 4096 ::
                 View(n) == Some((PageImage(file, l.filePage, l.readBytes, n - l.memPage / 4096), writable))
      ensures PagesIn(Seen(), file, l, writable)
    {
      hide Valid, View, PageImage, InFile;
    }

    /** The PT_LOAD case of load's loop. */
    method LoadPhdr(file: seq<byte>, phdr: Phdr, hasMemory: nat -> bool) returns (ok: bool, ghost loaded: nat)
      requires Valid() && |file| < 0x8000_0000
      modifies this, pagedir
      ensures Valid()
      ensures ok ==> SoundSegment(phdr, |file|) && SegmentIn(Seen(), file, phdr)
      ensures Keeps(old(Seen()), Seen())
      ensures forall n | 0 <= n < 0xc_0000 && View(n) != old(View(n)) ::
                SoundSegment(phdr, |file|) && InPages(phdr, n)
      ensures loaded <= |old(freeUser)| && freeUser == old(freeUser)[loaded..]
      ensures |freeKernel| >= |old(freeKernel)| - loaded
      ensures ok ==> loaded == PageCount(phdr)
      ensures !ok ==>
                || !SoundSegment(phdr, |file|)
                || SegmentLacks(file, phdr, |old(freeUser)|, |old(freeKernel)|, hasMemory)
                || exists n: nat :: InPages(phdr, n) && n < 0xc_0000 && old(View(n)).Some?
    {
      hide Valid, View, SegmentLayout, ValidateSegment, SoundSegment, PageImage, InFile, Covers, InPages, PageCount;
      hide SegmentIn, WellFormed, Mapping, ByteIn, PagesIn, LacksSomething;
      loaded := 0;
      ValidSegment(phdr, |file|);
      if !ValidateSegment(phdr, |file|) {
        return false, 0;
      }
      var l := SegmentLayout(phdr);
      PagesOfValidSegment(phdr, |file|, l);
      ok, loaded := LoadSegment(file, l.filePage, l.memPage, l.readBytes, l.zeroBytes, phdr.writable, hasMemory);
      if ok {
        SeenPages(file, l, phdr.writable);
        PagesHoldSegment(Seen(), file, phdr, l);
      }
    }

    /** setup_stack: a zeroed page at the top of user memory. */
    method SetupStack() returns (ok: bool)
      requires Valid()
      modifies this, pagedir
      ensures Valid()
      ensures ok ==> Seen()[STACK_PAGE] == Some((Zeros(4096), true))
      ensures Keeps(old(Seen()), Seen())
      ensures forall n | 0 <= n < 0xc_0000 && n != STACK_PAGE :: View(n) == old(View(n))
      ensures !ok ==> old(freeUser) == [] || old(freeKernel) == [] || old(View(STACK_PAGE)).Some?
    {
      ok := LoadPage([], 0, 0, 0xbfff_f000, true, true);
      assert PageContents([], 0, 0) == Zeros(4096);
    }

    /** load, once the executable header is read: the program headers in their order (None when
        reading one fails), then the stack. */
    method Load(file: seq<byte>, phdrs: seq<Option<Phdr>>, hasMemory: nat -> bool) returns (ok: bool)
      requires Valid() && |file| < 0x8000_0000
      modifies this, pagedir
      ensures Valid()
      ensures ok ==> forall p | p in phdrs :: p.Some? && p.value.pType !in {2, 3, 5}
      ensures ok ==> forall p | p in phdrs && p.Some? && p.value.pType == 1 ::
                       SoundSegment(p.value, |file|) && SegmentIn(Seen(), file, p.value)
      ensures ok ==> Seen()[STACK_PAGE] == Some((Zeros(4096), true))
      ensures Keeps(old(Seen()), Seen())
      ensures forall n | 0 <= n < 0xc_0000 && n != STACK_PAGE && !Touched(phdrs, |phdrs|, n) :: View(n) == old(View(n))
      ensures Loadable(file, phdrs, old(Seen()), |old(freeUser)|, |old(freeKernel)|, hasMemory) ==> ok
    {
      hide Valid, View, SegmentIn, SoundSegment, Touched, Loadable, TotalPages, PageCount, InPages, SegmentLacks;
      ghost var v0, users, kernels := Seen(), |freeUser|, |freeKernel|;
      TotalStart(phdrs);
      for i := 0 to |phdrs|
        invariant Valid() && Keeps(v0, Seen())
        invariant forall k | 0 <= k < i :: phdrs[k].Some? && phdrs[k].value.pType !in {2, 3, 5}
        invariant forall k | 0 <= k < i && phdrs[k].value.pType == 1 ::
                    SoundSegment(phdrs[k].value, |file|) && SegmentIn(Seen(), file, phdrs[k].value)
        invariant forall n | 0 <= n < 0xc_0000 && !Touched(phdrs, i, n) :: Seen()[n] == v0[n]
        invariant |freeUser| >= users - TotalPages(phdrs, i) && |freeKernel| >= kernels - TotalPages(phdrs, i)
      {
        TotalStep(phdrs, i);
        TouchedMore(phdrs, i, i + 1);
        TouchedMore(phdrs, i, |phdrs|);
        TouchedMore(phdrs, i + 1, |phdrs|);
        BadHeader(file, phdrs, v0, users, kernels, hasMemory, i);
        if phdrs[i] == None {
          return false;
        }
        var phdr := phdrs[i].value;
        if phdr.pType in {2, 3, 5} { // PT_DYNAMIC, PT_INTERP, PT_SHLIB
          return false;
        }
        if phdr.pType == 1 { // PT_LOAD
          ghost var v, user, kernel := Seen(), |freeUser|, |freeKernel|;
          TouchedBy(phdrs, i);
          ghost var loaded;
          ok, loaded := LoadPhdr(file, phdr, hasMemory);
          forall n | 0 <= n < 0xc_0000 && Seen()[n] != v[n]
            ensures InPages(phdr, n)
          {
            assert View(n) == Seen()[n];
          }
          if !ok {
            if Loadable(file, phdrs, v0, users, kernels, hasMemory) {
              SegmentFits(file, phdrs, v0, users, kernels, hasMemory, i, v, user, kernel);
              assert false;
            }
            return false;
          }
          forall k | 0 <= k < i && phdrs[k].value.pType == 1
            ensures SegmentIn(Seen(), file, phdrs[k].value)
          {
            SegmentStays(v, Seen(), file, phdrs[k].value);
          }
        }
      }
      ghost var v, user, kernel := Seen(), freeUser, freeKernel;
      ok := SetupStack();
      if ok {
        forall k | 0 <= k < |phdrs| && phdrs[k].value.pType == 1
          ensures SegmentIn(Seen(), file, phdrs[k].value)
        {
          SegmentStays(v, Seen(), file, phdrs[k].value);
        }
      } else if Loadable(file, phdrs, v0, users, kernels, hasMemory) {
        StackFits(file, phdrs, v0, users, kernels, hasMemory, v);
        assert false;
      }
    }
  }
}
