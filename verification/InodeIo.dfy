// Byte I/O through sectors of 512 bytes: inode_read_at and inode_write_at of
// Pintos/filesys/inode.c.  RwLock.dfy proves that no other thread interferes.
module InodeIo {

  import opened Prelude

  datatype InodeDisk = InodeDisk(start: nat, length: nat)
  {
    /** Where the data begin on the device. */
    function Base(): nat { start * 512 }
  }

  /** bytes_to_sectors */
  function BytesToSectors(size: nat): (n: nat)
    ensures (n - 1) * 512 < size <= n * 512 || (size == 0 && n == 0)
  {
    (size + 512 - 1) / 512
  }

  /** The sectors of the inode's data exist. */
  predicate OnDevice(inode: InodeDisk, deviceSize: nat) {
    (inode.start + BytesToSectors(inode.length)) * 512 <= deviceSize
  }

  /** byte_to_sector */
  function ByteToSector(inode: InodeDisk, pos: nat): (s: int)
    ensures s >= 0 <==> pos < inode.length
    ensures s >= 0 ==> s * 512 + pos % 512 == inode.Base() + pos
  {
    if pos < inode.length then inode.start + pos / 512 else -1
  }

  /** The bytes from offset on that exist and are asked for. */
  function Total(length: nat, size: int, offset: nat): nat {
    if size <= 0 || offset >= length then 0 else Min(size, length - offset)
  }

  /** The bytes that are transferred.  Without memory for the bounce buffer only whole
      sectors are, and none when the offset is not at the start of one. */
  function Count(length: nat, size: int, offset: nat, hasMemory: bool): (n: nat)
    ensures n <= Total(length, size, offset)
  {
    var total := Total(length, size, offset);
    if hasMemory then total else if offset % 512 != 0 then 0 else total - total % 512
  }

  // ----- memcpy and the block device -----

  method Memcpy(dst: array<byte>, d: nat, src: array<byte>, s: nat, n: nat)
    requires dst != src && d + n <= dst.Length && s + n <= src.Length
    modifies dst
    ensures dst[..] == Overwrite(old(dst[..]), d, src[s..s + n])
  {
    forall i | 0 <= i < n {
      dst[d + i] := src[s + i];
    }
  }

  method BlockRead(device: array<byte>, sector: int, buffer: array<byte>, at: nat)
    requires buffer != device && 0 <= sector && (sector + 1) * 512 <= device.Length && at + 512 <= buffer.Length
    modifies buffer
    ensures buffer[..] == Overwrite(old(buffer[..]), at, device[sector * 512..(sector + 1) * 512])
  {
    Memcpy(buffer, at, device, sector * 512, 512);
  }

  method BlockWrite(device: array<byte>, sector: int, buffer: array<byte>, at: nat)
    requires buffer != device && 0 <= sector && (sector + 1) * 512 <= device.Length && at + 512 <= buffer.Length
    modifies device
    ensures device[..] == Overwrite(old(device[..]), sector * 512, buffer[at..at + 512])
  {
    Memcpy(device, sector * 512, buffer, at, 512);
  }

  // ----- Pieces of a transfer -----

  /** Writing the piece after the first n bytes extends what has been written. */
  lemma OverwriteMore(s: seq<byte>, at: nat, x: seq<byte>, y: seq<byte>)
    requires at + |x| + |y| <= |s|
    ensures Overwrite(Overwrite(s, at, x), at + |x|, y) == Overwrite(s, at, x + y)
  {
  }

  /** Writing part of a sector through a copy of the sector changes only that part. */
  lemma OverwriteThrough(s: seq<byte>, at: nat, ofs: nat, x: seq<byte>)
    requires at + 512 <= |s| && ofs + |x| <= 512
    ensures Overwrite(s, at, Overwrite(s[at..at + 512], ofs, x)) == Overwrite(s, at + ofs, x)
  {
    var sector := s[at..at + 512];
    assert Overwrite(sector, ofs, x) == s[at..at + ofs] + x + s[at + ofs + |x|..at + 512];
    assert s[..at] + s[at..at + ofs] == s[..at + ofs];
    assert s[at + ofs + |x|..at + 512] + s[at + 512..] == s[at + ofs + |x|..];
  }

  /** What one round of the loops moves. */
  function ChunkSize(length: nat, size: int, offset: nat): int {
    Min(size, Min(length - offset, 512 - offset % 512))
  }

  /** Where the loops are after n bytes. */
  ghost predicate Progress(inode: InodeDisk, deviceSize: nat, size: int, offset: nat, hasMemory: bool,
                           size': int, offset': nat, n: nat) {
    && offset' == offset + n && size' == size - n
    && n <= Total(inode.length, size, offset)
    && (n > 0 ==> inode.Base() + offset' <= deviceSize)
    && (!hasMemory ==> n % 512 == 0 && (n > 0 ==> offset % 512 == 0))
  }

  /** A loop is over: nothing is left, or the rest needs a bounce buffer that there is no memory for. */
  ghost predicate Stopped(inode: InodeDisk, size: int, offset: nat, hasMemory: bool) {
    var chunk := ChunkSize(inode.length, size, offset);
    size <= 0 || chunk <= 0 || (!hasMemory && (offset % 512 != 0 || chunk != 512))
  }

  lemma StoppedAtCount(inode: InodeDisk, deviceSize: nat, size: int, offset: nat, hasMemory: bool,
                       size': int, offset': nat, n: nat)
    requires Progress(inode, deviceSize, size, offset, hasMemory, size', offset', n)
    requires Stopped(inode, size', offset', hasMemory)
    ensures n == Count(inode.length, size, offset, hasMemory)
  {
  }

  /** A round that is not the last moves a chunk that lies within one sector of the device. */
  lemma NextChunk(inode: InodeDisk, deviceSize: nat, size: int, offset: nat, hasMemory: bool,
                  size': int, offset': nat, n: nat, chunk: int)
    requires Progress(inode, deviceSize, size, offset, hasMemory, size', offset', n)
    requires !Stopped(inode, size', offset', hasMemory) && OnDevice(inode, deviceSize)
    requires chunk == ChunkSize(inode.length, size', offset')
    ensures 0 < chunk && offset' % 512 + chunk <= 512 && n + chunk <= size
    ensures Progress(inode, deviceSize, size, offset, hasMemory, size' - chunk, offset' + chunk, n + chunk)
    ensures ByteToSector(inode, offset') >= 0
    ensures ByteToSector(inode, offset') * 512 + offset' % 512 == inode.Base() + offset + n
    ensures (ByteToSector(inode, offset') + 1) * 512 <= deviceSize
  {
    var sectors := BytesToSectors(inode.length);
    assert offset' / 512 < sectors;
  }

  /** After n bytes the buffer holds those of the device from `from` on, and otherwise what it held. */
  ghost predicate Filled(was: seq<byte>, now: seq<byte>, device: seq<byte>, from: nat, n: nat) {
    if n == 0 then now == was
    else from + n <= |device| && n <= |was| && now == Overwrite(was, 0, device[from..from + n])
  }

  /** After n bytes the device from `at` on holds those of the buffer, and otherwise what it held. */
  ghost predicate Written(was: seq<byte>, now: seq<byte>, at: nat, buffer: seq<byte>, n: nat) {
    if n == 0 then now == was
    else at + n <= |was| && n <= |buffer| && now == Overwrite(was, at, buffer[..n])
  }

  lemma FilledMore(was: seq<byte>, now: seq<byte>, device: seq<byte>, from: nat, n: nat, k: nat)
    requires Filled(was, now, device, from, n) && 0 < k && from + n + k <= |device| && n + k <= |was| == |now|
    ensures Filled(was, Overwrite(now, n, device[from + n..from + n + k]), device, from, n + k)
  {
    var x, y := device[from..from + n], device[from + n..from + n + k];
    assert device[from..from + n + k] == x + y;
    if n == 0 { assert x + y == y; } else { OverwriteMore(was, 0, x, y); }
  }

  lemma WrittenMore(was: seq<byte>, now: seq<byte>, at: nat, buffer: seq<byte>, n: nat, k: nat)
    requires Written(was, now, at, buffer, n) && 0 < k && at + n + k <= |was| == |now| && n + k <= |buffer|
    ensures Written(was, Overwrite(now, at + n, buffer[n..n + k]), at, buffer, n + k)
  {
    var x, y := buffer[..n], buffer[n..n + k];
    assert buffer[..n + k] == x + y;
    if n == 0 { assert x + y == y; } else { OverwriteMore(was, at, x, y); }
  }

  /** The first lines of the loop bodies: where the next chunk lies and how long it is. */
  method ChooseChunk(inode: InodeDisk, size: int, offset: nat) returns (sectorIdx: int, sectorOfs: nat, chunkSize: int)
    ensures sectorIdx == ByteToSector(inode, offset) && sectorOfs == offset % 512
    ensures chunkSize == ChunkSize(inode.length, size, offset)
  {
    sectorIdx := ByteToSector(inode, offset);
    sectorOfs := offset % 512;
    var inodeLeft := inode.length - offset;
    var sectorLeft := 512 - sectorOfs;
    var minLeft := if inodeLeft < sectorLeft then inodeLeft else sectorLeft;
    chunkSize := if size < minLeft then size else minLeft;
  }

  /** One chunk from the device, straight or through the bounce buffer. */
  method ReadChunk(device: array<byte>, sectorIdx: int, sectorOfs: nat, chunkSize: nat,
                   buffer: array<byte>, at: nat, bounce: array<byte>)
    requires device != buffer && bounce != device && bounce != buffer && bounce.Length == 512
    requires 0 <= sectorIdx && (sectorIdx + 1) * 512 <= device.Length
    requires sectorOfs + chunkSize <= 512 && at + chunkSize <= buffer.Length
    modifies buffer, bounce
    ensures buffer[..] == Overwrite(old(buffer[..]), at,
                                    device[sectorIdx * 512 + sectorOfs..sectorIdx * 512 + sectorOfs + chunkSize])
  {
    hide Overwrite;
    ghost var sector := device[..][sectorIdx * 512..sectorIdx * 512 + 512];
    OverwriteAll(bounce[..], sector);
    SliceOfSlice(device[..], sectorIdx * 512, 512, sectorOfs, chunkSize);
    BlockRead(device, sectorIdx, bounce, 0);
    assert bounce[..][sectorOfs..sectorOfs + chunkSize] == bounce[sectorOfs..sectorOfs + chunkSize];
    Memcpy(buffer, at, bounce, sectorOfs, chunkSize);
  }

  lemma SliceOfSlice(s: seq<byte>, at: nat, len: nat, ofs: nat, n: nat)
    requires at + len <= |s| && ofs + n <= len
    ensures s[at..at + len][ofs..ofs + n] == s[at + ofs..at + ofs + n]
  {
    var l, r := s[at..at + len][ofs..ofs + n], s[at + ofs..at + ofs + n];
    forall i | 0 <= i < n
      ensures l[i] == r[i]
    {
    }
  }

  lemma OverwriteAll(s: seq<byte>, x: seq<byte>)
    requires |x| == |s|
    ensures Overwrite(s, 0, x) == x
  {
  }

  /** inode_read_at; the parameter hasMemory is the result of malloc. */
  method ReadAt(device: array<byte>, inode: InodeDisk, buffer: array<byte>, size: int, offset: nat, hasMemory: bool)
    returns (bytesRead: nat)
    requires OnDevice(inode, device.Length) && buffer != device && size <= buffer.Length
    modifies buffer
    ensures bytesRead == Count(inode.length, size, offset, hasMemory)
    ensures Filled(old(buffer[..]), buffer[..], device[..], inode.Base() + offset, bytesRead)
  {
    hide Progress, Filled, ByteToSector, OnDevice, Count, ChunkSize, Overwrite;
    var size', offset': nat := size, offset;
    bytesRead := 0;
    var bounce: array?<byte> := null;
    ghost var from := inode.Base() + offset;
    ProgressStart(inode, device.Length, size, offset, hasMemory, old(buffer[..]), device[..], from);
    while size' > 0
      invariant Progress(inode, device.Length, size, offset, hasMemory, size', offset', bytesRead)
      invariant Filled(old(buffer[..]), buffer[..], device[..], from, bytesRead)
      invariant bounce != null ==> fresh(bounce) && bounce.Length == 512 && hasMemory
      decreases size'
    {
      var sectorIdx, sectorOfs, chunkSize := ChooseChunk(inode, size', offset');
      if chunkSize <= 0 {
        break;
      }
      if sectorOfs == 0 && chunkSize == 512 {
        NextChunk(inode, device.Length, size, offset, hasMemory, size', offset', bytesRead, chunkSize);
        FilledMore(old(buffer[..]), buffer[..], device[..], from, bytesRead, chunkSize);
        BlockRead(device, sectorIdx, buffer, bytesRead);
      } else {
        if bounce == null {
          if !hasMemory {
            break;
          }
          bounce := new byte[512];
        }
        NextChunk(inode, device.Length, size, offset, hasMemory, size', offset', bytesRead, chunkSize);
        FilledMore(old(buffer[..]), buffer[..], device[..], from, bytesRead, chunkSize);
        ReadChunk(device, sectorIdx, sectorOfs, chunkSize, buffer, bytesRead, bounce);
      }
      size' := size' - chunkSize;
      offset' := offset' + chunkSize;
      bytesRead := bytesRead + chunkSize;
    }
    StoppedAtCount(inode, device.Length, size, offset, hasMemory, size', offset', bytesRead);
  }

  lemma ProgressStart(inode: InodeDisk, deviceSize: nat, size: int, offset: nat, hasMemory: bool,
                      buffer: seq<byte>, device: seq<byte>, from: nat)
    ensures Progress(inode, deviceSize, size, offset, hasMemory, size, offset, 0)
    ensures Filled(buffer, buffer, device, from, 0)
    ensures Written(device, device, from, buffer, 0)
  {
  }

  /** memset of the whole array to zero */
  method Clear(a: array<byte>)
    modifies a
    ensures forall i | 0 <= i < a.Length :: a[i] == 0
  {
    forall i | 0 <= i < a.Length {
      a[i] := 0;
    }
  }

  /** One sector of the device with part of it replaced, through the bounce buffer.  The buffer is
      cleared, not read, only when no data is left before or after the chunk. */
  method WriteChunk(device: array<byte>, sectorIdx: int, sectorOfs: nat, chunkSize: nat,
                    buffer: array<byte>, at: nat, bounce: array<byte>)
    returns (ghost cleared: bool)
    requires device != buffer && bounce != device && bounce != buffer && bounce.Length == 512
    requires 0 <= sectorIdx && (sectorIdx + 1) * 512 <= device.Length
    requires sectorOfs + chunkSize <= 512 && at + chunkSize <= buffer.Length
    modifies device, bounce
    ensures device[..] == Overwrite(old(device[..]), sectorIdx * 512 + sectorOfs, buffer[at..at + chunkSize])
    ensures cleared <==> sectorOfs == 0 && chunkSize == 512
  {
    hide Overwrite;
    ghost var was, x := device[..], buffer[at..at + chunkSize];
    ghost var sector := was[sectorIdx * 512..sectorIdx * 512 + 512];
    cleared := !(sectorOfs > 0 || chunkSize < 512 - sectorOfs);
    if sectorOfs > 0 || chunkSize < 512 - sectorOfs {
      OverwriteAll(bounce[..], sector);
      BlockRead(device, sectorIdx, bounce, 0);
      assert bounce[..] == sector;
    } else {
      Clear(bounce);
      OverwriteAll(bounce[..], x);
      OverwriteAll(sector, x);
    }
    assert Overwrite(bounce[..], sectorOfs, x) == Overwrite(sector, sectorOfs, x);
    Memcpy(bounce, sectorOfs, buffer, at, chunkSize);
    assert bounce[0..512] == bounce[..] == Overwrite(sector, sectorOfs, x);
    BlockWrite(device, sectorIdx, bounce, 0);
    OverwriteThrough(was, sectorIdx * 512, sectorOfs, x);
  }

  /** inode_write_at; its branch that clears the bounce buffer is never taken. */
  method WriteAt(device: array<byte>, inode: InodeDisk, buffer: array<byte>, size: int, offset: nat, hasMemory: bool)
    returns (bytesWritten: nat, ghost cleared: bool)
    requires OnDevice(inode, device.Length) && buffer != device && size <= buffer.Length
    modifies device
    ensures bytesWritten == Count(inode.length, size, offset, hasMemory)
    ensures Written(old(device[..]), device[..], inode.Base() + offset, buffer[..], bytesWritten)
    ensures !cleared
  {
    hide Progress, Written, ByteToSector, OnDevice, Count, ChunkSize, Overwrite;
    var size', offset': nat := size, offset;
    bytesWritten, cleared := 0, false;
    var bounce: array?<byte> := null;
    ghost var at := inode.Base() + offset;
    ProgressStart(inode, device.Length, size, offset, hasMemory, buffer[..], old(device[..]), at);
    while size' > 0
      invariant Progress(inode, device.Length, size, offset, hasMemory, size', offset', bytesWritten)
      invariant Written(old(device[..]), device[..], at, buffer[..], bytesWritten)
      invariant bounce != null ==> fresh(bounce) && bounce.Length == 512 && hasMemory
      invariant !cleared
      decreases size'
    {
      var sectorIdx, sectorOfs, chunkSize := ChooseChunk(inode, size', offset');
      if chunkSize <= 0 {
        break;
      }
      if sectorOfs == 0 && chunkSize == 512 {
        NextChunk(inode, device.Length, size, offset, hasMemory, size', offset', bytesWritten, chunkSize);
        WrittenMore(old(device[..]), device[..], at, buffer[..], bytesWritten, chunkSize);
        BlockWrite(device, sectorIdx, buffer, bytesWritten);
      } else {
        if bounce == null {
          if !hasMemory {
            break;
          }
          bounce := new byte[512];
        }
        NextChunk(inode, device.Length, size, offset, hasMemory, size', offset', bytesWritten, chunkSize);
        WrittenMore(old(device[..]), device[..], at, buffer[..], bytesWritten, chunkSize);
        cleared := WriteChunk(device, sectorIdx, sectorOfs, chunkSize, buffer, bytesWritten, bounce);
      }
      size' := size' - chunkSize;
      offset' := offset' + chunkSize;
      bytesWritten := bytesWritten + chunkSize;
    }
    StoppedAtCount(inode, device.Length, size, offset, hasMemory, size', offset', bytesWritten);
  }

  // ----- What the two promise together -----

  /** A read that follows a write of the same range returns what was written, and the bytes
      of any other inode, and everything else on the device, are as they were. */
  lemma ReadBack(was: seq<byte>, device: seq<byte>, at: nat, buffer: seq<byte>, n: nat, into: seq<byte>, got: seq<byte>)
    requires Written(was, device, at, buffer, n) && Filled(into, got, device, at, n)
    requires at + n <= |was| && n <= |buffer| && n <= |into|
    ensures got == buffer[..n] + into[n..]
    ensures |device| == |was| && device[at..at + n] == buffer[..n]
    ensures forall i | 0 <= i < |was| && !(at <= i < at + n) :: device[i] == was[i]
  {
  }

  /** With memory for the bounce buffer a write and a read move all that there is to move;
      without, a transfer is complete exactly when it is made of whole sectors. */
  lemma Complete(length: nat, size: int, offset: nat, hasMemory: bool)
    ensures Count(length, size, offset, true) == Total(length, size, offset)
    ensures Count(length, size, offset, false) == Total(length, size, offset)
       <==> Total(length, size, offset) == 0 || (offset % 512 == 0 && Total(length, size, offset) % 512 == 0)
  {
  }

  /** Inodes with disjoint sectors do not see each other's writes. */
  lemma OtherInodeUnchanged(was: seq<byte>, device: seq<byte>, inode: InodeDisk, other: InodeDisk,
                            buffer: seq<byte>, size: int, offset: nat, hasMemory: bool, i: nat)
    requires OnDevice(inode, |was|) && OnDevice(other, |was|) && i < other.length
    requires inode.start + BytesToSectors(inode.length) <= other.start
          || other.start + BytesToSectors(other.length) <= inode.start
    requires Written(was, device, inode.Base() + offset, buffer, Count(inode.length, size, offset, hasMemory))
    ensures |device| == |was| && other.Base() + i < |was| && device[other.Base() + i] == was[other.Base() + i]
  {
  }
}
