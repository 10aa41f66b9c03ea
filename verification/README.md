# Verified models of Pintos, the SPSC transport, the robot, the assembler and the tank AI

Each module models one piece of the repository in the form its code has: methods on arrays,
linked nodes and class fields where the code works step by step, and a state machine with one
step for each atomic access where threads or processes share memory. A method is proved equal
to a specification function, or has its promise as its contract, and lemmas prove what the
specification guarantees. `dafny verify dfyconfig.toml` checks everything.

| files | what they model |
|---|---|
| KernelListSpec, KernelList | the intrusive doubly linked list and its in-place natural merge sort |
| SpscRing, RingQueue, RingLayout | the lock-free shared-memory ring, load by load and byte by byte; the same ring without concurrency, with overwriting pushes; the layout of its mapping |
| Arithmetic | 64-bit division built from a trapping 64/32 division |
| HashTable | the chained hash table and its rehashing |
| Bitmap, Palloc, MallocSpec, Malloc | word bitmaps, page pools, and the arena allocator on top of them |
| Semaphore, RwLock | the readers/writer protocol of an inode, for any number of threads |
| InodeIo | byte I/O of an inode through sectors and a bounce buffer |
| SchedulerSpec, Scheduler, SchedulerRuns | threads, ready list, semaphores and the timer's sleep list, and what their callers can rely on in every run |
| PageDir, ElfLoader | two-level page tables and the loading of ELF segments |
| OctalFormat, Ustar | making and parsing archive headers |
| SortSearch | heapsort and binary search over elements of any size |
| Wakeup | the eventfd hand-shake around the event ring |
| Routes, RouteCount, PathSearch, RoutePlan, Factory | the robot's routes and how many of them cost little, its path search, its translation into turns, the planning of a round, and rounds on the module's own map |
| AssemblerSpec, Assembler | the three passes of the assembler |
| TankPath | the tank AI's breadth-first search |
| Bits, Prelude | powers of two, bitwise operations, remainders; stock notions |

Memory and other resources that an operation asks for are parameters of the model (`hasMemory`,
`pt`, the lists of free pages), so that both outcomes are covered.

Where the code and what it says about itself differ, the model follows the code:

- `malloc` adds the arena header to the size in 32 bits. For the 11 largest sizes the sum wraps and
  one page is allocated (`Malloc.BigPagesSuffice`); `Malloc.Granted` is what a block really has.
- `ShmSpscRing::create` narrows its results to 32 bits, which is harmless exactly within the
  bounds of `RingLayout.NarrowingIsSafe`.
- `ustar_make_header` takes a signed size and prints it unsigned; a negative one makes a header that
  does not parse (`Ustar.RoundTrip`).
- An event that cannot be decoded is popped, but `tryRecvEvent` returns false as if the ring were
  empty, and the worker goes back to `poll` with events left (`Wakeup.SafeExactlyWhenHarmless`).
- `compile_file` says that it has accurate label addresses after its second pass, but it stops after
  five iterations whether they are stable or not (`Assembler.FiveAreTooFew`);
  they are whenever at most four memory instructions address labels, and five can be too many
  (`Assembler.SettlesExactly`).
- The third pass drops the offset of an indexed operand of a memory instruction, which is only right
  for an offset of 0 modulo 256 (`AssemblerSpec.OffsetIsLost`).
- `bitmap_scan_and_flip` says that it returns 0 for a count of zero; it returns the start index
  (`Bitmap.Bitmap.ScanAndFlip`).
- The comment in `inode_write_at` provides for starting from a sector of zeros; that branch is dead
  (`InodeIo.WriteAt`).
- `findPath` says that it finds the best path. It takes a least leg at a time, which need not make
  a best round, or any: for an item at (1, 9), from the start position facing up, it fails although
  there is a round (`Factory.LeastLegsBestExactly`).
- `AStar` has its distance estimate commented out: it is a uniform-cost search. It also stops after
  10000 iterations, and then leaves the shared queue nonempty; it does not come to that for goals
  within cost 230 (`RouteCount.NotCrowded`).
- `umod64` and `smod64` return 32 bits (`Arithmetic.Umod64Exact`, `Arithmetic.Smod64Exact`).
- `timer_sleep` reads the tick count before it turns interrupts off, so a sleeper can be due already
  when it joins the list (`SchedulerSpec.MayBeDueAsItJoins`); the next interrupt wakes it.

## Model

| member | source | states |
|---|---|---|
| KernelList.List.constructor | Pintos/lib/kernel/list.c:58-65 | A new list has a well-linked head and tail and no elements. |
| KernelList.List.Insert | Pintos/lib/kernel/list.c:157-166 | Relinking four pointers puts the element at exactly one place of the sequence; the list stays well linked over the old nodes and the new one. |
| KernelList.List.Splice | Pintos/lib/kernel/list.c:171-191 | A stretch of nodes moves to another place of the same list, towards the head or the tail; every prev and next link again matches the new sequence. |
| KernelList.List.SpliceFrom | Pintos/lib/kernel/list.c:171-191 | A stretch of nodes moves to any place of another list: both are well linked over exactly their new sequences, and no node is lost. |
| KernelList.List.Remove | Pintos/lib/kernel/list.c:233-239 | One element leaves the sequence and the returned element is its successor; all other links still match. |
| KernelList.List.Reverse | Pintos/lib/kernel/list.c:301-311 | Swapping the links of every node in place yields the reversed sequence. |
| KernelList.List.FindEndOfRun | Pintos/lib/kernel/list.c:330-342 | The returned node is the end of the first maximal nondecreasing run of the range. |
| KernelList.List.InplaceMerge | Pintos/lib/kernel/list.c:349-370 | Merging two adjacent sorted stretches by splices gives the stable merge of their elements, and touches nothing outside them. |
| KernelList.List.MergePass | Pintos/lib/kernel/list.c:382-404 | One pass over the links computes the pairwise merge of the runs, and the number it returns is the number of runs that it wrote. |
| KernelList.List.Sort | Pintos/lib/kernel/list.c:375-407 | For every strict weak order the sort terminates, keeps the same nodes, leaves the list well linked and sorted, and keeps equal elements in their order. |
| KernelListSpec.PassHalvesRuns | Pintos/lib/kernel/list.c:382-404 | A pass writes half as many runs, rounded up, as it reads: the termination measure of the sort. |
| KernelListSpec.RunsAfterPass | Pintos/lib/kernel/list.c:382-404 | What a pass writes has no more maximal runs than the number of merges it counted. |
| KernelListSpec.PassDone | Pintos/lib/kernel/list.c:400-404 | When a pass counts at most one run its result is sorted. |
| KernelListSpec.MergeClass | Pintos/lib/kernel/list.c:349-370 | Merging keeps the members of every group of equal elements in their order (stability). |
| KernelListSpec.MergeSorted | Pintos/lib/kernel/list.c:349-370 | Merging two sorted sequences gives a sorted one. |
| KernelListSpec.StablePermutation | Pintos/lib/kernel/list.c:375-407 | A stable rearrangement has the same elements with the same multiplicities. |
| KernelListSpec.SortedPairwise | Pintos/lib/kernel/list.c:313-322 | Adjacent order, which is what is_sorted tests, is order between any two elements. |
| KernelList.List.InsertOrdered | Pintos/lib/kernel/list.c:412-425 | Inserting into a sorted list keeps it sorted, and the new element comes after those equal to it. |
| SpscRing.NextInv | SPSC/src/engine/ShmSpscRing.cpp:211-275 | Every single load, store and byte copy of either thread keeps the ring invariant, in any interleaving. |
| SpscRing.Fifo | SPSC/src/engine/ShmSpscRing.cpp:211-275 | In every run the pushed frames are the popped frames followed by the frames in the slots from tail to head, byte for byte, across 64-bit wrap-around of both counters. |
| SpscRing.NoWriteWhileReadable | SPSC/src/engine/ShmSpscRing.cpp:228-232 | While the producer writes a slot, that slot is none of those the consumer may read. |
| SpscRing.IndexSurvivesWrap | SPSC/src/engine/ShmSpscRing.cpp:325-327 | Masking a counter that has wrapped at 2^64 gives the slot of the unbounded counter, because the slot count is a power of two. |
| SpscRing.FullIsExact | SPSC/src/engine/ShmSpscRing.cpp:216-221 | tryPush is refused exactly when the ring was full as tail was loaded. |
| SpscRing.EmptyIsExact | SPSC/src/engine/ShmSpscRing.cpp:246-250 | tryPop finds nothing exactly when every pushed frame had been popped as head was loaded. |
| SpscRing.PushSucceeds | SPSC/src/engine/ShmSpscRing.cpp:211-234 | A frame of at most the maximal length, into a ring with room, is pushed by the producer's own steps. |
| RingQueue.Ring.MakeRoom | SPSC/src/engine/ShmSpscRing.cpp:217-224 | A full ring refuses or drops its oldest frame, by overwriteOldest; one that is not full is left alone, and then there is room for a frame. |
| RingQueue.Ring.TryPush | SPSC/src/engine/ShmSpscRing.cpp:211-234 | Called by one thread at a time: refused exactly for frames that are too long and, without overwriteOldest, for a full ring; otherwise the frame joins the end, and of a full ring the oldest frame is dropped and no other. |
| RingQueue.Ring.TryPop | SPSC/src/engine/ShmSpscRing.cpp:241-257 | The oldest frame leaves the ring, byte for byte; nothing only when there is none. |
| RingQueue.Ring.PopDiscardOldest | SPSC/src/engine/ShmSpscRing.cpp:342-354 | Drops exactly the oldest frame, and fails exactly on an empty ring. |
| RingQueue.Ring.Size | SPSC/src/engine/ShmSpscRing.cpp:277-283 | The number of frames in the ring, whatever wrap-around the counters have had. |
| RingLayout.NarrowingIsSafe | SPSC/src/engine/ShmSpscRing.cpp:127-137 | For any cache line size, create gives a layout whose 32-bit fields are right exactly for 2 to 2^31 requested slots and 1 to 2^32 - 8 payload bytes less one cache line; it refuses exactly fewer than 2 slots and empty payloads. |
| RingLayout.AlignUpIsNext | SPSC/src/engine/ShmSpscRing.cpp:38-40 | Masking rounds up to the next multiple of a cache line. |
| RingLayout.SlotsTile | SPSC/src/engine/ShmSpscRing.cpp:134-137 | In a sound layout the slots do not overlap and lie inside the mapping, after the header. |
| RingLayout.HeaderLayout | SPSC/src/engine/ShmSpscRing.cpp:63-72 | Fields, head and tail do not overlap, head and tail begin a cache line each and share it with nothing, and all lie before the first slot. |
| RingLayout.BitCeilLeast | SPSC/src/engine/ShmSpscRing.cpp:134 | The slot count is the least power of two not below the request. |
| Arithmetic.Nlz | Pintos/lib/arithmetic.c:38-63 | The branching shifts count the leading zeros of every nonzero 32-bit word. |
| Arithmetic.EstimateBounds | Pintos/lib/arithmetic.c:107-112 | The normalised estimate for a divisor above 32 bits is never low and at most one too high. |
| Arithmetic.Correction | Pintos/lib/arithmetic.c:112 | The final subtraction and comparison picks the true quotient from the two candidates. |
| Arithmetic.Udiv64Exact | Pintos/lib/arithmetic.c:69-114 | For every 64-bit dividend and nonzero 64-bit divisor the result is floor(n / d); the function's body only typechecks because no divl in it can trap. |
| Arithmetic.Umod64Exact | Pintos/lib/arithmetic.c:119-122 | The 32-bit result is the remainder for all dividends exactly when the divisor is at most 2^32. |
| Arithmetic.Sdiv64Exact | Pintos/lib/arithmetic.c:126-132 | Signed division rounds towards zero for all operands except exactly INT64_MIN / -1. |
| Arithmetic.Smod64Exact | Pintos/lib/arithmetic.c:136-139 | The 32-bit signed remainder is right for all dividends exactly when the divisor's magnitude is at most 2^31. |
| HashTable.IsPowerOf2Correct | Pintos/lib/kernel/hash.c:300-309 | The bit trick tests for powers of two, for every number. |
| HashTable.BestBucketCnt | Pintos/lib/kernel/hash.c:331-340 | Turning off low bits ends at the greatest power of two not above max(4, elements / 2). |
| HashTable.BucketIndexIsRemainder | Pintos/lib/kernel/hash.c:278-282 | Masking with bucket_cnt - 1 is the hash modulo the bucket count. |
| HashTable.HashInit | Pintos/lib/kernel/hash.c:24-40 | Succeeds exactly when malloc does, and then gives a valid, balanced and empty table. |
| HashTable.Table.Clear | Pintos/lib/kernel/hash.c:50-69 | Each element is passed to the destructor exactly once and none is left. |
| HashTable.Table.FindElem | Pintos/lib/kernel/hash.c:278-297 | Looking only into the bucket that the hash selects finds the equal element of the whole table, if there is one. |
| HashTable.Table.InsertElem | Pintos/lib/kernel/hash.c:378-382 | An element with no equal in the table joins the set, in the bucket that its hash selects. |
| HashTable.Table.RemoveElem | Pintos/lib/kernel/hash.c:385-389 | Exactly the element at the given place leaves the set. |
| HashTable.Table.Rehash | Pintos/lib/kernel/hash.c:320-375 | Moving every element to new buckets keeps the set and puts each in the bucket its hash selects; with memory the table is then balanced (elem_cnt < 4 * bucket_cnt). |
| HashTable.MoveElem | Pintos/lib/kernel/hash.c:361-372 | Moving one element leaves every element in exactly one of the two tables. |
| HashTable.Table.Insert | Pintos/lib/kernel/hash.c:91-102 | On the set keyed by equality of less: adds the element if no equal one is there, and returns the equal one otherwise. |
| HashTable.Table.Replace | Pintos/lib/kernel/hash.c:106-118 | The new element takes the place of the equal one, which is returned. |
| HashTable.Table.Find | Pintos/lib/kernel/hash.c:122-125 | Returns the element equal to the key exactly when the set has one. |
| HashTable.Table.Delete | Pintos/lib/kernel/hash.c:134-142 | Removes and returns the element equal to the key, if there is one, and no other. |
| InodeIo.ReadAt | Pintos/filesys/inode.c:206-246 | Reads exactly the count that is due, for every alignment, and changes no other byte of the buffer. |
| InodeIo.WriteAt | Pintos/filesys/inode.c:264-311 | Changes exactly the bytes it reports, at their offset on the device, for every alignment, through whole sectors and read-modify-write of partial ones, and never clears the bounce buffer. |
| InodeIo.NextChunk | Pintos/filesys/inode.c:212-224 | A round moves a chunk that lies in one sector of the inode's data on the device. |
| InodeIo.WriteChunk | Pintos/filesys/inode.c:295-304 | Writing part of a sector through the bounce buffer changes just that part of the device; the buffer is cleared instead of read only for a whole sector. |
| InodeIo.Complete | Pintos/filesys/inode.c:206-246 | With memory the count is max(0, min(size, length - offset)); without it a transfer is complete exactly when it consists of whole sectors. |
| InodeIo.ReadBack | Pintos/filesys/inode.c:198-314 | A read after a write of the same range returns what was written and every other byte of the device is unchanged. |
| InodeIo.OtherInodeUnchanged | Pintos/filesys/inode.c:27-54 | A write to one inode changes no byte of an inode with other sectors. |
| RwLock.StepInv | Pintos/filesys/inode.c:200-205 | Each step of any thread through entry and exit of readers and writers keeps the lock, semaphore and waiter invariants. |
| RwLock.MutualExclusion | Pintos/filesys/inode.c:200-267 | In every run of any number of threads, no other reader or writer is inside while a writer is. |
| RwLock.LockAssertions | Pintos/threads/synch.c:182-223 | The assertions of lock_acquire and lock_release hold in every run, and readers never drops below zero. |
| RwLock.LockedWaitMeansNoReader | Pintos/filesys/inode.c:200-205 | A reader that waits for write_sema while it holds the lock keeps no active reader out. |
| RwLock.ReadersShare | Pintos/filesys/inode.c:200-205 | While others read, a reader that finds the lock free gets in beside them by its own six steps. |
| RwLock.DeadlockFree | Pintos/filesys/inode.c:200-267 | Whenever a thread is between entry and exit, some thread can take a step that does not put it to sleep. |
| Ustar.StripAntisocialPrefixes | Pintos/lib/ustar.c:61-67 | The loop terminates and strips every leading /, ./ and ../. |
| Ustar.StripIdempotent | Pintos/lib/ustar.c:61-67 | Stripping twice is stripping once. |
| Ustar.StripIsSuffix | Pintos/lib/ustar.c:55-67 | What is left is "." or a suffix of the name. |
| Ustar.StripLaws | Pintos/lib/ustar.c:61-67 | A /, ./ or ../ in front of a name is dropped, the empty name and .. become ., and every other name stays as it is. |
| OctalFormat.Output.Put | Pintos/lib/stdio.c:43-49 | The buffer holds the text so far, cut at its maximum length. |
| OctalFormat.FormatOctal | Pintos/lib/stdio.c:439-515 | For %0Wo the digits, produced in reverse, come out as the zero-padded octal numeral. |
| OctalFormat.Snprintf | Pintos/lib/stdio.c:24-70 | Writes as much of the numeral as fits, null-terminated unless the size is 0, changes nothing else, and returns the length of all of it. |
| OctalFormat.Strlcpy | Pintos/lib/string.c:304-320 | Copies as much as fits, null-terminated unless the size is 0, changes nothing else, and returns the length of the source. |
| Ustar.CalculateChksum | Pintos/lib/ustar.c:34-49 | The sum of the header's bytes with the checksum field counted as spaces. |
| Ustar.ChksumDiffers | Pintos/lib/ustar.c:34-49 | The checksum does not depend on its own field, and changing any other byte changes it by the difference. |
| Ustar.ChksumIsSum | Pintos/lib/ustar.c:34-49 | The checksum is the plain sum of the bytes once eight spaces stand in its field. |
| Ustar.ParseDigits | Pintos/lib/ustar.c:123-150 | Reading a printed octal number gives the number back, without overflow. |
| Ustar.ParseOctalField | Pintos/lib/ustar.c:123-150 | The loop computes the octal value of a field, or fails for an empty, unterminated, overflowing or non-octal one. |
| Ustar.OctalExactly | Pintos/lib/ustar.c:123-150 | A field is accepted exactly if it is a string of octal digits, then a space or null byte, whose value fits 32 bits, and then with that value. |
| Ustar.MakeHeader | Pintos/lib/ustar.c:76-117 | Succeeds exactly for stripped names of at most 99 bytes; then all 512 bytes are the fields of a valid header. |
| Ustar.ParseHeader | Pintos/lib/ustar.c:168-214 | Tells end of archive, an entry and each kind of error apart, for every 512 bytes. |
| Ustar.AcceptsExactly | Pintos/lib/ustar.c:168-214 | A block is accepted exactly if its magic, version, checksum and name field are right and it is a directory, or a regular file with a readable size below 2^31. |
| Ustar.RemadeIsRead | Pintos/lib/ustar.c:76-214 | An entry that was read can be written again: its name is stripped and short enough, and the header made from it is read as the same entry. |
| Ustar.RoundTrip | Pintos/lib/ustar.c:76-214 | Parsing a made header gives back the stripped name, the type and the size (0 for a directory), except exactly for regular files of negative size, which are refused as too large. |
| Ustar.MadeNumbers | Pintos/lib/ustar.c:97-101 | The permissions, owner, group and time of a made header read as 0644 or 0755, 0, 0 and 1136102400. |
| Ustar.CorruptionIsDetected | Pintos/lib/ustar.c:168-214 | Changing any one byte outside the checksum field of an accepted header makes it rejected. |
| Wakeup.EngineKeepsInv | SPSC/src/engine/ShmStrategyTransport.cpp:101-124 | Each step of sendEvent, with its separate push and notification, keeps the hand-shake invariant. |
| Wakeup.WorkerStaysAwake | SPSC/src/strategy/worker-main.cpp:290-316 | Each step of poll, drain and receive keeps it. |
| Wakeup.SafeExactlyWhenHarmless | SPSC/src/engine/ShmStrategyTransport.cpp:116-143 | When each notification succeeds or the counter is saturated, a sequence of events never leaves the worker asleep on a nonempty ring exactly if all but the last of them decode, or the ring holds only one. |
| Wakeup.BadSleeps | SPSC/src/engine/ShmStrategyTransport.cpp:132-142 | A run in which an undecodable event ends the inner loop and its successor is never noticed. |
| Wakeup.FaultSleeps | SPSC/src/engine/ShmStrategyTransport.cpp:228-242 | A notification that is given up leaves the worker asleep on a good event. |
| Wakeup.FaultySafeExactly | SPSC/src/engine/ShmStrategyTransport.cpp:228-242 | If notifications can be given up, a sequence of events is safe exactly when it is empty or the ring takes none. |
| Wakeup.AcksFollowPops | SPSC/src/strategy/worker-main.cpp:306-315 | In every run, with any failures, the k-th acknowledgement carries k and follows the k-th decoded event, and both rings deliver in order. |
| Wakeup.HeartbeatsAreNumbered | SPSC/src/strategy/worker-main.cpp:287-325 | In every run, with any failures, the k-th heartbeat carries k. |
| Scheduler.Kernel.Schedule | Pintos/threads/thread.c:486-558 | Switching threads takes the step of the specification: the first ready thread, or the idle one, runs, and a dying thread is freed. |
| Scheduler.Kernel.ThreadBlock | Pintos/threads/thread.c:214-221 | From a state in which the running thread has joined its queue: the front of the ready list, or the idle thread, runs, the caller is blocked, and the scheduler invariant holds again. |
| Scheduler.Kernel.IdleBlock | Pintos/threads/thread.c:376-381 | A round of the idle thread takes the specified step and keeps the invariant. |
| Scheduler.Kernel.ThreadUnblock | Pintos/threads/thread.c:231-242 | A blocked thread that is in no queue becomes ready behind the others; nobody is preempted, and the ready list is again exactly the ready threads. |
| Scheduler.Kernel.ThreadYield | Pintos/threads/thread.c:296-309 | The new running thread followed by the new ready list is the old ready list followed by the caller, unless that is the idle thread; the invariant is kept. |
| Scheduler.Kernel.ThreadExit | Pintos/threads/thread.c:276-292 | Another thread runs, the caller is gone unless it is the initial thread, and the invariant is kept. |
| Scheduler.Kernel.InitThread | Pintos/threads/thread.c:431-467 | A new thread is blocked and in no queue; the invariant is kept. |
| Scheduler.Kernel.StartThread | Pintos/threads/thread.c:202-204 | The new thread becomes ready; it was blocked, as thread_unblock asserts, and the invariant is kept. |
| Scheduler.Kernel.StartSleep | Pintos/devices/timer.c:101-112 | Only a positive number of ticks sleeps, and otherwise nothing changes; takes the specified step, whose tick SchedulerRuns.SleepLasts is about; the invariant is kept. |
| Scheduler.Kernel.Down | Pintos/threads/synch.c:61-75 | The caller goes on exactly when the value was positive; otherwise it is blocked as the last waiter and another thread runs; the invariant is kept. |
| Scheduler.Kernel.Up | Pintos/threads/synch.c:105-116 | sema_up wakes the first waiter, whose being blocked (the assertion of thread_unblock) follows from the invariant, which is kept. |
| Scheduler.Kernel.Sleep | Pintos/devices/timer.c:109-118 | The insertion loop puts the sleeper at its place in the order, another thread runs, and the invariant is kept. |
| Scheduler.Kernel.Tick | Pintos/devices/timer.c:184-200 | The interrupt's loop, which removes while it iterates, takes the specified step and every thread_unblock in it is legal. |
| SchedulerSpec.ApplyInv | Pintos/threads/thread.c:214-558 | Every operation keeps exactly one running thread, a ready list with each ready thread but the idle one exactly once, and every waiter and sleeper blocked and in one queue. |
| SchedulerSpec.RunInv | Pintos/threads/thread.c:214-558 | These hold in every run from the booted state. |
| SchedulerSpec.RunsInTurn | Pintos/threads/thread.c:486-558 | A thread at position k of the ready list is the one that the (k+1)-th schedule chooses, and moves up by one with each schedule before. |
| SchedulerSpec.WaitersAreBlocked | Pintos/threads/synch.c:61-116 | No semaphore waiter or sleeper runs or is ready. |
| SchedulerSpec.NoneDueAfterInterrupt | Pintos/devices/timer.c:184-200 | After a timer interrupt no sleeper with wake_up_tick <= ticks is left. |
| SchedulerSpec.NoEarlyWakeUp | Pintos/devices/timer.c:101-118 | Only the interrupt ends a sleep, not before its tick, and the thread becomes ready. |
| SchedulerSpec.MayBeDueAsItJoins | Pintos/devices/timer.c:101-118 | A run in which a sleeper is due already as it joins the list. |
| SchedulerRuns.SleepLasts | Pintos/devices/timer.c:101-118 | In every run a thread that calls timer_sleep(n) is blocked until the timer has interrupted n times since it read the ticks, and the first interrupt in its sleep that makes it so many makes it ready. |
| SchedulerRuns.BlockedBefore | Pintos/devices/timer.c:101-118 | In every state of the sleep that fewer than n interrupts lead to it does not run and is not ready. |
| SchedulerRuns.TicksCount | Pintos/devices/timer.c:184-187 | In every run ticks is its first value and the number of timer interrupts since. |
| SchedulerRuns.SemaCounts | Pintos/threads/synch.c:61-116 | In every run the value of a semaphore is its first value, one more for each sema_up and one less for each sema_down after which the thread ran on. |
| SchedulerRuns.WokenInTurn | Pintos/threads/synch.c:61-116 | The waiter at position p is made ready by exactly the (p+1)-th sema_up, and moves up by one with each before. |
| SchedulerRuns.NoThreadIsLost | Pintos/threads/thread.c:214-558 | In every run no thread is lost: a ready one is in the ready list and a blocked one in the queue of the semaphore, the sleep list or the hands of its creator, except the idle thread. |
| SchedulerSpec.InsertOrdered | Pintos/devices/timer.c:92-116 | Insertion keeps the sleep list in the order of wake_up_tick. |
| PageDir.EntryRoundTrip | Pintos/threads/pte.h:61-104 | An entry gives back the page and the flags it was made from; table entries, and those of pages that users get, have the user bit. |
| PageDir.NewEntry | Pintos/userprog/pagedir.c:55-113 | Writing one page table entry changes the mapping of exactly one page. |
| PageDir.PageDirectory.LookupPage | Pintos/userprog/pagedir.c:55-79 | Creating a missing page table changes no mapping. |
| PageDir.PageDirectory.SetPage | Pintos/userprog/pagedir.c:94-113 | Maps exactly one page, with its writability; fails exactly when a page table is needed and there is no memory. |
| PageDir.PageDirectory.GetPage | Pintos/userprog/pagedir.c:119-130 | The address translation of the two-level table. |
| PageDir.PageDirectory.ClearPage | Pintos/userprog/pagedir.c:136-148 | Unmaps exactly one page; the other bits of its entry, and the other entries, are preserved. |
| ElfLoader.ValidSegment | Pintos/userprog/process.c:464-504 | The tests with their wrapping sums accept exactly the segments that are not empty, start in the file with no more bytes there than in memory, lie in user space above page 0, and have the same offset in a page of the file and of memory. |
| ElfLoader.LayoutOfValidSegment | Pintos/userprog/process.c:409-435 | For an accepted segment the page arithmetic does not wrap, satisfies the assertions of load_segment, and covers the segment with less than a page to spare. |
| ElfLoader.Memory.InstallPage | Pintos/userprog/process.c:593-602 | Maps the page only if nothing was mapped there, and changes no other page. |
| ElfLoader.Memory.LoadSegment | Pintos/userprog/process.c:520-564 | On success each page holds its part of the file and then zeros; pages mapped before and pages outside are unchanged always; it fails only for lack of pages, of file bytes or of memory for one of its own pages, or when one of them is mapped already. |
| ElfLoader.Memory.LoadPhdr | Pintos/userprog/process.c:409-435 | Every address of a loaded segment, seen through the page table, reads the matching file byte or zero; whether it succeeds or not, no page outside the segment changes, mapped or not. |
| ElfLoader.SegmentStays | Pintos/userprog/process.c:353-455 | Loading further segments does not disturb an earlier one. |
| ElfLoader.Memory.Load | Pintos/userprog/process.c:383-455 | After load all segments are in place together, above a zeroed stack page; pages of no segment never change; and it succeeds whenever the headers are acceptable, the segments and the stack have their pages for themselves, and pages and memory suffice. |
| SortSearch.DoSwap | Pintos/lib/stdlib.c:60-72 | Swapping byte by byte exchanges two elements and leaves every other element, and the bytes after them, alone. |
| SortSearch.SinkStep | Pintos/lib/stdlib.c:99-118 | Moving an element below its greater child keeps the heap order everywhere else. |
| SortSearch.RootIsGreatest | Pintos/lib/stdlib.c:127-148 | No element of a heap is greater than its first. |
| SortSearch.Heapify | Pintos/lib/stdlib.c:91-120 | Floating an element down makes the subtree a heap, only reorders the first n elements, and leaves the bytes after the elements alone. |
| SortSearch.Sort | Pintos/lib/stdlib.c:127-148 | Sorts the elements of any byte array under any total preorder; the result is a permutation of the input, and no byte after the elements changes. |
| SortSearch.BinarySearch | Pintos/lib/stdlib.c:183-208 | On a sorted array returns a matching element exactly when there is one. |
| Bitmap.Bitmap.Set | Pintos/lib/kernel/bitmap.c:133-165 | Setting or clearing with word masks changes exactly one bit of the sequence. |
| Bitmap.Bitmap.Test | Pintos/lib/kernel/bitmap.c:182-187 | Reads the bit of the sequence. |
| Bitmap.Bitmap.SetMultiple | Pintos/lib/kernel/bitmap.c:200-208 | Sets exactly the group. |
| Bitmap.Bitmap.Contains | Pintos/lib/kernel/bitmap.c:230-242 | Tells whether any bit of the group has the value. |
| Bitmap.Bitmap.Scan | Pintos/lib/kernel/bitmap.c:271-284 | Finds the lowest group at or after the start, and none exactly when there is none. |
| Bitmap.Bitmap.ScanAndFlip | Pintos/lib/kernel/bitmap.c:293-299 | Flips exactly the lowest fitting group; for a count of zero returns the start and flips nothing. |
| Bits.SetBit | Pintos/lib/kernel/bitmap.c:144-165 | Or-ing and masking with one bit changes that bit of a word and no other. |
| Palloc.Pool.constructor | Pintos/threads/palloc.c:147-163 | A pool's bitmap and pages share the given range, all pages free: the words of the bitmap end before the first page, which is less than a page behind what they need. |
| Palloc.PageAllocator.GetMultiple | Pintos/threads/palloc.c:70-102 | Takes the lowest free group of pages of the right pool, or none when there is none. |
| Palloc.PageAllocator.FreeMultiple | Pintos/threads/palloc.c:113-137 | Frees exactly the group, in the pool that owns the address. |
| Palloc.PoolRunAccounts | Pintos/threads/palloc.c:70-137 | In every run of requests and releases the live ranges are disjoint and cover exactly the set bits. |
| Malloc.BigPagesSuffice | Pintos/threads/malloc.c:102-115 | A big request gets enough pages exactly when adding the header does not wrap, and never a page more than it needs; it gets none exactly for the 4096 sizes whose rounding up wraps. |
| Malloc.Allocator.constructor | Pintos/threads/malloc.c:70-82 | The descriptors are the powers of two from 16 to 1024; malloc holds no page, whatever others hold. |
| Malloc.Allocator.FindDesc | Pintos/threads/malloc.c:96-100 | The smallest descriptor that is large enough, and so the least block size for the request. |
| Malloc.Allocator.Malloc | Pintos/threads/malloc.c:86-146 | Returns a block that was not in use and grants it the request; fails only for size 0 or when the pool has no room. Up to 1024 bytes the block has the least size, 16 or less than twice the request, and a new page is asked for only when no arena of that size has a free block. Pages are taken only for a new arena, the lowest free group of the number needed, and none on failure; blocks in use keep their capacity. |
| Malloc.Allocator.Free | Pintos/threads/malloc.c:204-243 | Takes exactly the given block out of use. If no other block on its arena is in use exactly the arena's pages are released to palloc, and otherwise none; the user pool never changes. |
| Malloc.Allocator.Realloc | Pintos/threads/malloc.c:184-200 | Moves a block: the length copied is the smaller of the new size and what the old block holds, and fits the new one; the old block is freed only on success. |
| Malloc.Allocator.BlockInUse | Pintos/threads/malloc.c:86-243 | After any calls a block in use holds what it was granted, lies behind its arena's header and within its pages, and is clear of the headers of all arenas. |
| Malloc.Allocator.BlocksInUse | Pintos/threads/malloc.c:86-243 | After any calls blocks in use do not overlap. |
| Malloc.Allocator.ArenasInUse | Pintos/threads/malloc.c:86-243 | After any calls a page is an arena exactly while it has a block in use, and of the ranges in use in the kernel pool exactly the arenas' are malloc's. |
| Malloc.Allocator.AllReturned | Pintos/threads/malloc.c:204-243 | When no block is in use every page that malloc took is back in the pool. |
| Malloc.Allocator.OtherGets | Pintos/threads/palloc.c:70-102 | Others may take pages of the kernel pool between calls: malloc's state and invariants are untouched. |
| Malloc.Allocator.OtherGives | Pintos/threads/palloc.c:113-137 | And others may give their pages back. |
| MallocSpec.TakeBlockInv | Pintos/threads/malloc.c:140-143 | Taking a block keeps free_cnt equal to the arena's blocks on the free list. |
| MallocSpec.GiveBlockInv | Pintos/threads/malloc.c:221-225 | Giving a block back keeps it. |
| MallocSpec.AddArenaInv | Pintos/threads/malloc.c:119-138 | A new arena's blocks join the free list once each. |
| MallocSpec.ArenaIsFull | Pintos/threads/malloc.c:78 | An arena has as many blocks as fit its page behind the header, and no room for one more. |
| MallocSpec.AllFree | Pintos/threads/malloc.c:225-228 | When free_cnt reaches blocks_per_arena every block of the arena is on the free list. |
| MallocSpec.DropArenaInv | Pintos/threads/malloc.c:225-234 | Unlinking all the blocks of an entirely free arena and forgetting the arena keeps the invariant. |
| MallocSpec.ArenaIffInUse | Pintos/threads/malloc.c:86-243 | A page is an arena exactly as long as one of its blocks is in use. |
| MallocSpec.LiveDisjoint | Pintos/threads/malloc.c:247-269 | Two blocks in use do not overlap over their whole capacity. |
| PathSearch.PriorityQueue.Pop | Lagerrobot/communication/priority_queue.py:15-27 | The first of the cheapest entries leaves the queue and the others keep their order. |
| PathSearch.Neighbours | Lagerrobot/communication/nav_algorithm.py:171-195 | Exactly the open neighbours with their directions, or IndexError exactly when a lookup is outside; deletion by index from the back loses none. |
| PathSearch.AStar | Lagerrobot/communication/nav_algorithm.py:98-152 | A returned path is admissible, its cost is the sum of moveCost along it, no admissible path to the goal costs less, and none that costs less ends where a lookup fails. Without one, there is none, or a lookup fails at the end of a path that costs no more than any to the goal, or 10000 different such paths have been looked at; and it never gives up on a goal that a path of cost 230 or less leads to. |
| PathSearch.FreshPush | Lagerrobot/communication/nav_algorithm.py:118-149 | A path that is pushed differs from all in the queue and from all popped before: no path is looked at twice. |
| PathSearch.PopLooking | Lagerrobot/communication/nav_algorithm.py:116-124 | A popped path costs no more than any admissible path to the goal. |
| PathSearch.PushNeighbour | Lagerrobot/communication/nav_algorithm.py:118-149 | Extending the popped path keeps, for every admissible path to the goal, a prefix of it in the queue. |
| PathSearch.SkipNeighbour | Lagerrobot/communication/nav_algorithm.py:126-143 | A neighbour that is skipped continues no admissible path. |
| RouteCount.FewRoutes | Lagerrobot/communication/nav_algorithm.py:156-162 | At most Most(k) different paths from one cell and direction cost 10 * k or less, where Most(k) = 1 + Most(k - 1) + 2 * Most(k - 5) + Most(k - 9). |
| RouteCount.NotCrowded | Lagerrobot/communication/nav_algorithm.py:107-124 | So 10000 iterations are enough for every goal within cost 230, on every map: at most 9402 paths cost no more. |
| Routes.CostOfTurns | Lagerrobot/communication/nav_algorithm.py:156-162 | A path costs 10 for each step and 40 for each quarter turn, a half turn being two. |
| Routes.TurnIsRelative | Lagerrobot/communication/nav_algorithm.py:171-180 | A relative direction of 1 is straight ahead, -1 back, and 2 a quarter turn clockwise on the map. |
| RoutePlan.Translation | Lagerrobot/communication/nav_algorithm.py:197-209 | The turns of a walk, and an exception exactly when a lookup is outside the map. |
| RoutePlan.TranslationRoundTrip | Lagerrobot/communication/nav_algorithm.py:197-209 | Following the translated turns goes the walk again, cell by cell. |
| RoutePlan.VisitInOrder | Lagerrobot/communication/nav_algorithm.py:70-89 | The round is made of one leg for each stop, each a least one from where, and facing as, the leg before it ended, leaving pickup points straight ahead; the time is the sum of their costs.  It fails only where such legs lead to a place from where AStar fails. |
| RoutePlan.ByLegsServes | Lagerrobot/communication/nav_algorithm.py:70-89 | Such a round is one walk that visits the stops in their order and ends at the last, and its time is the cost along it. |
| RoutePlan.FindPath | Lagerrobot/communication/nav_algorithm.py:50-96 | The round returned is the first quickest among rounds of least legs, one for each order of the items with the stop position at its end, and its turns carry it; it fails only if some order strands, and the translation never fails. |
| Factory.LeastLegsBestExactly | Lagerrobot/communication/nav_algorithm.py:11-92 | On the module's map and with its stop position, taking a least leg every time gives a best round among all rounds of admissible legs exactly when there is nothing to pick up. |
| Factory.NoLeastRound | Lagerrobot/communication/nav_algorithm.py:13-92 | From the gate facing up, items at (1, 9) cannot be served by least legs: the robot arrives facing the wall. |
| Factory.RoundExists | Lagerrobot/communication/nav_algorithm.py:13-92 | Other admissible legs do serve them: the robot arrives facing up. |
| Factory.CostFromGate | Lagerrobot/communication/nav_algorithm.py:154-160 | A path from the gate costs at least 10 for each step of the distance and 40 for each turn that its last direction needs. |
| Factory.NearStopIsFound | Lagerrobot/communication/nav_algorithm.py:13-152 | On the module's map, from every cell within the walls, AStar never fails for a goal that an admissible path of cost 230 or less leads to. |
| Routes.JoinCost | Lagerrobot/communication/nav_algorithm.py:82-86 | Costs of legs that meet add up. |
| Assembler.CPUCompiler.CollectLabels | Snake/docs/compiler/compiler.py:316-353 | Each label gets the position that its line has when every instruction takes its least number of words. |
| Assembler.CPUCompiler.FixUpLabels | Snake/docs/compiler/compiler.py:361-427 | One iteration, with labels moved as they are met, computes the specified pass; IndexError exactly for a memory instruction without operands. |
| Assembler.CPUCompiler.Generate | Snake/docs/compiler/compiler.py:429-540 | The third pass emits the specified words, which AllInPlace and the ReadsBack lemmas are about, or raises exactly when one line cannot be encoded. |
| Assembler.CPUCompiler.CompileFile | Snake/docs/compiler/compiler.py:311-542 | Every line's words stand in their place in the output. If the fix-up loop ends with labels_changed false, or at most four memory instructions address labels, every label is the address of its line in the output, and that of a data line finds the value. |
| AssemblerSpec.LabelsNeverDecrease | Snake/docs/compiler/compiler.py:355-427 | No label address ever decreases from one iteration to the next. |
| AssemblerSpec.EmitSize | Snake/docs/compiler/compiler.py:398-540 | The third pass emits as many words for a line as the second one counts. |
| AssemblerSpec.EncodesExactly | Snake/docs/compiler/compiler.py:429-540 | A line raises no exception exactly if its operands are there and its register, value, label or offset can be read, and the address of an AND fits one word. |
| AssemblerSpec.WordRoundTrip | Snake/docs/compiler/compiler.py:505-527 | The or-ed fields of an instruction word do not overlap: each can be read back. |
| AssemblerSpec.MemoryReadsBack | Snake/docs/compiler/compiler.py:471-527 | Opcode and register of a memory instruction can be read back from its words; PLAY has register 0. |
| AssemblerSpec.AddressReadsBack | Snake/docs/compiler/compiler.py:489-527 | So can its address, that of a label or a number, which takes a second word exactly above 255. |
| AssemblerSpec.ImmediateReadsBack | Snake/docs/compiler/compiler.py:515-527 | So can the low byte of its immediate value. |
| AssemblerSpec.BranchReadsBack | Snake/docs/compiler/compiler.py:452-468 | Opcode and target of a branch can be read back; the other fields of its first word are fixed. |
| AssemblerSpec.OtherReadsBack | Snake/docs/compiler/compiler.py:163-309 | Opcode and register of the remaining instructions, and the value of LDI, can be read back; the other fields but those of AND are 0. |
| AssemblerSpec.AndReadsBack | Snake/docs/compiler/compiler.py:129-278 | The operand of AND can be read back: an immediate value, an offset, or a short address, and 255 for what is neither a label nor a number. |
| AssemblerSpec.OffsetIsLost | Snake/docs/compiler/compiler.py:514-527 | An indexed operand of a memory instruction keeps its mode, but its offset exactly if that is 0 modulo 256. |
| AssemblerSpec.OpcodeIsIndex | Snake/docs/compiler/compiler.py:17-35 | Opcodes number the instruction set in its order, so each tells which instruction it is. |
| AssemblerSpec.AllInPlace | Snake/docs/compiler/compiler.py:429-540 | The words of each line stand in the output directly behind those of the lines before it; the word of a data line is its value modulo 2^16. |
| AssemblerSpec.AddressesFindData | Snake/docs/compiler/compiler.py:81-90 | When labels are addresses the output has, at the address of each labelled data line, its value modulo 2^16. |
| AssemblerSpec.MinSizeIsReached | Snake/docs/compiler/compiler.py:330-353 | The first pass counts no more words for a line than some address makes it take. |
| AssemblerSpec.MovingNeedsRefs | Snake/docs/compiler/compiler.py:355-427 | Labels that still move after n iterations need at least n memory instructions that address labels: each iteration lengthens another. |
| AssemblerSpec.AddressesExactlyWhenStable | Snake/docs/compiler/compiler.py:355-542 | The labels equal the numbers of words emitted before them exactly when one more iteration would change nothing. |
| Assembler.FiveAreTooFew | Snake/docs/compiler/compiler.py:355-361 | A program for which five iterations are too few, so that its labels are wrong in the output. |
| Assembler.SettlesExactly | Snake/docs/compiler/compiler.py:355-361 | Five iterations settle every source with at most m memory instructions that address labels exactly when m is at most four. |
| TankPath.FindShortestPath | Capture_The_Flag/ai.py:153-181 | A shortest walk over accessible tiles, and empty exactly when the target is the start or cannot be reached. |
| TankPath.WalkIsCovered | Capture_The_Flag/ai.py:165-180 | The end of every walk has been visited by a path no longer, or a tile no further away is still queued. |
| TankPath.VisitNeighbour | Capture_The_Flag/ai.py:175-180 | Queueing a new neighbour keeps the queue in the order of the path lengths. |
| TankPath.AdjacentIsOneStep | Capture_The_Flag/ai.py:216 | The neighbours of a tile are exactly the tiles one step away along one axis. |
| TankPath.AccessibleTiles | Capture_The_Flag/ai.py:219-239 | The accessible tiles are those on the map that are grass or a wooden box, or a metal box for the second filter. |

## Left out

- KernelList: `list_unique`, `list_max`, `list_min` and the front and back accessors, which would add only easy members.
- SpscRing: `overwriteOldest = true` while a tryPop is in flight, in which both threads store `tail` (RingQueue has it without concurrency); opening an existing mapping; memory orders weaker than sequential consistency; file descriptors and mmap.
- HashTable: the buckets are sequences; that their links are right is KernelList. Iterators, hash_apply and the FNV hash functions.
- Malloc: `calloc`, whose overflow test misses products that wrap to a large number; the descriptors' locks.
- Malloc.Allocator.Realloc: states the length that it copies and not the copy, because the bytes inside blocks are not modelled.
- Palloc: PAL_ZERO, PAL_ASSERT, the lock, and the debugging fill of freed pages.
- Bitmap: files, dumps, and the word-wide operations on all bits.
- InodeIo: negative offsets, which no caller passes; opening, creating and removing inodes. Concurrency is RwLock's.
- RwLock: threads step in any interleaving; fairness and starvation are not stated, and the code does not promise them.
- Scheduler: booting before the idle thread exists, time slices and tick statistics, priorities, address space activation, lock ownership, and 64-bit overflow of tick counts.
- ElfLoader: reading the executable header and the bytes of program headers; argument passing; process exit. On failure the pages mapped so far stay, as in the code, which then exits.
- PageDir: dirty and accessed bits, kernel mappings, destruction, and the TLB.
- SortSearch: the qsort and bsearch wrappers, which only drop the aux argument; atoi.
- OctalFormat: every conversion but `%0Wo` for an unsigned int without precision.
- Wakeup: JSON encoding is abstract, an event either decodes or does not; wrong-role calls are excluded by construction; both wake descriptors exist; metrics and strategy callbacks.
- PathSearch: `remove_position` and the unused distance estimate.
- RoutePlan.FindPath: which of several least legs AStar takes, and so the way the next leg starts, is left open.
- RoutePlan: the list of all orders of the items, which itertools computes, is a parameter.
- Assembler: splitting a line into label, mnemonic and operands, and the spelling of numbers and registers, are parameters; a ':' or ';' outside its usual place is therefore not modelled; write_output.
- TankPath: movement, shooting and physics; tiles have integer coordinates.
- The image matching service, the game's graphics and sound, the robot's interfaces and drivers, and the rest of Pintos.
