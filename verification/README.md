# REXUS kernel: a verified model

This project models the state machines of the REXUS kernel that carry its hard guarantees, and proves what they
guarantee over every input, every run or every interleaving. `dafny verify dfyconfig.toml` checks all of it.

| part | modules |
|---|---|
| Machine words and lists | `Bits`, `Common`, `Seqs`, `Lists` |
| Physical memory (`mem/pmm.c`) | `Bitmaps`, `PmmPool`, `Pmm`, `PmmRuns`, `Holdings` |
| Page tables (`mem/vmm.c`) | `PageTables`, `Vmm`, `Clone`, `CloneLeaks`, `VmmClone`, `CloneIsolation`, `AddressSpaces`, `SpaceRuns`, `KernelMap` |
| Scheduler (`proc/process.c`) | `SchedSpec`, `SchedScan`, `SchedRuns`, `Scheduler` |
| IPv4 (`net/ipv4.c`) | `Checksum`, `Ipv4`, `Fragmentation`, `Reassembly`, `ReassemblyRuns`, `Completion`, `RoundTrip`, `RouteSpec`, `Routes`, `RouteRuns` |
| TCP (`net/tcp.c`) | `TcpStreams`, `TcpConn`, `Tcp`, `TcpOptions` |
| UDP sockets, packet buffers (`net/udp.c`, `net/net.c`) | `SocketSpec`, `Udp`, `NetPackets` |
| e1000 receive ring (`drivers/e1000.c`) | `RxRingSpec`, `E1000` |
| CAN (`drivers/can.c`) | `CanFrames`, `CanRing`, `Can` |
| Reassembly buffers, all network clients on one allocator | `FragmentBuffers`, `NetRuns`, `NetStack` |
| Concrete runs behind the findings | `Witnesses` |

Each component has two layers. A specification on values says what an operation does and carries the theorems about
whole runs. A class, or methods on arrays, changes fields in place as the C code does, and each method is proved equal
to the specification. Sockets, connections, routes, packets and reassembly buffers all sit on the one allocator, a bitmap
with a redundant 32-bit counter (`PmmPool.Pool`), and take and free blocks by its steps: who owns which block is stated
once (`Holdings`), used by each of them, and then for all of them together (`NetRuns`, `NetStack`). Page tables
keep their own account of frames (`PageTables.WellFormed`, `Clone.Accounts`).

Results that go beyond a single function:

* Any sequence of map and unmap calls on a two-level table spread over allocator frames is a run on a finite map from
  pages to frames (`PageTables.RunRefines`). A clone is exact, shares exactly the read-only and kernel frames and needs an
  exactly computed number of frames (`VmmClone.CloneDirectory`).
* Directories that are created, cloned, mapped into and freed in any order lie apart, as long as they live, if and only
  if none is freed while it shares a table with another (`SpaceRuns.AlwaysApartExactly`). Each of them then denotes, below
  3 GB, what its own calls made of its map, and above it also what calls through shared tables did
  (`SpaceRuns.SurvivorIsPrivate`, `SpaceRuns.SurvivorSees`).
* A process that is ready, or whose sleep is over, becomes current within (queue length - 1) yields, plus one for each
  process created meanwhile, and no scan hangs before that (`SchedRuns.BoundedWait`); the scan for the next process ends
  if and only if a condition on the queue holds (`SchedScan.ScanEndsExactly`). A blocked process left alone runs if and
  only if it once slept and that wake time has passed (`SchedRuns.BlockedRunsExactly`).
* Reassembly only ever hands up exact originals, for all arrival orders, losses, repetitions and interleavings
  (`ReassemblyRuns.ReassemblySound`); in every run, failed allocations included, a call returns a packet exactly when its
  fragment is kept, a fragment has been kept for each eight-byte unit, and a packet can be had
  (`Completion.HandsUpExactly`).
* Two TCP ends over a network that loses, repeats, reorders and delays never lose a byte
  (`TcpStreams.NoByteLost`).
* The e1000 and CAN rings deliver in order, without loss or repetition, under every interleaving of device or interrupt
  steps with the driver's single accesses (`RxRingSpec.RunDelivers`, `CanRing.RunDelivers`).
* UDP sockets, TCP connections, routes, packets and reassembly buffers on one allocator: over every interleaving of their
  calls, failed ones included, every block in use has exactly one owner, the allocator's counter is right, and ending an
  object returns exactly its own blocks. This holds after every call if and only if each packet is freed while its fields
  name its own block and no other, and each buffer is cleaned up while its length names all of it
  (`NetRuns.RunKeepsExactly`, `NetRuns.OneOwnerEach`, `NetRuns.EndReturnsOwn`; on the objects themselves `NetStack.Stack`).
* Under any calls at all the allocator's counter lags behind its bitmap by exactly the number of frees of blocks that
  were not in use, modulo 2^32 (`PmmPool.CounterAgreesExactly`).

Findings: places where the code does less than its comments or names suggest. The model follows the code; the exact
condition is proved, and `Witnesses` holds a concrete run into each of the failing states.

* `ipv4_reassemble_packet` marks only the first eight-byte unit of a fragment (`net/ipv4.c:379`). The fragments of a
  packet, each received once in any order, are reassembled if and only if the MTU is below 36 or the payload has at most
  8 bytes (`RoundTrip.ShuffledReassembly`); otherwise unit 1 is never marked, and no repetition of fragments helps
  (`RoundTrip.NeverReassembled`, `Witnesses.TwoFragmentsLost`).
* `process_get_next` loops forever when its start block is unlinked during the scan (`proc/process.c:262`); it ends if
  and only if `Settles` holds (`SchedScan.ScanEndsExactly`, `Witnesses.ScanHangs`).
* `sleep_until` is never cleared (`proc/process.c:157`), and the scan wakes every blocked process whose `sleep_until` is
  not 0 and has passed, so a process that once slept and then blocks runs again without being unblocked
  (`SchedRuns.BlockedRunsExactly`, `SchedRuns.BlockedNeverRuns`, `Witnesses.BlockedRunsAgain`).
* `process_block` does not ask for the state (`proc/process.c:164-171`): called on a terminated process it makes it blocked,
  and if that process once slept it runs again (`SchedRuns.BlockRevivesExactly`). Left alone it never does
  (`SchedRuns.ExitedNeverRuns`, `SchedRuns.TerminatedNeverRuns`).
* `process_sleep` compares absolute wake times, so a wake time that wraps past zero is due at once and one that wraps
  to zero never comes (`SchedRuns.SleepWrap`, `Witnesses.SleepAtTheWrap`).
* A frame of length 0 or above 1518 bytes at the head of the e1000 ring stops reception for good: the packet cannot be
  allocated and the descriptor is never given back (`RxRingSpec.StuckForever`, `RxRingSpec.TakenExactly`,
  `Witnesses.RingSticks`).
* `net_alloc_packet(0)` always fails. A packet is freed rightly if and only if its fields name its data block and no
  other block of memory: one whose length became 0 leaks it, and one whose length reaches into a free neighbour puts the
  allocator's counter wrong (`NetPackets.PacketExactly`, `NetPackets.FreeRestoresExactly`, `Witnesses.EmptyPacketLeaks`,
  `Witnesses.OverlongPacketMiscounts`).
* `ipv4_cleanup` frees a reassembly buffer by the total length known so far (`net/ipv4.c:44-49`), not by its 16 blocks:
  all of them come back if and only if every buffer in use has a length above 61440, which no datagram of 64 units has
  (`FragmentBuffers.CleanupConsistentExactly`, `FragmentBuffers.WholeExactly`, `Witnesses.CleanupLeaks`).
* `pmm_unset_block` counts down also for a block that is not in use (`mem/pmm.c:48`), so after such a free the counter
  stays too low (`PmmPool.CounterAgreesExactly`, `Witnesses.DoubleFreeMiscounts`); should it run below zero,
  `pmm_alloc_block` refuses every block, free or not (`PmmPool.GrantsExactly`).
* The receive check of IPv4 headers is stricter than RFC 1071: it also refuses a stored 0xFFFF where 0 was computed
  (`Ipv4.AcceptedExactly`, `Witnesses.ValidHeaderRefused`).
* A failed `vmm_clone_directory` frees the new directory and its tables but not the page copies already made. With `free`
  frames free, it leaves the copies among its first `free` allocations; hence nothing if and only if no user page is
  writable or `free` is at most one plus the number of user tables up to and including the first with a writable page
  (`CloneLeaks.LeaksNothingExactly`, in the contract of `VmmClone.CloneDirectory`; `Witnesses.FailedCloneLeaks`
  on the directory of `Witnesses.SmallExists`).
* `vmm_free_directory` gives back the tables of the shared kernel half too (`mem/vmm.c:217-222`). Another directory
  survives it if and only if the two share no table (`AddressSpaces.FreeSparesExactly`), so freeing any clone of a
  directory that maps a kernel page frees that directory's own table (`AddressSpaces.FreedCloneBreaksSource`,
  `Witnesses.FreedCloneUnderSource` on the directory of `Witnesses.KernelOnlyExists`).
* The branch of `tcp_create_connection` that frees a receive buffer after the send buffer was refused cannot run
  (`net/tcp.c:87`, shown in `Tcp.TcpLayer.Allocate`).
* In `pmm_alloc_block` the search succeeds whenever the counter test passes, as long as the counter agrees
  (`PmmPool.AgreeingCounter`).

## Model

| member | source | states |
|---|---|---|
| `Bitmaps.SearchIsFirstFit` | `mem/pmm.c:57-94` | the search yields r exactly when r is the least start of a free run of the requested length, or -1 when there is none |
| `Bitmaps.SearchFits` | `mem/pmm.c:198-203` | a satisfiable request never exceeds the unused count, so the counter test rejects nothing that fits |
| `Pmm.Allocator.SetBlock` | `mem/pmm.c:40-43` | exactly one bit of the bitmap becomes set; the counter grows by one in 32 bits |
| `Pmm.Allocator.UnsetBlock` | `mem/pmm.c:46-49` | exactly one bit becomes clear; the counter shrinks by one in 32 bits |
| `Pmm.Allocator.TestBlock` | `mem/pmm.c:52-54` | the answer is the block's bit |
| `Pmm.Allocator.FindFirstFree` | `mem/pmm.c:57-94` | both loops return the first fit, or -1; a request for nothing is refused |
| `PmmPool.CounterAgreesExactly` | `mem/pmm.c:171-224` | over every run of allocations and frees at any addresses, the counter plus the number of frees of blocks not in use is the number of set bits modulo 2^32; so they agree exactly when that number is 0 there |
| `PmmPool.AgreeingCounter` | `mem/pmm.c:171-203` | with an agreeing counter the test refuses nothing that a search would find, and the search for one block succeeds exactly when the test passes |
| `PmmPool.GrantsExactly` | `mem/pmm.c:171-203` | in any state: one block is taken if and only if the counter is below the number of blocks and some block is free; n if and only if counter plus n, modulo 2^32, is at most that number and n free blocks lie side by side; so a counter that has run below zero refuses every single block while `pmm_alloc_blocks(1)` still finds it |
| `PmmPool.TwoFreesAgreeExactly` | `mem/pmm.c:186-224` | a later free does not make good an earlier one: after two frees counter and bitmap agree if and only if every block named was in use by then |
| `Pmm.Allocator.AllocBlock` | `mem/pmm.c:171-183` | in any state the specified call on bitmap and counter; when they agree it takes the first free block and marks it alone, or returns 0 and changes nothing exactly when none is free, and they keep agreeing |
| `Pmm.Allocator.FreeBlock` | `mem/pmm.c:186-195` | for any address: that block becomes free, addresses past memory are ignored; counter and bitmap keep agreeing if and only if the block was in use |
| `Pmm.Allocator.AllocBlocks` | `mem/pmm.c:198-214` | in any state the specified call on bitmap and counter; when they agree it marks exactly the first free run of the length, or returns 0 and changes nothing exactly when there is none |
| `Pmm.Allocator.FreeBlocks` | `mem/pmm.c:217-224` | for any range: exactly its existing blocks become free; counter and bitmap keep agreeing if and only if all of them were in use |
| `PmmRuns.RunKeeps` | `mem/pmm.c:171-224` | over every sequence of allocations and frees of live allocations: live ranges are disjoint, exactly reserved and live blocks are marked, the 32-bit counter is the count of set bits, and its test refuses nothing a search would find |
| `PmmRuns.AllFreedRestores` | `mem/pmm.c:171-224` | once everything is freed, bitmap and counter are those of boot |
| `PageTables.EntryBits` | `mem/vmm.c:54-56` | the masks of the code select the present and writable bits, the frame and the flags of an entry |
| `PageTables.IndexBits` | `mem/vmm.c:126-127` | the shifts and masks compute directory slot, table slot and page offset |
| `PageTables.MapPageRefines` | `mem/vmm.c:121-144` | mapping fails exactly when a table is missing and no frame is free, then changes nothing; otherwise exactly one page is rebound; tables stay distinct and marked used |
| `PageTables.UnmapPageRefines` | `mem/vmm.c:147-166` | at most one page is removed, and success is reported for every bound page |
| `PageTables.RunRefines` | `mem/vmm.c:121-166` | every run of map and unmap calls on the frames is the same run on a finite map |
| `PageTables.TranslateIsView` | `mem/vmm.c:169-191` | the lookup answers exactly for bound pages, with frame plus offset |
| `Vmm.PagedMemory.GetPageTable` | `mem/vmm.c:49-74` | returns the slot's table, adding a zeroed one if asked and possible; the denoted map does not change |
| `Vmm.PagedMemory.CreateDirectory` | `mem/vmm.c:108-118` | a zeroed directory in the first free frame, or 0 and no change |
| `Vmm.PagedMemory.MapPage` | `mem/vmm.c:121-144` | the stores into frames are the specified step; success binds exactly one page of the map |
| `Vmm.PagedMemory.UnmapPage` | `mem/vmm.c:147-166` | the store is the specified step; exactly the page is removed |
| `Vmm.PagedMemory.GetMapping` | `mem/vmm.c:169-191` | true exactly for bound pages, with the physical address; memory is untouched |
| `Vmm.PagedMemory.FreeDirectory` | `mem/vmm.c:211-226` | exactly the directory frame and its tables become free |
| `Clone.Start` | `mem/vmm.c:239-244` | a new directory establishes the loop invariant of the clone |
| `Clone.KernelSlot` | `mem/vmm.c:249-251` | copying a kernel entry keeps the invariant |
| `Clone.NewTable` | `mem/vmm.c:253-260` | hooking in a new user table keeps the invariant and costs one frame |
| `Clone.ShareCell` | `mem/vmm.c:283-286` | sharing a read-only page keeps the invariant |
| `Clone.CopyCell` | `mem/vmm.c:268-282` | copying a writable page to a new frame keeps the invariant and costs one frame |
| `Clone.Finished` | `mem/vmm.c:239-294` | the finished loops give an exact clone: same pages and flags, read-only frames shared, writable ones equal, private and pairwise distinct |
| `Clone.CloneOnPage` | `mem/vmm.c:247-291` | page by page, for page numbers below and from 0xC0000: below 3 GB the table is a frame that was free, a writable page is a copy in a frame that was free, a read-only one is shared; from 3 GB on the table is the source's own |
| `Clone.CloneFramesDistinct` | `mem/vmm.c:266-282` | no two writable pages below 3 GB share a frame of the clone |
| `CloneLeaks.LeaksNothingExactly` | `mem/vmm.c:253-276` | a clone cut off after a number of allocations has made no copy if and only if the source has no writable user page, or that number is at most one plus the tables up to and including the first with a writable page |
| `CloneLeaks.FailedCount` | `mem/vmm.c:257-276` | the bitmap after a failure counts exactly the copies left behind |
| `VmmClone.CloneDirectory` | `mem/vmm.c:239-294` | succeeds exactly when enough frames are free for directory, tables and copies; success gives an exact clone; on every path the source keeps its map; failure leaves exactly the copies among the allocations there was room for, and the bitmap is the old one under exactly the condition above |
| `VmmClone.CloneSlot` | `mem/vmm.c:247-291` | one directory slot keeps the invariant and costs what it should in tables and copies, or fails with every frame used and exactly the copies among the allocations so far left behind |
| `VmmClone.CloneTable` | `mem/vmm.c:253-288` | the same for one user table |
| `VmmClone.AbandonClone` | `mem/vmm.c:257-260` | the failure path frees the new directory and its own tables and never a table of the source |
| `CloneIsolation.CloneIsApart` | `mem/vmm.c:239-294` | a clone and its source have no table in common but the existing kernel tables, each in its slot |
| `CloneIsolation.PrivateStep` | `mem/vmm.c:121-166` | a map or unmap call through one of two directories that lie apart, on a page whose table they do not share, is invisible through the other |
| `CloneIsolation.SharedStepSame` | `mem/vmm.c:121-166` | on a page whose table they share it is the same call through either, and succeeds |
| `CloneIsolation.StepSeen` | `mem/vmm.c:121-166` | what a call through one directory does to the map of the other, in both cases |
| `CloneIsolation.CallerStaysApart` | `mem/vmm.c:49-74` | a table added by a call was nobody's: the directories stay apart and share what they shared |
| `AddressSpaces.CallKeepsFamily` | `mem/vmm.c:121-166` | any number of directories that lie pairwise apart stay so under a call through any of them |
| `AddressSpaces.CloneJoins` | `mem/vmm.c:239-294` | a clone joins the family: it lies apart from every member, shares with each what its source shared, and no member's map changes |
| `AddressSpaces.EachSeesItsCalls` | `mem/vmm.c:121-166` | over every run of calls through any members, each member denotes the finite map produced by its own successful calls and those through tables it shares |
| `AddressSpaces.UserHalfIsPrivate` | `mem/vmm.c:121-166` | on the pages below 0xC0000000 each member denotes the run of its own calls alone |
| `AddressSpaces.SharedHalfIsCommon` | `mem/vmm.c:249-251` | a page of a table two members share has the same entry in both after every run |
| `AddressSpaces.FreeSparesExactly` | `mem/vmm.c:211-226` | after one of two directories is freed, the other is well formed if and only if they shared no table |
| `AddressSpaces.FreedCloneBreaksSource` | `mem/vmm.c:211-226` | freeing a clone of a directory that maps a kernel page frees that directory's own table |
| `SpaceRuns.NextKeepsExactly` | `mem/vmm.c:108-294` | one creation, clone (failed or not), free, map or unmap call keeps the living directories apart, unless it frees one that shares a table |
| `SpaceRuns.AlwaysApartExactly` | `mem/vmm.c:108-294` | over every run of such calls the living directories lie apart at every moment if and only if none is freed while it shares a table with another |
| `SpaceRuns.SurvivorSees` | `mem/vmm.c:108-294` | a directory that lives through such a run denotes what its own calls and those through its shared tables made of its map, whatever was created, cloned and freed meanwhile |
| `SpaceRuns.SurvivorIsPrivate` | `mem/vmm.c:108-294` | on the pages below 0xC0000000 what its own calls alone made of it |
| `KernelMap.MapRangeEffect` | `mem/vmm.c:229-236` | a range of mappings stays within its slots and maps every page when a frame is free for each missing table |
| `KernelMap.KernelMapExact` | `mem/vmm.c:88-99` | the three overlapping loops give a to a and a + 0xC0000000 to a below 10 MB and nothing else, if and only if six frames are free |
| `KernelMap.IdentityMap` | `mem/vmm.c:229-236` | the loop maps exactly the pages from start to end, rounded as 32-bit addresses are |
| `KernelMap.InitKernelDirectory` | `mem/vmm.c:81-99` | the kernel directory denotes exactly the intended map if and only if seven frames were free; then the addresses below 10 MB and those from 0xC0000000 reach the first 10 MB, writable, and no others are mapped |
| `KernelMap.KernelCloneShares` | `mem/vmm.c:239-294` | a clone of it shares exactly the pages from 0xC0000000 on; the low 10 MB become copies of its own |
| `SchedSpec.ChooseKeepsWeakInv` | `proc/process.c:191-266` | the choice never frees the current block, keeps idle at the head, and picks a ready block or idle |
| `SchedSpec.YieldKeepsInv` | `proc/process.c:269-320` | after every yield exactly the current process is running |
| `SchedSpec.StepKeepsInv` | `proc/process.c:136-188` | every scheduler event keeps the invariant |
| `SchedSpec.PurgeAt` | `proc/process.c:216-255` | unlinking terminated blocks keeps the others in order and in place around them |
| `SchedRuns.RunKeepsInv` | `proc/process.c:136-331` | over every run that leaves idle alone, a running process is the current one and idle is ready when not current |
| `SchedRuns.ChooseAdvances` | `proc/process.c:191-266` | the scan chooses the waiting process or one strictly closer to it in cyclic order |
| `SchedRuns.WaitingSettles` | `proc/process.c:191-266` | while another process is ready or has slept enough, the scan ends |
| `SchedRuns.BoundedWait` | `proc/process.c:269-285` | a process that is ready, or asleep with its wake time passed and no wrap of the time ahead, and is not blocked or terminated, is current within (queue length - 1) yields plus one per process created; no scan before that hangs |
| `SchedRuns.BoundedWaitInTicks` | `proc/process.c:323-331` | and within ten times that many timer ticks before the time wraps |
| `SchedRuns.TicksYieldExactly` | `proc/process.c:323-331` | ticks alone yield at every tenth tick and at no other |
| `SchedRuns.SleepWrap` | `proc/process.c:155-161` | exactly which sleeps are due at once or never, because of the 32-bit wake time |
| `SchedRuns.BlockedNeverRuns` | `proc/process.c:164-178` | over every run that neither unblocks nor terminates it, a blocked process whose sleep_until is 0 or ahead never runs |
| `SchedRuns.BlockedRunsExactly` | `proc/process.c:164-214` | a blocked process left alone is run by later yields if and only if its sleep_until is not 0 and has passed |
| `SchedRuns.DeadStepExactly` | `proc/process.c:136-188` | a terminated process that is not current stays so under every event, unless it is blocked again or its name is given to a new process |
| `SchedRuns.ExitedNeverRuns` | `proc/process.c:136-142` | after process_exit the process never becomes current again, over every run in which neither happens |
| `SchedRuns.TerminatedNeverRuns` | `proc/process.c:181-188` | after process_terminate of any process, current or not, the same |
| `SchedRuns.ScanUnlinks` | `proc/process.c:216-255` | once a scan has passed its block, no block of the queue carries its identifier |
| `SchedRuns.BlockRevivesExactly` | `proc/process.c:164-171` | process_block of a terminated process lets it run again exactly when it once slept and that wake time has passed |
| `SchedRuns.UnblockWaits` | `proc/process.c:174-178` | an unblocked process waits for its turn, which BoundedWait bounds |
| `SchedRuns.CreateWaits` | `proc/process.c:125-130` | a new process is ready at the end of the queue and waits for its turn |
| `SchedRuns.BlockStays` | `proc/process.c:164-171` | a process blocked by another stays blocked until its sleep_until, if any |
| `SchedRuns.BlockSelfStays` | `proc/process.c:164-171` | a process that blocks itself too, and gives way |
| `SchedRuns.SleepStays` | `proc/process.c:155-161` | a sleeping process stays blocked until the time plus the length of the sleep |
| `SchedScan.ScanEndsExactly` | `proc/process.c:191-266` | the pointer loop ends if and only if the queue settles, and then with the specified choice |
| `Scheduler.ProcessList.Unlink` | `proc/process.c:218-226` | the block is removed from the linked list and nothing else changes |
| `Scheduler.ProcessList.GetNext` | `proc/process.c:191-266` | the pointer loop terminates and leaves the specified queue and choice |
| `Scheduler.ProcessList.Switch` | `proc/process.c:288-320` | states and current pointer change as specified |
| `Scheduler.ProcessList.YieldCpu` | `proc/process.c:269-285` | is the specified yield |
| `Scheduler.ProcessList.TimerTick` | `proc/process.c:323-331` | is the specified tick: the time advances in 32 bits and every tenth tick yields |
| `Scheduler.ProcessList.SleepFor` | `proc/process.c:155-161` | is the specified sleep |
| `Scheduler.ProcessList.ExitCurrent` | `proc/process.c:136-142` | is the specified exit |
| `Scheduler.ProcessList.BlockProcess` | `proc/process.c:164-171` | is the specified block, yielding only for the current process |
| `Scheduler.ProcessList.UnblockProcess` | `proc/process.c:174-178` | is the specified unblock, of blocked processes only |
| `Scheduler.ProcessList.TerminateProcess` | `proc/process.c:181-188` | is the specified termination |
| `Scheduler.ProcessList.Append` | `proc/process.c:125-130` | a new process goes to the end of the list |
| `Checksum.TwoRounds` | `net/ipv4.c:69-71` | a 32-bit sum folds in at most two rounds |
| `Checksum.HostChecksumIsInternet` | `net/ipv4.c:53-74` | up to 131074 bytes, summing in 32 bits and folding at the end is the RFC 1071 one's complement sum |
| `Checksum.Ipv4Checksum` | `net/ipv4.c:53-74` | the loop computes that checksum, odd lengths included |
| `Checksum.PseudoChecksum` | `net/ipv4.c:77-105` | is the checksum of pseudo header followed by data |
| `Checksum.TransportChecksum` | `net/tcp.c:315-363` | agrees with the pseudo checksum of its pseudo header; udp_checksum has the same loops |
| `Checksum.PseudoLayout` | `net/tcp.c:322-335` | the twelve bytes of the pseudo header, and what they add to the sum |
| `Checksum.StoredChecksumVerifies` | `net/ipv4.c:172-178` | storing the checksum in its zeroed field makes the whole sum check to zero |
| `Checksum.WholeSumIsZero` | `net/ipv4.c:172-178` | the recompute-and-compare test and the RFC 1071 test agree except on a stored 0xFFFF for 0 |
| `Ipv4.BytesLayout` | `net/ipv4.c:53-74` | every header field at its bytes, least significant first |
| `Ipv4.SumOfFields` | `net/ipv4.c:53-74` | the sum of the header's words is the sum of its fields and address words |
| `Ipv4.ChecksumOfFields` | `net/ipv4.c:53-74` | the checksum and the fields add up to 0 modulo 65535 |
| `Ipv4.SealedIsAccepted` | `net/ipv4.c:172-178` | every header finished by the writers passes the receive test and the RFC 1071 test |
| `Ipv4.AcceptedExactly` | `net/ipv4.c:172-178` | exactly how the receive test differs from the RFC 1071 test |
| `Ipv4.FlagBits` | `net/ipv4.c:268` | the masks select offset, MF and DF |
| `Ipv4.HeaderFlags` | `net/ipv4.c:268` | offset, MF and DF of a header are what the masks select |
| `Ipv4.BuildHeader` | `net/ipv4.c:129-143` | the header of a sent packet, with 16-bit length and identification, is accepted by the receive test |
| `Ipv4.ForwardIncrement` | `net/ipv4.c:230-244` | one less TTL raises the checksum by one, modulo 65535 |
| `Ipv4.ForwardHeader` | `net/ipv4.c:230-244` | a forwarded header has one less TTL and a valid checksum, one more than before modulo 65535; TTL 0 and 1 are refused unchanged |
| `Ipv4.ReceiveCheck` | `net/ipv4.c:172-178` | computes the receive test |
| `Fragmentation.FragmentsTile` | `net/ipv4.c:264-321` | in order the fragments concatenate to the payload; each fits the MTU, carries its offset in 13 bits and an accepted header, and copies every other field; all but the last have the largest size divisible by 8 that fits, and the MF flag |
| `Fragmentation.FragmentPacket` | `net/ipv4.c:264-321` | the loop sends a prefix of those fragments, and all of them exactly when DF is clear and no allocation or send fails |
| `Fragmentation.MaskIsMaxData` | `net/ipv4.c:273` | the mask rounds the payload size down to a multiple of eight |
| `Reassembly.Ipv4Layer.FindBuffer` | `net/ipv4.c:328-371` | finds the datagram's buffer, else the first free one, else none |
| `Reassembly.Ipv4Layer.IsComplete` | `net/ipv4.c:387-397` | the loop finds the length known and every unit below it marked, exactly |
| `Reassembly.Ipv4Layer.Reassemble` | `net/ipv4.c:324-432` | one call on the table in place is the specified step |
| `Reassembly.FreshIs` | `net/ipv4.c:340-363` | a buffer for a new datagram: the first free place, its key and protocol, nothing received |
| `Reassembly.CountsFragments` | `net/ipv4.c:379-380` | fragment_count is the number of fragments stored modulo 256; key and protocol stay |
| `Reassembly.FullTableRefuses` | `net/ipv4.c:340-353` | 64 datagrams of at most 512 bytes can be in progress; a fragment of another one is refused |
| `ReassemblyRuns.FeedSound` | `net/ipv4.c:373-428` | one fragment keeps every buffer faithful to its datagram, whatever the new frame held before |
| `ReassemblyRuns.ReassemblySound` | `net/ipv4.c:324-432` | over every arrival sequence, each packet handed up is exactly one original: payload, length, addresses, protocol, accepted header |
| `ReassemblyRuns.EmptyTableSound` | `net/ipv4.c:34-37` | the table of boot is a sound start |
| `Completion.OwnFeed` | `net/ipv4.c:378-399` | a fragment completes its datagram exactly when every unit has then been started |
| `Completion.FeedBook` | `net/ipv4.c:324-432` | the same whatever the allocator answers: without a buffer the fragment is as if lost, without a packet the datagram waits for the next fragment |
| `Completion.OtherKeepsTracks` | `net/ipv4.c:328-338` | a fragment of another datagram leaves a buffer alone |
| `Completion.RunTracks` | `net/ipv4.c:324-432` | until every unit has been started the table records the starts and nothing is handed up |
| `Completion.CompletesExactly` | `net/ipv4.c:387-399` | when every fragment is served, the packet appears at the first arrival after which every unit has been started, never earlier |
| `Completion.HandsUpExactly` | `net/ipv4.c:324-432` | in every run, with losses, repetitions, other datagrams and failed allocations: a call returns a packet if and only if its fragment is kept, every unit has been started since the last time, and a packet can be had |
| `RoundTrip.UnitOneMissing` | `net/ipv4.c:379` | with larger fragments no fragment ever starts at unit 1 |
| `RoundTrip.NeverReassembled` | `net/ipv4.c:324-432` | so such a packet is never handed up, whatever is repeated, in whatever order, among whatever other datagrams, and whatever the allocator answers |
| `RoundTrip.ShuffleCovers` | `net/ipv4.c:264-432` | a permutation of the fragments covers the datagram at its last arrival exactly for single-unit fragments, and never earlier |
| `RoundTrip.ShuffledReassembly` | `net/ipv4.c:264-432` | fragmenting and reassembling in any order, among fragments of any other datagrams, returns the original at its last fragment if and only if the MTU is below 36 or the payload has at most 8 bytes |
| `RouteSpec.HitBits` | `net/ipv4.c:498-504` | a route matches an address exactly when each bit of its network is the address bit under the mask and 0 elsewhere |
| `RouteSpec.HitExamples` | `net/ipv4.c:498-504` | what that means for host routes, /24 routes, the default route, and for a route's own name |
| `Routes.AddedFields` | `net/ipv4.c:443-464` | a new route carries exactly the values it was added with |
| `RouteSpec.AddIsStable` | `net/ipv4.c:458-464` | insertion keeps the list sorted by metric with equal metrics in the order added |
| `RouteSpec.LookupIsBest` | `net/ipv4.c:489-516` | the first hit of the table is the hit of least metric and, among equals, the oldest; there is none exactly when nothing matches |
| `RouteSpec.RemoveIsStable` | `net/ipv4.c:474-486` | removal takes out that same best entry and keeps the order of the rest |
| `Routes.RouteTable.Add` | `net/ipv4.c:435-467` | in place on the linked list: the entry goes behind equal metrics in a page of its own, or nothing changes if there is no page |
| `Routes.RouteTable.Remove` | `net/ipv4.c:469-487` | the first entry of that network and netmask is unlinked and its page freed; false exactly when there is none |
| `Routes.RouteTable.Find` | `net/ipv4.c:489-516` | the full scan with its metric comparison returns the first match in the list |
| `Routes.RouteTable.FlushAll` | `net/ipv4.c:518-524` | the list becomes empty and exactly the routes' pages are returned |
| `Routes.MatchesRoute` | `net/ipv4.c:498-504` | the byte loop computes (destination and netmask) equals network |
| `RouteRuns.RunTracks` | `net/ipv4.c:435-524` | over every sequence of additions, removals and flushes: sorted, stable, the multiset of live routes, and exactly their pages owned |
| `RouteRuns.LookupAfterRun` | `net/ipv4.c:489-516` | after any history a lookup gives the least-metric oldest matching route, or none if none matches |
| `TcpStreams.ReceiverInOrder` | `net/tcp.c:168-195` | whatever slices arrive, bytes read then buffered are a growing prefix of the stream, rcv_nxt is its end modulo 2^32, and rcv_wnd plus buffered bytes is the window |
| `TcpStreams.DataTakenExactly` | `net/tcp.c:258-277` | a slice is taken exactly when it starts at the reader's position and fits the window |
| `TcpStreams.SenderKeepsSuffix` | `net/tcp.c:140-165` | over all sends and arbitrary acknowledgements the send buffer is the unacknowledged suffix of the accepted bytes and snd_una its number |
| `TcpStreams.AckExactly` | `net/tcp.c:243-255` | an acknowledgement has an effect exactly when it numbers a waiting byte; it then drops precisely what it covers |
| `TcpStreams.SendExactly` | `net/tcp.c:151-158` | a send is taken exactly when it has data that fits what the window leaves, and then waits behind what waited |
| `TcpStreams.ReadExactly` | `net/tcp.c:168-195` | a read returns the oldest bytes, as many as asked for and there are; the window grows by as much |
| `TcpStreams.DuplexInOrder` | `net/tcp.c:238-277` | both directions of one connection at once, under any sequence of calls and segments |
| `TcpStreams.NoByteLost` | `net/tcp.c:140-277` | two ends over a lossy, repeating, reordering network: what is read is a prefix of what was sent, and every accepted byte is at the receiver or still in the send buffer |
| `TcpStreams.PresentIsSent` | `net/tcp.c:258-277` | the present rcv_nxt is always among the values that can still arrive |
| `TcpStreams.LatestAckDrops` | `net/tcp.c:243-255` | when it arrives, the send buffer holds exactly the bytes not yet received |
| `TcpConn.Connection.Send` | `net/tcp.c:140-165` | all of the data is appended, or nothing, exactly when established and fitting |
| `TcpConn.Connection.Receive` | `net/tcp.c:168-195` | the oldest bytes leave the buffer by a move within it and the window reopens |
| `TcpConn.Connection.ProcessAck` | `net/tcp.c:243-255` | the move within the send buffer is the specified acknowledgement |
| `TcpConn.Connection.ProcessData` | `net/tcp.c:258-277` | the copy into the receive buffer is the specified data step |
| `TcpConn.ParseLayout` | `net/tcp.c:204-206` | every field the receiver reads, at its bytes of the segment, least significant first |
| `TcpConn.CarriesSlice` | `net/tcp.c:238-277` | a raw segment whose bytes 4 to 7 number a byte of the stream and whose bytes behind the data offset are the stream from there is the arrival of that slice |
| `TcpConn.Connection.Process` | `net/tcp.c:223-288` | only an established connection changes, and as the segment says |
| `TcpConn.Serve` | `net/tcp.c:140-277` | any sequence of sends, reads and such raw segments on one connection object: what was read is a prefix of the peer's stream, and the send buffer is the unacknowledged suffix of what was accepted |
| `TcpConn.AckBit` | `net/tcp.c:243` | the mask tests the ACK flag |
| `Tcp.TcpLayer.ReceivePacket` | `net/tcp.c:198-298` | a segment too short for its header changes nothing; otherwise only the first connection with its addresses and ports can change |
| `Tcp.TcpLayer.Lookup` | `net/tcp.c:210-220` | finds the first such connection, or none |
| `Tcp.AddressedBytes` | `net/tcp.c:210-220` | a segment belongs to a connection exactly when bytes 0-1 are its remote port, bytes 2-3 its local port, and the addresses agree |
| `Tcp.OpenedIs` | `net/tcp.c:60-98` | a new connection is closed, has nothing buffered, its whole window open, and is numbered as configured |
| `Tcp.DefaultOpened` | `net/tcp.c:69-80` | without a configuration a connection has windows of 65535 bytes in 16 blocks and starts at 0 |
| `Tcp.TcpLayer.CreateConnection` | `net/tcp.c:41-108` | adds one closed connection owning fresh blocks, or leaves bitmap, counter and list as they were |
| `Tcp.TcpLayer.CloseConnection` | `net/tcp.c:111-137` | a connection in the list is unlinked and exactly its blocks return; one that is not in the list is freed all the same, list and counter unchanged |
| `Tcp.TcpLayer.Cleanup` | `net/tcp.c:30-38` | closes every connection and restores the rest of the bitmap |
| `TcpOptions.ParseDecoded` | `net/tcp.c:384-450` | on any list of well-formed options the parser succeeds and applies exactly them, in order, up to END |
| `TcpOptions.AcceptsExactly` | `net/tcp.c:384-450` | it succeeds on exactly the areas that decode |
| `TcpOptions.ParseOptions` | `net/tcp.c:384-450` | the loop ends, stays inside the option area and computes that result on arbitrary bytes |
| `TcpOptions.Settings.Set` | `net/tcp.c:417-443` | unknown kinds and wrong lengths change nothing |
| `TcpOptions.BuildOptions` | `net/tcp.c:453-500` | writes exactly the specified bytes, at most 20, and a data offset that announces them |
| `TcpOptions.BuiltLayout` | `net/tcp.c:453-500` | the built bytes, by kind and length, padded with NOPs to a multiple of four |
| `TcpOptions.ParseKinds` | `net/tcp.c:384-450` | what the parser makes of each kind and length of option |
| `TcpOptions.RoundTrip` | `net/tcp.c:384-500` | parsing what was built recovers every configuration from a zeroed one, and from another exactly when it sets nothing beyond it |
| `SocketSpec.CreateConsistent` | `net/tcp.c:54-107` | creation takes blocks nobody had, or changes nothing at all |
| `SocketSpec.CreatedExactly` | `net/udp.c:45-88` | creation succeeds exactly below 256 elements, with an unused key where that is checked, and when every allocation does |
| `SocketSpec.PagesExactly` | `net/udp.c:82` | a buffer gets as many blocks as its size needs and no more |
| `SocketSpec.CloseConsistent` | `net/udp.c:96-119` | closing returns exactly the element's own blocks |
| `SocketSpec.BuffersApart` | `net/tcp.c:68-88` | no two buffers, of one connection or of two, share a block, and none shares one with a structure |
| `SocketSpec.RunConserves` | `net/udp.c:27-119` | over every sequence of creations, closings and cleanups of one layer: one owner per block, nothing else marked, the counter right, distinct keys for UDP; cleanup restores bitmap and counter |
| `Udp.UdpLayer.CreateSocket` | `net/udp.c:38-93` | adds one socket owning fresh blocks, or leaves everything as it was: at the limit, for a port in use, or when memory is short |
| `Udp.UdpLayer.InUse` | `net/udp.c:49-57` | finds a socket with the same address and port exactly when there is one |
| `Udp.UdpLayer.CloseSocket` | `net/udp.c:96-119` | a socket in the list is unlinked and exactly its blocks return; one that is not in the list is freed all the same, list and counter unchanged |
| `Udp.UdpLayer.Cleanup` | `net/udp.c:27-35` | closes every socket and restores the rest of the bitmap |
| `NetPackets.PacketExactly` | `net/net.c:140-155` | a packet can be had exactly for 1 to 1518 bytes with two blocks free |
| `NetPackets.PacketPool.AllocPacket` | `net/net.c:140-164` | takes exactly two fresh blocks, or leaves bitmap and counter as they were |
| `NetPackets.PacketPool.FreePacket` | `net/net.c:167-177` | on any fields, frees exactly what they name and the structure; counter and bitmap keep agreeing if and only if all of those blocks are in use and none is freed twice |
| `NetPackets.ClearsExactly` | `net/net.c:167-177` | freeing clears exactly the packet's two blocks of the bitmap if and only if its fields name its data block and no other block in use |
| `NetPackets.FreeRestoresExactly` | `net/net.c:167-177` | it also keeps the counter right if and only if the fields name the data block and no other block of memory; up to a page, if and only if the data pointer is in its page and the length is not zero |
| `NetPackets.FreeConsistentExactly` | `net/net.c:167-177` | with any other packets live, exactly then bitmap and counter stay right |
| `NetPackets.AllocThenFree` | `net/net.c:140-177` | a new packet has the size asked for, points at the start of its block, and freeing it leaves the allocator and the other packets as they were |
| `NetPackets.RunConservesExactly` | `net/net.c:140-177` | over every run of allocations, field changes and frees of any number of packets, exactly the live packets' blocks are in use and the counter is right after every call if and only if every free meets that condition |
| `FragmentBuffers.GrantedExactly` | `net/ipv4.c:340-370` | a buffer is granted exactly when fewer than 64 are in use and 16 blocks in a row are found |
| `FragmentBuffers.ReleaseConsistent` | `net/ipv4.c:422-425` | a completed datagram gives back exactly its 16 blocks |
| `FragmentBuffers.CleanupConsistentExactly` | `net/ipv4.c:44-49` | ipv4_cleanup gives every buffer back if and only if each has a length that names all of its blocks; the counter is right either way |
| `FragmentBuffers.WholeExactly` | `net/ipv4.c:44-49` | such a length is above 61440; with the lengths the flags can record only an empty table is cleaned up rightly |
| `FragmentBuffers.BufferTable.CleanupBuffers` | `net/ipv4.c:44-49` | the loop makes exactly those frees |
| `NetRuns.StepKeepsExactly` | `mem/pmm.c:198-224` | a call of UDP, TCP, routes, packets or reassembly buffers keeps the holdings of all five, each on top of what the others hold, and the counter; for a free of a packet, if and only if its fields name its own block and no other, and for ipv4_cleanup, if and only if every buffer is named whole |
| `NetRuns.RunKeepsExactly` | `mem/pmm.c:198-224` | the same after every call of every interleaving of their calls on one allocator |
| `NetRuns.OneOwnerEach` | `mem/pmm.c:198-224` | then every block in use beyond the start belongs to exactly one object of one client, the counter is their number, and bitmap and counter are those of the start once all objects are gone |
| `NetRuns.EndReturnsOwn` | `mem/pmm.c:217-224` | closing a socket or connection, removing a route, freeing a packet or releasing a buffer returns exactly its own blocks and leaves every other holding as it was |
| `NetStack.Stack.LayersValid` | `mem/pmm.c:198-224` | each layer on its objects is valid on top of what the others hold |
| `NetStack.Stack.CreateSocket` | `net/udp.c:38-93` | udp_create_socket beside the other layers: all of them stay valid |
| `NetStack.Stack.CloseSocket` | `net/udp.c:96-119` | udp_close_socket beside the other layers; a socket that is not in the list changes the allocator alone |
| `NetStack.Stack.CleanupUdp` | `net/udp.c:27-35` | udp_cleanup beside the other layers |
| `NetStack.Stack.CreateConnection` | `net/tcp.c:41-108` | tcp_create_connection beside the other layers |
| `NetStack.Stack.CloseConnection` | `net/tcp.c:111-137` | tcp_close_connection beside the other layers; a connection that is not in the list changes the allocator alone |
| `NetStack.Stack.CleanupTcp` | `net/tcp.c:30-38` | tcp_cleanup beside the other layers |
| `NetStack.Stack.AddRoute` | `net/ipv4.c:435-467` | ipv4_add_route beside the other layers |
| `NetStack.Stack.RemoveRoute` | `net/ipv4.c:469-487` | ipv4_remove_route beside the other layers |
| `NetStack.Stack.AllocPacket` | `net/net.c:140-164` | net_alloc_packet beside the other layers |
| `NetStack.Stack.FreePacket` | `net/net.c:167-177` | net_free_packet of a live packet on any fields: all layers stay valid if and only if the fields name its own block and no other |
| `NetStack.Stack.TakeBuffer` | `net/ipv4.c:364-370` | the allocation for a first fragment beside the other layers |
| `NetStack.Stack.ReleaseBuffer` | `net/ipv4.c:422-425` | the release of a completed datagram beside the other layers |
| `NetStack.Stack.CleanupIpv4` | `net/ipv4.c:40-50` | routes and buffers are freed; all layers stay valid if and only if every buffer in use has a length that names all of it |
| `RxRingSpec.RunKeepsInv` | `drivers/e1000.c:292-334` | every interleaving of device and driver steps keeps the ring invariant |
| `RxRingSpec.BetweenReceives` | `drivers/e1000.c:327-331` | between calls RDT is rx_cur - 1 modulo 32, DD is set exactly from rx_cur up to RDH, ready and device-owned descriptors are 31 |
| `RxRingSpec.DeviceOverwritesNothing` | `drivers/e1000.c:292-331` | the device never writes a descriptor that is done, nor the one the driver has found done and works on |
| `RxRingSpec.RunDelivers` | `drivers/e1000.c:292-334` | packets returned are the stored frames, whole and in order; those to come are in the ring; only a frame for a full ring is refused |
| `RxRingSpec.TakenExactly` | `drivers/e1000.c:298-314` | with any frames arriving between the test of DD, the read of the length and the allocation: exactly which head frame is taken |
| `RxRingSpec.StuckForever` | `drivers/e1000.c:304-314` | any other head frame ends reception: nothing is returned again and at most 31 frames wait |
| `RxRingSpec.CopyFinishes` | `drivers/e1000.c:317-333` | a frame once allocated is returned by the remaining accesses |
| `E1000.Device.constructor` | `drivers/e1000.c:66-88` | initialisation establishes the invariant |
| `E1000.Device.Begin` | `drivers/e1000.c:298-314` | the test, the read of the length and the allocation, with traffic in between, find the oldest frame and refuse exactly what no packet can hold |
| `E1000.Device.ReceivePacket` | `drivers/e1000.c:292-334` | with frames arriving between any two accesses: returns the oldest frame, byte for byte, exactly when there is one that a packet can hold |
| `CanFrames.IdRegisterIs` | `drivers/can.c:335-337` | the identifier register is the sum of its fields, identifiers cut to 11 or 29 bits |
| `CanFrames.EncodeLayout` | `drivers/can.c:335-352` | the registers of a transmitted frame, byte by byte |
| `CanFrames.DecodeLayout` | `drivers/can.c:286-304` | a received frame, bit by bit of its registers |
| `CanFrames.DecodeEncode` | `drivers/can.c:286-352` | exactly what survives a trip through the mailbox |
| `CanFrames.RoundTripExactly` | `drivers/can.c:286-352` | a frame is received unchanged if and only if its identifier fits its kind and its length four bits |
| `CanFrames.MatchesExactly` | `drivers/can.c:367-377` | a frame matches a filter exactly when kinds agree and all masked bits agree |
| `CanRing.FullExactly` | `drivers/can.c:316-317` | the ring is full exactly at 63 waiting frames and empty exactly at none |
| `CanRing.RunKeepsInv` | `drivers/can.c:123-132` | every interleaving of interrupts, accesses and filter changes keeps the ring invariant |
| `CanRing.InterruptSparesTail` | `drivers/can.c:316-319` | the interrupt never touches the frame being copied out |
| `CanRing.AddAccepts` | `drivers/can.c:139-170` | adding a filter accepts what was accepted before and what it matches, when one of 14 places is unused; otherwise nothing changes |
| `CanRing.RemoveWithdraws` | `drivers/can.c:174-180` | removing a place withdraws exactly that place |
| `CanRing.AcceptedExactly` | `drivers/can.c:308-313` | after any run a frame is accepted if and only if some filter that was added and not since removed matches it |
| `CanRing.RunDelivers` | `drivers/can.c:282-328` | frames returned and then those waiting are, in order, the arrivals that a filter matches which was added and not since removed, minus those that found 63 waiting |
| `Can.FrameAccepted` | `drivers/can.c:308-313` | the loop finds a matching active filter exactly when there is one |
| `Can.Receiver.RxInterrupt` | `drivers/can.c:282-328` | all pending mailboxes are decoded, filtered and queued as specified; a registered callback gets exactly the frames queued, in order |
| `Can.Receiver.ReceiveFrame` | `drivers/can.c:123-132` | with interrupts between its accesses: returns the oldest frame exactly when there is one |
| `Can.Receiver.Add` | `drivers/can.c:134-172` | the filter takes the first unused place, or is refused exactly when all 14 are in use |
| `Can.Receiver.Remove` | `drivers/can.c:174-187` | exactly that place becomes unused |
| `Can.Transmitter.SendFrame` | `drivers/can.c:101-121` | queues the frame exactly when its length is at most 8 and fewer than 31 are waiting; then, when the mailbox is empty, the oldest frames go out at once |
| `Can.Transmitter.TxInterrupt` | `drivers/can.c:330-357` | the oldest frames go out encoded, in order, as long as mailboxes are free |
| `Witnesses.ScanHangs` | `proc/process.c:191-266` | create a process and terminate it before it runs: the next yield never returns |
| `Witnesses.BlockedRunsAgain` | `proc/process.c:155-171` | sleep, run again, block: the next yield runs the process although nobody unblocked it |
| `Witnesses.SleepAtTheWrap` | `proc/process.c:155-161` | a sleep of two ticks that ends at once, and one of one tick that never ends |
| `Witnesses.RingSticks` | `drivers/e1000.c:304-314` | an empty first frame, or one of 1519 bytes, stops a fresh ring |
| `Witnesses.EmptyPacketLeaks` | `net/net.c:172-174` | a packet of length 0 whose data block stays in use |
| `Witnesses.OverlongPacketMiscounts` | `net/net.c:172-176` | a packet of length 8000 before a free block: both its blocks come back, and the counter is 0 with a block in use |
| `Witnesses.CleanupLeaks` | `net/ipv4.c:44-49` | a datagram of known length 512 in progress: 15 of the 16 blocks of its buffer stay in use |
| `Witnesses.DoubleFreeMiscounts` | `mem/pmm.c:46-49` | after a double free the counter says 0 while a block is in use |
| `Witnesses.ValidHeaderRefused` | `net/ipv4.c:172-178` | a header that is valid for RFC 1071 and refused |
| `Witnesses.FirstFragmentChecksum` | `net/ipv4.c:297-314` | the checksum of one first fragment, as a number |
| `Witnesses.TwoFragmentsLost` | `net/ipv4.c:379` | 24 bytes at MTU 36: both fragments arrive and the packet never appears |
| `Witnesses.OneFragmentDelivered` | `net/ipv4.c:264-432` | 8 bytes make one fragment: it arrives and the packet is returned |
| `Witnesses.SmallExists` | `mem/vmm.c:268-276` | the directory of the next row exists |
| `Witnesses.FailedCloneLeaks` | `mem/vmm.c:268-276` | a directory with two writable pages and three free frames: the clone fails and the bitmap has changed |
| `Witnesses.KernelOnlyExists` | `mem/vmm.c:211-226` | the directory of the next row exists |
| `Witnesses.FreedCloneUnderSource` | `mem/vmm.c:211-226` | a directory with one kernel page is cloned, the clone is freed, and the source's table is marked free |

## Left out

- Boot code, GDT, IDT and PIC setup, port I/O, HAL, inline assembly: hardware effects; `process_switch` is modelled without the register and address-space switch, and TLB flushes are left out.
- VGA, console and keyboard: user interface; the keyboard ring repeats the CAN ring.
- `pmm_init`: the model starts from a bitmap that agrees with its counter and has block 0 reserved, since address 0 doubles as failure.
- Pointers returned by the allocator are treated as direct access to physical frames; virtual addresses matter only where `vmm_clone_directory` copies through the current directory, so the source of a clone must be the current one. The two buffers of a TCP connection are arrays of their own; that the blocks recorded for them are disjoint is `SocketSpec.BuffersApart`.
- The frames of a process when the scheduler reaps it: reaping is removal from the list. What freeing its directory does to the others is `AddressSpaces.FreeSparesExactly`; the copied pages of a finished process are never freed by the source.
- The allocations of `process_create`, process names, priorities, resources, exit codes and threads.
- Sending and receiving on an interface: `ipv4_send_packet` and `ipv4_receive_packet` appear through their header work and checksum test only; whether an allocation or send succeeds is a parameter.
- IPv4 header options; the length of a packet to fragment counts its header.
- 16-bit header fields are kept in host byte order, as the source stores them.
- TCP handshake, retransmission, timers, RTT, RST and FIN (marked TODO in the source): connections are taken in the state ESTABLISHED and rcv_nxt is where the peer's stream starts; the addresses of a received segment are parameters because `net_packet_t` has no such fields.
- UDP transmission and receive buffering: the IP header is written over the UDP header, and the space check ignores the read position.
- `ipv4_cleanup` leaves the pointers of the freed buffers in the table; the model forgets the table, as the next `ipv4_init` does. Which frame a buffer's bytes are in is kept in `FragmentBuffers`, the bytes themselves in `Reassembly`.
- Interface registration, protocol handlers, receive and transmit queues, statistics counters.
- The allocation of the e1000 ring itself and the transmit ring, whose wait on a zero status never ends.
- CAN timing, modes and error handling; what a receive callback does with its frames, and a transmit interrupt that preempts the transmit routine called from `can_send_frame`; the register masks IDE, RTR, TXRQ and DLC are those of the STM32F4 controller, whose header is not part of this model.
- Address conversion with sscanf and sprintf, string names of states.
- Null-pointer checks: references of the model are never null where the source tests for null arguments.

Contracts that ask more than the code checks, each because the code has no defined outcome otherwise or none worth
keeping:

- VmmClone.CloneDirectory: the source must be the current directory, because the copy reads virtual addresses, and its writable frames must exist and be marked used.
- KernelMap.InitKernelDirectory: memory has at most 2^20 frames, all that 32-bit addresses can name.
- Scheduler.ProcessList.GetNext: requires that the scan ends; `SchedScan.ScanEndsExactly` shows that otherwise the C loop does not.
- Scheduler.ProcessList.BlockProcess: idle is never blocked.
- Scheduler.ProcessList.TerminateProcess: idle is never terminated.
- Scheduler.ProcessList.SleepFor: idle never sleeps.
- Scheduler.ProcessList.ExitCurrent: idle never exits.
- SchedRuns.BoundedWait: process identifiers are distinct.
- Fragmentation.FragmentPacket: the MTU leaves room for eight bytes of data and the packet is shorter than 65536 bytes, because lengths are kept in 16 bits.
- Reassembly.Ipv4Layer.Reassemble: the fragment carries the bytes its header announces and lies within 64 units, the size of `fragments[64]`.
- Completion.CompletesExactly: every fragment of the datagram finds a buffer and a packet; `Completion.HandsUpExactly` is the statement without that.
- RoundTrip.ShuffledReassembly: no buffer of the datagram is in use at the start, and the allocations for its own fragments succeed.
- Routes.RouteTable.Find: the list is sorted, as `RouteRuns.RunTracks` shows it always is.
- TcpConn.Connection.Send: the data does not come within 64 KB of filling the 32-bit address space; such a buffer cannot exist beside the connection's own.
- TcpConn.Connection.Process: the same for a segment.
- TcpStreams.NoByteLost: fewer than 2^32 bytes are accepted, since beyond that sequence numbers no longer tell positions apart.
- TcpOptions.ParseOptions: the data offset is at least 5, because the option length is computed unsigned, and the header is as long as it says.
