# Verified models of MOS

MOS is a small MIPS kernel with a user-level file server. This project models its
memory management, scheduler, messages, copy-on-write fork, pipes, file-system
blocks, image builder, program loader and number printing in Dafny, and proves
what they promise for all inputs and over whole runs.

`dafny verify dfyconfig.toml` checks everything.

## How the parts fit

| files | what they model |
|---|---|
| `Mmu.dfy`, `AddressSpaces.dfy`, `EnvRelease.dfy` | page-table words, address spaces as flat maps with reference counts and the free list, and what freeing an environment gives back |
| `Translation.dfy`, `PageTables.dfy`, `Kernel.dfy`, `KernelRuns.dfy`, `KernelFailures.dfy` | the words in physical memory, the TLB, the kernel code as a class that writes those words, whole runs from boot on, and runs in which it fails |
| `EnvIds.dfy` | environment ids and their lookup |
| `Fork.dfy`, `ForkLoop.dfy`, `ForkOrder.dfy` | copy-on-write fork as interleaved system calls, faults and stores, against an eager fork; its loop over all pages; and what the other order of its two calls would do |
| `Queues.dfy` | the LIST and TAILQ macros on cells and back-pointers, against sequences |
| `Scheduling.dfy`, `TimeSlices.dfy`, `Scheduler.dfy`, `ListRuns.dfy`, `Messages.dfy`, `SchedulerFailures.dfy` | run queue, slices and messages; how long an environment runs; the kernel code as a class on top of the queues; runs with the links in memory; sending with a page; runs in which the list breaks |
| `PipeEnds.dfy`, `PipeCalls.dfy`, `PipeRings.dfy` | the closed test of pipes under dup, close and fork; those calls from beginning to end; and the byte ring |
| `FsLayout.dfy`, `FileBlocks.dfy`, `FileServer.dfy`, `FileRuns.dfy` | bitmap, links and ownership of disk blocks; the file server's code as a class; whole runs with the nodes of files in the pages of directories |
| `FsFormat.dfy` | the image builder, and that its images meet the server's invariant |
| `ElfLoader.dfy`, `InitStack.dfy`, `Print.dfy` | segment loading, the argument page of a new program, number formatting |

Kernel code runs with interrupts off, so each system call, exception and timer
interrupt is one step. User-level protocols interleave at every system call, and
pipes at every test and every byte.

The classes (`Kernel`, `LinkMemory`, `Scheduler`, `PipePage`, `FileServer`,
`Formatter`, `AddressSpace`, `EnvTable`) follow the C code statement by statement.
Each method is tied to a function of the old state, and the lemmas about those
functions say what the code is for.

## Where the code does less than it should

These are results about the code as it stands. Each has the exact condition, or the
state in which the promise fails.

- `EnvRelease.LosesNothingIff`, `KernelRuns.CoherentIff`, `KernelFailures.StaleTableRun`:
  a program that reads `vpt` beyond ULIM is given page tables in the kernel half of its
  directory, which `env_free` neither frees nor flushes. That leaves the counts exact, but
  the pages are lost; the TLB stays coherent exactly as long as no destroyed environment
  leaves a valid half for such a table. The run ends with the next owner of the ASID
  hitting a table it does not have.
- `Translation.HitsAreCurrentIff`, `KernelFailures.GlobalPairRun`: system calls pass PTE_G
  on. Hits are current exactly when no environment maps a global pair that another one
  does not; two allocations and one refill break that.
- `KernelRuns.CountedIff`, `AddressSpaces.WidePermIff`: permissions are 32 bits wide and
  ORed into the entry, and `pp_ref` is 16 bits wide. Along every run the counts are exact
  exactly as long as no insertion changes the number of the page that it stores or counts
  a 65536th reference. `KernelFailures.WidePermStep` and `KernelFailures.CountWrapsStep`
  are one step of each kind; clear upper bits are what leaves every number alone
  (`Mmu.ClearBitsKeepPages`).
- `ListRuns.ListInMemoryIff`: the links of `env_sched_list` spell exactly the runnable
  environments in every state of a run exactly as long as no entry wakes a receiver by
  `sys_set_env_status`, and none destroys an environment off the list whose links
  disagree with the queue, since `env_free` removes unconditionally. The ways to get there:
  - `SchedulerFailures.NeverQueuedRun`: spawn destroys a child that was never queued when it
    cannot set it up; its links are null and the kernel panics.
  - `SchedulerFailures.DestroyedReceiverRun`: a receiver is destroyed after the queue has moved
    on, and a runnable environment is lost.
  - `SchedulerFailures.FlagOutlivesRun`: the flag of a destroyed receiver is never cleared, so
    the next environment in its slot is taken for a receiver; `SchedulerFailures.ReceiverQueuedTwice`
    is what the next message to it does.
- `Messages.MappingWorksIff`, `Messages.SysIpcTrySend`: a message whose page cannot be mapped
  is delivered all the same, and the sender is told that it failed.
- `PipeRings.EmptyTestIsRightIff`, `PipeRings.JammedForGood`: once 2^32 bytes have
  been written the reader takes the pipe for empty for ever.
- `PipeEnds.ClosedForGood`, `PipeEnds.ForkMisleadsTest`: fork copies all Fd pages before the
  data pages. An answer that a pipe is closed is right exactly when no more descriptors
  are half copied than half closed, so always while no fork is under way; the run is a
  reader that tests during a fork and takes a held pipe for closed.
- `FileRuns.OwnedIff`: pages of freed blocks stay in the cache as they are, and clients keep
  the pages that they were given. Along every run ownership of blocks is exclusive exactly
  as long as whatever becomes links is harmless. Three ways to break it:
  - `FileBlocks.StaleDataRun`: a new table of links gets the page of a freed data block, with
    the data on it.
  - `FileRuns.StaleNodeRun`: a new block of a directory does, and the first file created in it
    takes its links from there. No table is made.
  - `FileRuns.StoreToTableStep`: a client stores to a page whose block has become a table.
- `FileBlocks.TruncateConserves`, `FileBlocks.LosesExactly`: truncation panics when it
  has to reach a table that is not there, and forgets blocks past the old size.
- `ElfLoader.LoadsImageIff`, `ElfLoader.LosesFirstPage`: a segment that is unaligned,
  short in the file and longer in memory loses its file data.
- A comment in `init_stack` (user/lib/spawn.c:58) says that `args[argc]` is 0; the code
  stores the address of the last terminator, and the model follows the code.
- `EnvIds.SameIdIff`, `EnvIds.ZeroIdIff`: ids repeat after 2^21 creations, failed ones
  included, and one of them is the id that means the caller.

## Model

| member | source | states |
|---|---|---|
| Mmu.LoKeepsFlags | MOS-lab6-shell/kern/tlbex.c:64-66 | the shift that turns a page-table entry into EntryLo keeps the page number and the valid, dirty and global bits |
| Mmu.ClearBitsKeepPages | MOS-lab6-shell/kern/pmap.c:265 | ORing a permission into an entry leaves every page number alone exactly when its bits above the flags are clear |
| Mmu.OrHasBitsOfBoth | MOS-lab6-shell/kern/pmap.c:245 | a bit of the stored page number is set exactly when the page's or the permission's is |
| Mmu.FlagsAreAsAsked | MOS-lab6-shell/kern/pmap.c:245 | of the stored flags the valid bit and the cache bits are set, and every other one is as asked for |
| Mmu.LegalAddresses | MOS-lab6-shell/kern/syscall_all.c:112-114 | the user addresses that system calls accept, in numbers |
| AddressSpaces.TakeFreeKeepsInv | MOS-lab6-shell/kern/pmap.c:135-152 | taking the first free page keeps the counts and the free list exact |
| AddressSpaces.UnmapKeepsInv | MOS-lab6-shell/kern/pmap.c:303-331 | removing a mapping gives up one reference and frees the page exactly when it was the last |
| AddressSpaces.InsertKeepsInv | MOS-lab6-shell/kern/pmap.c:234-268 | page_insert keeps the invariant in all its cases, also when it fails |
| AddressSpaces.InsertIsFlat | MOS-lab6-shell/kern/pmap.c:234-268 | page_insert changes exactly the entry of its address; re-inserting a page keeps its count; on -E_NO_MEM map, counts and free list are as before; it fails exactly when a table is missing and no page is free |
| AddressSpaces.WidePermIff | MOS-lab6-shell/kern/pmap.c:234-268 | page_insert in all its branches, with a 32-bit permission and a 16-bit count: the counts are exact afterwards exactly when the OR leaves the page number alone and the count has room, which a re-insertion does not need; then it is the insertion with the low twelve bits |
| AddressSpaces.InsertWideMaps | MOS-lab6-shell/kern/pmap.c:234-268 | on success the entry is the word with the OR in it and no other entry changes; it fails exactly when a table is missing and no page is free |
| AddressSpaces.InsertedAsAsked | MOS-lab6-shell/kern/pmap.c:234-268 | in every branch the entry that is left has every flag that was asked for, the valid and cache bits on top, and the bits of the page number |
| AddressSpaces.CountFitsIff | MOS-lab6-shell/include/pmap.h:35 | the 16-bit count is right after one more mapping exactly when it was below 65535 |
| AddressSpaces.UseAsTableKeepsInv | MOS-lab6-shell/kern/tlbex.c:41-42 | a page that the refill handler puts into the UVPT window is from then on a page table, and the counts stay exact |
| EnvRelease.EnvFreedKeepsInv | MOS-lab6-shell/kern/env.c:486-525 | freeing an environment keeps counts, free list and every other address space |
| EnvRelease.GivesBackExactly | MOS-lab6-shell/kern/env.c:486-525 | the pages that become free are exactly those only that environment held, kernel-half tables excepted |
| EnvRelease.LosesNothingIff | MOS-lab6-shell/kern/env.c:494-513 | no page is lost exactly when the environment has no table in the kernel half |
| EnvRelease.FreedAll | MOS-lab6-shell/kern/env.c:494-513 | when the two loops of env_free are through, the state is the one EnvFreed describes |
| EnvRelease.AddDirectoryKeepsInv | MOS-lab6-shell/kern/env.c:283-309 | a new directory holds one reference and nothing else |
| EnvRelease.LoseDirectoryKeepsInv | MOS-lab6-shell/kern/env.c:350-363 | when no ASID is left env_alloc loses the new directory: it stays counted and is never free |
| Translation.WalkFindsEntry | MOS-lab6-shell/include/pmap.h:69-81 | a two-level walk through memory, UVPT self-map and shared windows included, finds the entry of the flat map |
| Translation.HitIsCurrent | MOS-lab6-shell/kern/tlbex.c:13-67 | when global pairs agree, a valid TLB half that the hardware matches for a live ASID is that environment's current entry |
| Translation.HitsAreCurrentIff | MOS-lab6-shell/kern/tlbex.c:48-67 | in a coherent TLB every hit is current exactly when no environment maps a global pair that another one maps differently |
| Translation.InsertKeepsCoherent | MOS-lab6-shell/kern/pmap.c:234-268 | after page_insert and its flush the TLB is still coherent |
| Translation.UnmapKeepsCoherent | MOS-lab6-shell/kern/pmap.c:315-331 | after page_remove and its flush the TLB is still coherent |
| Translation.NewOwnerCoherent | MOS-lab6-shell/kern/env.c:330-379 | giving a flushed ASID to a new environment keeps the TLB coherent |
| Translation.EnvFreeCoherentIff | MOS-lab6-shell/kern/env.c:486-525 | after env_free the TLB is coherent exactly when no valid half for a kernel-half table of the environment is left |
| PageTables.PokeTable | MOS-lab6-shell/kern/pmap.c:262-266 | writing one page-table word in memory changes the flat map at that entry and nowhere else |
| PageTables.PokeNewTable | MOS-lab6-shell/kern/pmap.c:200-213 | a zeroed page entered into a directory is an empty table |
| PageTables.PokeDropTable | MOS-lab6-shell/kern/env.c:508-510 | clearing a directory word removes its table |
| PageTables.PairOf | MOS-lab6-shell/kern/tlbex.c:64-66 | the even-odd pair read around a table word is the pair of entries of the two pages |
| PageTables.StoredNewDirectory | MOS-lab6-shell/kern/env.c:296-308 | the copied windows and the self-map word make a directory whose walks find the template's entries and no others |
| PageTables.BootIsValid | MOS-lab6-shell/kern/pmap.c:97-120 | the state after page_init with the template directory meets the invariant |
| Kernels.AsidTaken | MOS-lab6-shell/kern/env.c:117-128 | setting one bit takes one ASID from those that are free |
| Kernels.AsidsAreOwned | MOS-lab6-shell/kern/env.c:117-143 | two live environments never have the same ASID |
| Kernels.PageInit | MOS-lab6-shell/kern/pmap.c:97-120 | the two loops: pages below the boot mark are counted once, the others not at all and listed with the last one first |
| Kernels.Kernel.constructor | MOS-lab6-shell/kern/pmap.c:97-120 | page_init, the free list of environments and the empty template directory establish the invariant |
| Kernels.Kernel.PageAlloc | MOS-lab6-shell/kern/pmap.c:135-152 | hands out the first free page, zeroed and unreferenced, or -E_NO_MEM with nothing changed |
| Kernels.Kernel.PageDecref | MOS-lab6-shell/kern/pmap.c:303-310 | one reference less; the page goes to the head of the free list exactly when the count reaches 0 |
| Kernels.Kernel.PgdirWalk | MOS-lab6-shell/kern/pmap.c:184-220 | finds the place of the entry in memory; creates exactly the missing table; -E_NO_MEM only when no page is free, and then nothing has changed |
| Kernels.Kernel.PageLookup | MOS-lab6-shell/kern/pmap.c:276-296 | finds a page exactly when the flat map has a valid entry, and that page |
| Kernels.Kernel.PageRemove | MOS-lab6-shell/kern/pmap.c:315-331 | removes exactly that mapping and flushes exactly its TLB entry; nothing happens when there is none |
| Kernels.Kernel.PageInsert | MOS-lab6-shell/kern/pmap.c:234-268 | does to memory what page_insert does to the flat map, for every permission and count, although it removes before the creating walk; the invariant holds afterwards exactly when both fit or the call fails; page contents are untouched |
| Kernels.Kernel.PassiveAlloc | MOS-lab6-shell/kern/tlbex.c:18-43 | backs the faulting page, or inside the UVPT window the page table, with the first free page, zeroed, and writable for users; panics at the forbidden addresses, given in numbers |
| Kernels.Kernel.LookupOrAlloc | MOS-lab6-shell/kern/tlbex.c:60-62 | the loop of the refill handler ends after at most one allocation with a valid entry |
| Kernels.Kernel.DoTlbRefill | MOS-lab6-shell/kern/tlbex.c:48-67 | loads the current entries of both pages of the pair and keeps the TLB coherent |
| Kernels.Kernel.SysMemAlloc | MOS-lab6-shell/kern/syscall_all.c:139-160 | allocates and maps, with the errors of the call and the page it loses when the mapping fails; the kernel's state stays in order exactly when the permission fits |
| Kernels.Kernel.ShareMapping | MOS-lab6-shell/kern/syscall_all.c:195-205 | looks up one environment's page and inserts it for another, or -E_INVAL with nothing changed; in order afterwards exactly when permission and count fit |
| Kernels.Kernel.SysMemMap | MOS-lab6-shell/kern/syscall_all.c:176-206 | maps the source's page at the destination, or fails with the map unchanged; in order afterwards exactly when permission and count fit |
| Kernels.Kernel.SysMemUnmap | MOS-lab6-shell/kern/syscall_all.c:218-234 | removes the mapping at an allowed address |
| Kernels.Kernel.AsidAlloc | MOS-lab6-shell/kern/env.c:117-128 | takes the least free ASID, or fails when all are taken |
| Kernels.Kernel.EnvSetupVm | MOS-lab6-shell/kern/env.c:283-309 | a new directory with the two shared windows and the self-map |
| Kernels.Kernel.EnvAlloc | MOS-lab6-shell/kern/env.c:330-379 | a new environment with an empty user part and an ASID of its own, or the error and what was lost |
| Kernels.Kernel.FreeTable | MOS-lab6-shell/kern/env.c:495-512 | one round of the outer loop of env_free |
| Kernels.Kernel.EnvFree | MOS-lab6-shell/kern/env.c:486-525 | the loops end in the state EnvFreed describes, with directory, ASID and TLB entries given up |
| Kernels.Kernel.MapSegment | MOS-lab6-shell/kern/env.c:152-169 | maps consecutive boot pages at consecutive addresses |
| Kernels.Kernel.EnvInit | MOS-lab6-shell/kern/env.c:268-277 | the two map_segment calls on the state of the constructor map the two arrays, read-only and global, and nothing else, and end in a state in which every run may start |
| Kernels.Boot | MOS-lab6-shell/kern/env.c:242-278 | page_init and env_init together: exact counts, coherent TLB, the two windows on the right pages, read-only and global, and no global user page |
| KernelRuns.StepIsGoodIff | MOS-lab6-shell/kern/syscall_all.c:139-234 | every system call, refill, environment creation, failed creation and destruction keeps the counts exact exactly unless it inserts a page that misfits; and then the TLB coherent exactly unless it leaves a valid half for a kernel-half table |
| KernelRuns.CountedIff | MOS-lab6-shell/kern/pmap.c:135-331 | along every run the counts are exact up to a state exactly when no insertion before it misfitted |
| KernelRuns.EveryRun | MOS-lab6-shell/kern/pmap.c:135-331 | in every such state a page's count is the number of entries that refer to it and fits sixteen bits, and free pages are referred to by none |
| KernelRuns.CoherentIff | MOS-lab6-shell/kern/env.c:486-525 | along every run counts are exact and the TLB is coherent exactly as long as no insertion misfits and no destruction leaves a valid half for a kernel-half table |
| KernelRuns.EveryHit | MOS-lab6-shell/kern/tlbex.c:48-67 | so long, and while global pairs agree, whatever a live environment hits is its current entry |
| KernelRuns.NobodyGlobal | MOS-lab6-shell/kern/syscall_all.c:139-206 | global pairs agree in every run in which no system call asks for PTE_G |
| KernelRuns.BackedWithFirstPage | MOS-lab6-shell/kern/tlbex.c:41-42 | what backs a missing address is the first free page, writable at user addresses only, and never global |
| KernelFailures.GlobalPairRun | MOS-lab6-shell/kern/pmap.c:265 | from every good state: two allocations with PTE_G and a refill, and another environment hits a page it does not have |
| KernelFailures.KernelHalfStep | MOS-lab6-shell/kern/tlbex.c:41-42 | reading vpt beyond ULIM gives the environment a page table in the kernel half, and the TLB a valid half for it |
| KernelFailures.StaleTableRun | MOS-lab6-shell/kern/env.c:494-517 | from every good state: create, read vpt beyond ULIM, destroy, create again; the new owner of the ASID hits a table it does not have, and the table's page is lost |
| KernelFailures.WidePermStep | MOS-lab6-shell/kern/syscall_all.c:139-160 | from every good state with an even page first on the free list: sys_mem_alloc with permission 0x1100 stores an entry for the page after it, and the counts are wrong |
| KernelFailures.CountWrapsStep | MOS-lab6-shell/kern/syscall_all.c:176-206 | from every good state: sys_mem_map of a page with 65535 references leaves its count at 0 with 65536 entries that refer to it |
| EnvIds.SameIdIff | MOS-lab6-shell/kern/env.c:180-183 | two ids are equal exactly for the same slot and a multiple of 2^21 ids apart |
| EnvIds.ZeroIdIff | MOS-lab6-shell/kern/env.c:180-183 | the id 0 is made exactly for slot 0 when the counter wraps |
| EnvIds.EnvTable.GiveId | MOS-lab6-shell/kern/env.c:353-379 | an id is made and stored in the slot whether or not an ASID is left; without one it is spent and the slot stays free |
| EnvIds.EnvTable.EnvId2Env | MOS-lab6-shell/kern/env.c:198-233 | an id other than 0 resolves to its slot exactly when the slot is live and its owner's number is a multiple of 2^21 from the id's, and with checkperm only for the caller and its children |
| Forks.StepRefines | MOS-lab6-shell/user/lib/fork.c:16-102 | each store, fault step, duppage call, allocation and unmapping, and each environment that begins or ends, is a step of the eager machine or invisible to it, and keeps the invariant |
| Forks.ForkRefinesEagerCopy | MOS-lab6-shell/user/lib/fork.c:16-153 | in every run each environment sees the memory that eager copying would give it; library pages stay shared |
| Forks.ReadsAsAtDup | MOS-lab6-shell/user/lib/fork.c:76-153 | over every run a private page reads in the child, and in the parent, as it did when its duppage was finished, until that environment itself writes, unmaps or replaces it |
| Forks.LibraryStaysShared | MOS-lab6-shell/user/lib/fork.c:76-153 | over every run a library page stays one page of parent and child until one of them unmaps or replaces it |
| Forks.OthersDoNotSeeWrites | MOS-lab6-shell/user/lib/fork.c:76-102 | a store changes no other private page of anybody |
| ForkLoops.PassedIsDone | MOS-lab6-shell/user/lib/fork.c:128-133 | when the loop of fork, one system call at a time among everybody's steps, is past a page that was mapped when it began, duppage of that page has been finished |
| ForkLoops.EveryPageIsCopied | MOS-lab6-shell/user/lib/fork.c:128-143 | after the loop every page the parent had is in the child: private ones as they were at their duppage, library ones as the same objects |
| Forks.ChildFirstIsSafe | MOS-lab6-shell/user/lib/fork.c:96-101 | in the order of duppage: over every run, while parent and child share a private page, neither can write it |
| Forks.OtherFlagsStay | MOS-lab6-shell/user/lib/fork.c:16-102 | the flags that copy-on-write is not about come through duppage and the fault handler |
| ForkOrders.DuppageHappens | MOS-lab6-shell/user/lib/fork.c:76-102 | for every page of a parent both calls of duppage can be made, as long as the child has a table or there is a page for one |
| ForkOrders.AllocHappens | MOS-lab6-shell/kern/syscall_all.c:139-160 | whenever a page is free and the table is there or to be had, an allocation without PTE_COW can be made, also over a mapping as long as no call of its owner is half done |
| ForkOrders.DropHappens | MOS-lab6-shell/kern/syscall_all.c:218-234 | a mapped page can be unmapped, as long as no call of its owner is half done |
| ForkOrders.SwappedOrderLeaks | MOS-lab6-shell/user/lib/fork.c:87-101 | with the parent remapped first and a fault in between, the child gets a page the parent can write, and reads what the parent stores after the fork |
| ForkOrders.SwappedRunExists | MOS-lab6-shell/user/lib/fork.c:16-55 | such a run exists from every state with the pages and tables for it |
| Queues.RemoveLinked | MOS-lab6-shell/include/queue.h:233-240 | TAILQ_REMOVE takes one element out of the sequence, leaves it with links that a second removal would not change, and touches nothing outside |
| Queues.RemoveDetached | MOS-lab6-shell/include/queue.h:233-240 | a second TAILQ_REMOVE of the same element leaves the memory as it is |
| Queues.StaleRemoveIff | MOS-lab6-shell/include/queue.h:233-240 | removing an element that is not in the queue is harmless exactly when it has been queued before and its stale links agree with the queue; an element that never was has null links, and the removal stores through null |
| Queues.NeverQueuedFaults | MOS-lab6-shell/include/queue.h:233-240 | removing an element that was never queued takes the end of the queue away and stores through null |
| Queues.FrameKeepsOthers | MOS-lab6-shell/include/queue.h:121-257 | a macro on one queue keeps every other queue of the memory |
| Queues.FrameTwoKeepsOthers | MOS-lab6-shell/include/queue.h:249-257 | a concatenation keeps every third queue of the memory |
| Queues.Concatenated | MOS-lab6-shell/include/queue.h:249-257 | the writes of TAILQ_CONCAT spell the second sequence after the first and empty the second queue |
| Queues.LinkMemory.ListInsertHead | MOS-lab6-shell/include/queue.h:149-155 | the new element comes first |
| Queues.LinkMemory.ListInsertAfter | MOS-lab6-shell/include/queue.h:121-127 | the new element comes right after the given one |
| Queues.LinkMemory.InsertBefore | MOS-lab6-shell/include/queue.h:135-141 | the new element comes right before the given one (the same writes in LIST_INSERT_BEFORE and TAILQ_INSERT_BEFORE) |
| Queues.LinkMemory.ListRemove | MOS-lab6-shell/include/queue.h:161-166 | the element is taken out and the rest stays in order |
| Queues.LinkMemory.TailqInit | MOS-lab6-shell/include/queue.h:191-195 | an empty queue |
| Queues.LinkMemory.TailqInsertHead | MOS-lab6-shell/include/queue.h:197-205 | the new element comes first |
| Queues.LinkMemory.TailqInsertTail | MOS-lab6-shell/include/queue.h:207-213 | the new element comes last |
| Queues.LinkMemory.TailqInsertAfter | MOS-lab6-shell/include/queue.h:215-223 | the new element comes right after the given one |
| Queues.LinkMemory.TailqRemove | MOS-lab6-shell/include/queue.h:233-240 | whatever the links are, does the writes of the macro, with the store through null told apart; an element of the queue is taken out, and a repeated removal changes nothing |
| Queues.LinkMemory.TailqConcat | MOS-lab6-shell/include/queue.h:249-257 | the second queue is moved behind the first and is left empty; every other queue stays |
| Scheduling.ScheduleRuns | MOS-lab6-shell/kern/sched.c:17-53 | schedule runs a runnable environment that is then at the head of the list; it panics exactly when none is runnable |
| Scheduling.ExecKeepsRunningIff | MOS-lab6-shell/kern/syscall_all.c:250-451 | every kernel entry keeps the list exact, receivers off it, and the current environment at its head, exactly unless it wakes a receiver by sys_set_env_status |
| Scheduling.RestatusKeepsRunningIff | MOS-lab6-shell/kern/syscall_all.c:287-317 | for another environment than the current one, a valid change of status keeps the list exact exactly when no receiver is made runnable |
| Scheduling.ListIsExactIff | MOS-lab6-shell/kern/syscall_all.c:287-451 | along every run the list is exact exactly as long as no receiver is woken that way |
| Scheduling.EveryStateIsRunning | MOS-lab6-shell/kern/env.c:14-15 | so it is in every state of a run without such an entry |
| Scheduling.IsRunInTime | MOS-lab6-shell/kern/sched.c:38-50 | an environment that stays on the list is run within max(count,0)+1 plus the sum of max(1, pri) of those before it, in calls of schedule |
| TimeSlices.RunsItsSlices | MOS-lab6-shell/kern/sched.c:38-50 | once picked an environment keeps the CPU until the timer has struck max(1, pri) times, unless it gives it up; with that tick it goes to the next on the list, or to itself when it is alone |
| TimeSlices.YieldGivesUp | MOS-lab6-shell/kern/sched.c:38-50 | whoever yields is not run again before the next on the list |
| TimeSlices.EntryOnBlocks | MOS-lab6-shell/kern/syscall_all.c:250-451 | along every run each entry changes status, priority and id of every environment exactly as it should; a child has its parent's priority |
| Scheduling.NewcomersDoNotOvertake | MOS-lab6-shell/kern/syscall_all.c:302-310 | one that joins the list later is not run earlier |
| Scheduling.ReceivesMatchDeliveries | MOS-lab6-shell/kern/syscall_all.c:364-451 | an environment is waiting exactly when it has received once more than it was sent to |
| Scheduling.EveryReturnIsMatched | MOS-lab6-shell/kern/syscall_all.c:364-451 | whenever it runs, each of its receives was answered by exactly one send |
| Scheduling.MessageArrives | MOS-lab6-shell/kern/syscall_all.c:426-437 | value, the sender's id and every bit of the permission of that send, with the valid bit set on top, are what it finds until it receives again |
| Schedulers.Scheduler.Schedule | MOS-lab6-shell/kern/sched.c:17-53 | on the linked list, with an environment that may have left it already, does what the specification of schedule says |
| Schedulers.Scheduler.SysIpcRecv | MOS-lab6-shell/kern/syscall_all.c:364-387 | removes the caller, and then schedule removes it again without effect |
| Schedulers.Scheduler.SendMessage | MOS-lab6-shell/kern/syscall_all.c:405-437 | delivers exactly to a receiving environment; the error otherwise, with nothing changed |
| Schedulers.Scheduler.SysSetEnvStatus | MOS-lab6-shell/kern/syscall_all.c:287-317 | joins or leaves the list as the status changes, with the errors for an invalid status and a dead target; the list is exact afterwards exactly unless a receiver is woken |
| Schedulers.Scheduler.EnvDestroy | MOS-lab6-shell/kern/env.c:524-540 | takes a live environment off the list whether it is there or not, and picks another when it was the current one; panics at a null link; the list in memory is right afterwards exactly when it was there or its stale links agree |
| Schedulers.Scheduler.EnvCreate | MOS-lab6-shell/kern/env.c:461-481 | the new environment comes first on the list |
| ListRuns.EntryKeepsExactIff | MOS-lab6-shell/kern/syscall_all.c:250-451 | every kernel entry, with its writes to the links, keeps them in step with the list, exactly unless it wakes a receiver or destroys an unlisted environment whose links disagree |
| ListRuns.ListInMemoryIff | MOS-lab6-shell/kern/env.c:14-15 | along every run the links spell exactly the runnable environments, the current one first, exactly as long as no entry so far was one of those two |
| Messages.MappingWorksIff | MOS-lab6-shell/kern/syscall_all.c:442-450 | the page arrives exactly when none was offered, or it was mapped and a page table was there or to be had; otherwise nothing changes |
| Messages.SysIpcTrySend | MOS-lab6-shell/kern/syscall_all.c:405-451 | delivery and mapping composed: the answer is 0 exactly when the message was delivered and the mapping worked; a failed mapping does not undo the delivery; to the memory system it is one step that maps a page, or nothing, and it keeps the TLB coherent |
| SchedulerFailures.NeverQueuedRun | MOS-lab6-shell/user/lib/spawn.c:222-226 | exofork into a slot used for the first time and destruction of the child before it is runnable: the end of the queue is lost and the kernel panics |
| SchedulerFailures.DestroyedReceiverRun | MOS-lab6-shell/kern/env.c:524 | x receives, y yields, x is destroyed: the stale links drop z, which is running, from the queue in memory |
| SchedulerFailures.FlagOutlivesRun | MOS-lab6-shell/kern/syscall_all.c:364-387 | x receives and is destroyed, fork gives its slot to a child and makes it runnable: the child is on the list and still marked as a receiver |
| SchedulerFailures.ReceiverQueuedTwice | MOS-lab6-shell/kern/syscall_all.c:287-317 | a receiver made runnable by hand is queued twice by the next message to it |
| PipeEnds.PipeCountsBothEnds | MOS-lab6-shell/user/lib/pipe.c:95-118 | the references to a pipe's page and to its two Fd pages differ by exactly the half-closed and the half-copied descriptors |
| PipeEnds.StepKeepsInv | MOS-lab6-shell/user/lib/fd.c:128-178 | every system call of pipe, dup, close, fork, spawn (given up half-way too), kill, exit and closed tests keeps data pages mapped where Fd pages are, but for forks in progress |
| PipeEnds.HalvesAreInProgress | MOS-lab6-shell/user/lib/fork.c:128-143 | only a fork in progress leaves an Fd page without its pipe's page, and only a close or dup in progress a pipe's page without an Fd page |
| PipeEnds.ClosedMeansNobodyIff | MOS-lab6-shell/user/lib/pipe.c:95-118 | when a test answers closed, nobody holds the other end exactly when no more descriptors are half copied than half closed, and always while no fork is under way |
| PipeEnds.ExactWhenQuiet | MOS-lab6-shell/user/lib/pipe.c:95-118 | with no close, dup or fork under way the counts are equal exactly when the other end is gone |
| PipeEnds.ClosedForGood | MOS-lab6-shell/user/lib/pipe.c:240-245 | over every run: an answer closed means that the other end is held by nobody, then and ever after, under the same exact condition |
| PipeEnds.ForkMisleadsTest | MOS-lab6-shell/user/lib/fork.c:128-143 | a run from a quiet state: a reader tests while a fork has copied one Fd page, and is told closed although the writer is there |
| PipeCalls.DupDuplicates | MOS-lab6-shell/user/lib/fd.c:128-178 | over every run: when dup is through, the new descriptor is what the old one is, both pages of it, the old one and all others are as before, and it took two calls, or three with a close |
| PipeCalls.UndoneIff | MOS-lab6-shell/user/lib/fd.c:163-178 | dup undoes what it mapped exactly when the old descriptor is not mapped |
| PipeCalls.CloseCloses | MOS-lab6-shell/user/lib/fd.c:94-105 | over every run: when close is through, or a dup of a descriptor to itself, both pages are gone and all others as before |
| PipeCalls.PipeIsMade | MOS-lab6-shell/user/lib/pipe.c:36-95 | the first descriptor reads and the second writes; each end is held once and the pipe's page twice |
| PipeCalls.ForkCopiesAll | MOS-lab6-shell/user/lib/fork.c:118-153 | over every run: when fork is through, the child has every page that the parent had at its descriptors and no other |
| PipeCalls.ForkGoesOn | MOS-lab6-shell/user/lib/fork.c:128-133 | the loop always has a next page to copy, or is over |
| PipeCalls.EndedIsGone | MOS-lab6-shell/kern/env.c:486-540 | whoever ends is gone with all its pages, and everybody else has what they had |
| PipeCalls.TestIsAnswered | MOS-lab6-shell/user/lib/pipe.c:95-118 | a test that nobody interrupts answers after two reads: closed exactly when the two counts are the same |
| PipeCalls.CanBegin | MOS-lab6-shell/user/lib/fd.c:94-178 | whoever is in no call may begin one |
| PipeCalls.CanContinue | MOS-lab6-shell/user/lib/fd.c:94-178 | whoever is in one may go on |
| PipeCalls.CanEnd | MOS-lab6-shell/kern/env.c:524-540 | the process that runs may end, kill another or give up a child that it is making, and the CPU may go to any other |
| PipeRings.NothingLost | MOS-lab6-shell/user/lib/pipe.c:133-203 | bytes read followed by the bytes on the page are the bytes written, at most 32 in flight |
| PipeRings.StepKeepsInv | MOS-lab6-shell/user/lib/pipe.c:133-203 | every test and every byte of either side keeps that, in any interleaving |
| PipeRings.EveryRunIsFifo | MOS-lab6-shell/user/lib/pipe.c:133-203 | so it holds in every run from a new pipe |
| PipeRings.PositionsAreCounts | MOS-lab6-shell/user/lib/pipe.c:22-26 | below 2^32 bytes rpos <= wpos <= rpos + 32 |
| PipeRings.FullTestIsRight | MOS-lab6-shell/user/lib/pipe.c:192-195 | the writer's test is right whatever has wrapped |
| PipeRings.EmptyTestIsRightIff | MOS-lab6-shell/user/lib/pipe.c:151-154 | the reader's test is right exactly while fewer than 2^32 bytes were written |
| PipeRings.JammedForGood | MOS-lab6-shell/user/lib/pipe.c:151-154 | from then on the reader never gets another byte, but for one transfer whose test had passed |
| PipeRings.ReadReturnsTheStream | MOS-lab6-shell/user/lib/pipe.c:133-160 | a read returns the next bytes of the stream: all it asked for, or some when it sees no more; nothing only when it asked for nothing or saw the pipe empty and closed |
| PipeRings.WriteAppendsTheBuffer | MOS-lab6-shell/user/lib/pipe.c:173-203 | a write returns having appended a prefix of its buffer; short only when the pipe was closed |
| PipeRings.DataIsRead | MOS-lab6-shell/user/lib/pipe.c:146-157 | a read that wants more and for which there is data has moved a byte after three steps of its own, in any interleaving |
| PipeRings.RoomIsFilled | MOS-lab6-shell/user/lib/pipe.c:188-199 | so has a write for which there is room |
| PipeRings.CallsBegin | MOS-lab6-shell/user/lib/pipe.c:143-146 | a call begins with nothing moved and its whole request before it |
| PipeRings.CallsReturn | MOS-lab6-shell/user/lib/pipe.c:146-157 | a call returns as soon as it has it all, or some and sees no more, or is told that the pipe is closed |
| PipeRings.PipePage.TakeByte | MOS-lab6-shell/user/lib/pipe.c:156 | takes the oldest byte in flight |
| PipeRings.PipePage.PutByte | MOS-lab6-shell/user/lib/pipe.c:198 | puts a byte behind those in flight |
| FsLayout.SetBitAt | MOS-lab6-shell/fs/fs.c:208 | changing the bit of one block changes no other block's |
| FsLayout.SetSlotLinks | MOS-lab6-shell/fs/fs.c:452-453 | writing one slot changes that link alone when tables are not shared |
| FileBlocks.TakeTakesOne | MOS-lab6-shell/fs/fs.c:222-226 | taking a free block marks that block used in memory and on disk, and no other |
| FileBlocks.AllocKeepsInv | MOS-lab6-shell/fs/fs.c:234-250 | alloc_block gives the least free block past the super block, owned by nobody; when it fails the free set is as before |
| FileBlocks.TableKeepsInvIff | MOS-lab6-shell/fs/fs.c:379-391 | hanging in a new table keeps ownership exclusive exactly when the old contents of its cache page are harmless |
| FileBlocks.WalkKeepsInvIff | MOS-lab6-shell/fs/fs.c:367-402 | a walk that has to make a table keeps the invariant exactly when the page of the next block is harmless |
| FileBlocks.GrowthKeepsOwnership | MOS-lab6-shell/fs/fs.c:415-439 | growing a file never puts a block into two places; it gains exactly the blocks that stop being free, the least ones; all other slots stay, and those of a new table are what the page of its block held |
| FileBlocks.GrowthKeepsInvIff | MOS-lab6-shell/fs/fs.c:415-439 | file_map_block keeps ownership exclusive exactly when a table that it has to make meets a harmless page: what follows the walk repairs nothing |
| FileBlocks.MapAnswers | MOS-lab6-shell/fs/fs.c:415-439 | file_map_block answers 0 exactly when the slot names a block that can be reached, or one may be allocated and free blocks and pages suffice for it and for a missing table; every error in every other case |
| FileBlocks.AllocAnswers | MOS-lab6-shell/fs/fs.c:234-250 | alloc_block gives the least free block exactly when its page is there or to be had |
| FileBlocks.ClearKeepsInv | MOS-lab6-shell/fs/fs.c:443-457 | clearing a slot frees its block and empties that slot only; the exact condition for an error |
| FileBlocks.ClearFromFrees | MOS-lab6-shell/fs/fs.c:714-716 | the loop gets through exactly when its last slot could be cleared, and frees exactly the blocks of its slots |
| FileBlocks.TruncateConserves | MOS-lab6-shell/fs/fs.c:703-727 | the free set grows by exactly the blocks of the cleared slots, and the table when ten slots are enough; lower slots stay; panics exactly when a slot cannot be reached |
| FileBlocks.CutIsPastTheEnd | MOS-lab6-shell/fs/fs.c:703-720 | the slots that are cleared are exactly those that begin at or past the new size and that the old one reaches, and the table's when ten slots are enough |
| FileBlocks.LosesExactly | MOS-lab6-shell/fs/fs.c:717-720 | blocks that end up used by nobody are exactly those in the table past the old size |
| FileBlocks.DiskNeverFreesUsed | MOS-lab6-shell/fs/fs.c:197-230 | across all takes, frees and write-backs the bitmap on disk never marks free what memory marks used |
| FileBlocks.StaleDataRun | MOS-lab6-shell/fs/fs.c:379-391 | a cached one-block file is truncated, another file needs a table: it gets that block with the data on it, and a slot names a block the disk does not have |
| FileRuns.NodesKeepIff | MOS-lab6-shell/fs/fs.c:537-571 | nodes that are taken into use from the page of a directory's block keep ownership exclusive exactly when their links, their tables' entries included, name blocks in use and in nobody's hands, each once, and no table is a block with nodes |
| FileRuns.StoreTableIff | MOS-lab6-shell/fs/serv.c:206-225 | what is stored to the page of a table keeps ownership exclusive exactly when it would be harmless as the page of a new one |
| FileRuns.StoreNodesIff | MOS-lab6-shell/fs/serv.c:206-225 | a store to any other page does so exactly when the nodes in use on it stay harmless |
| FileRuns.DroppedNodeComesBack | MOS-lab6-shell/user/include/fs.h:26-35 | a node that is given up leaves its size and links on the page, and is the same when it is taken into use again |
| FileRuns.DoKeepsIff | MOS-lab6-shell/fs/fs.c:367-727 | each of growing, truncating, removing, resizing, creating, loading, storing and writing back keeps the invariant exactly unless it makes links of what is not harmless |
| FileRuns.ShrinkGivesBack | MOS-lab6-shell/fs/fs.c:703-727 | truncation frees exactly those blocks; nodes in them are given up; other links stay |
| FileRuns.RemoveGivesBack | MOS-lab6-shell/fs/fs.c:810-832 | a removed file is gone, and the blocks up to its size and its table are free |
| FileRuns.NodesAreSet | MOS-lab6-shell/fs/fs.c:731-743 | setting a size sets it; a created file is what the page of the directory's block has |
| FileRuns.PagesAreMoved | MOS-lab6-shell/fs/fs.c:67-148 | stores reach the page, reads fill it, and writing back brings it to the disk |
| FileRuns.OwnedIff | MOS-lab6-shell/fs/fs.c:367-727 | so along every run the invariant holds up to a state exactly when no operation before it did that |
| FileRuns.EveryRunOwns | MOS-lab6-shell/fs/fs.c:367-727 | so long, owned blocks are owned once and marked used, in memory and on disk, and no table is in a block with nodes in use |
| FileRuns.StaleNodeRun | MOS-lab6-shell/fs/fs.c:537-571 | a cached one-block file is truncated and a file created in an empty directory: the new file's first link is a word of the old text, with no table made |
| FileRuns.StoreToTableStep | MOS-lab6-shell/fs/serv.c:224 | from every state of the server: a store through a page that was given out when its block was data, now a table, makes a slot name a block the disk does not have |
| FileServers.FileServer.FsInit | MOS-lab6-shell/fs/fs.c:348-352 | the server starts with boot, super and bitmap blocks cached and everything else as on the disk |
| FileServers.FileServer.BlockIsFree | MOS-lab6-shell/fs/fs.c:183-193 | answers exactly for the blocks on the disk whose bit is set |
| FileServers.FileServer.FreeBlock | MOS-lab6-shell/fs/fs.c:197-209 | sets the bit of a block on the disk other than block 0 |
| FileServers.FileServer.AllocBlockNum | MOS-lab6-shell/fs/fs.c:217-230 | the least free block from 3 on, taken in memory and on disk, or -E_NO_DISK |
| FileServers.FileServer.AllocBlock | MOS-lab6-shell/fs/fs.c:234-250 | the block mapped, or freed again when no page is to be had |
| FileServers.FileServer.FileBlockWalk | MOS-lab6-shell/fs/fs.c:367-402 | finds the slot, making the table when asked to; all errors |
| FileServers.FileServer.FileMapBlock | MOS-lab6-shell/fs/fs.c:415-439 | the block of the slot, making it when asked to, whatever the page of a new table holds; the exact condition for keeping the invariant |
| FileServers.FileServer.FileClearBlock | MOS-lab6-shell/fs/fs.c:443-457 | frees and empties the slot; keeps the invariant |
| FileServers.FileServer.FileTruncate | MOS-lab6-shell/fs/fs.c:703-727 | does what Truncate says; keeps the invariant |
| FileServers.FileServer.FsSync | MOS-lab6-shell/fs/fs.c:772-779 | every dirty block is on disk as in the cache, every other one as it was |
| FileBlocks.WriteKeepsInv | MOS-lab6-shell/fs/fs.c:67-76 | writing back a cached block keeps the invariant |
| FsFormat.ChunksHold | MOS-lab6-shell/tools/fsformat.c:247-276 | a file gets as many blocks as hold its size and no more |
| FsFormat.AddBlockKeeps | MOS-lab6-shell/tools/fsformat.c:173-185 | one more block for a file keeps links distinct and below nextbno, and all data already stored |
| FsFormat.ImageStartsServer | MOS-lab6-shell/tools/fsformat.c:142-170 | a flushed image meets the invariant of the file server's runs, nodes included, and free is exactly what lies from nextbno on |
| FsFormat.ServedImageStaysExclusive | MOS-lab6-shell/tools/fsformat.c:314-344 | from a finished image on, no run of the server puts a block into two places, as long as what becomes links is harmless |
| FsFormat.ImageHoldsFiles | MOS-lab6-shell/tools/fsformat.c:247-276 | every slot of a regular file holds its block of data, and no slot follows |
| FsFormat.StoredStays | MOS-lab6-shell/tools/fsformat.c:285-312 | what is stored under a directory stays there while more is added |
| FsFormat.Formatter.constructor | MOS-lab6-shell/tools/fsformat.c:105-133 | boot, super and bitmap blocks are set aside; the bitmap has a bit for each block of the disk |
| FsFormat.Formatter.SaveBlock | MOS-lab6-shell/tools/fsformat.c:173-185 | next_block and save_block_link, with the table when slot 10 needs it |
| FsFormat.Formatter.MakeLinkBlock | MOS-lab6-shell/tools/fsformat.c:188-193 | a directory grows by one block of nodes, and its size by BLOCK_SIZE bytes, exactly when slot and blocks are left |
| FsFormat.Formatter.CreateFile | MOS-lab6-shell/tools/fsformat.c:208-244 | the first unused node of the directory, or the first of a new block when all nodes are used; with c entries it is node c, and there is one exactly when the blocks for it are left |
| FsFormat.Formatter.WriteFile | MOS-lab6-shell/tools/fsformat.c:247-276 | the file is stored under the directory and nothing stored before is lost; it goes through exactly when slots and blocks suffice, and takes exactly the blocks that it should |
| FsFormat.Formatter.WriteDirectory | MOS-lab6-shell/tools/fsformat.c:285-312 | the same for a whole directory tree |
| FsFormat.Formatter.FlushBitmap | MOS-lab6-shell/tools/fsformat.c:142-149 | a block is free exactly when it was never handed out |
| FsFormat.Format | MOS-lab6-shell/tools/fsformat.c:314-344 | an image comes out exactly when the trees' blocks fit below NBLOCK and no file is too large; it holds all trees, uses exactly those blocks and meets the invariant |
| ElfLoader.LoadsImageIff | MOS-lab6-shell/lib/elfloader.c:26-61 | each page of the segment's image is mapped once with the right bytes, exactly when the segment is aligned, or its data reaches the first boundary, or nothing follows its data |
| ElfLoader.MemoryIsImage | MOS-lab6-shell/lib/elfloader.c:26-61 | then every address reads its file byte or zero, and other pages are as before |
| ElfLoader.LosesFirstPage | MOS-lab6-shell/lib/elfloader.c:53-59 | otherwise the first page is mapped a second time, empty |
| ElfLoader.AddressSpace.ElfLoadSeg | MOS-lab6-shell/lib/elfloader.c:26-61 | the loops make exactly those mapper calls, in order up to the first that is refused, none with offset + len beyond a page; the answer is 0 exactly when none is refused |
| InitStack.LoadStored | MOS-lab6-shell/user/lib/spawn.c:46-64 | a stored word is read back, and words beside it are untouched |
| InitStack.NothingOverlaps | MOS-lab6-shell/user/lib/spawn.c:20-27 | the words, the argument array and the strings lie in the page, in order and apart |
| InitStack.DecodesOne | MOS-lab6-shell/user/lib/entry.S:5-6 | a page and stack pointer say one argument list only |
| InitStack.InitStack | MOS-lab6-shell/user/lib/spawn.c:8-86 | refused exactly when it does not fit or a call fails; else the child reads back argc and the same strings |
| InitStack.CopyStrings | MOS-lab6-shell/user/lib/spawn.c:33-46 | the strings and their terminators fill the end of the page |
| Print.PrintedReadsBack | MOS-lab6-shell/lib/print.c:215-288 | whatever the padding, the text reads back as sign and number, and its length is the larger of width and need |
| Print.EverythingInPlace | MOS-lab6-shell/lib/print.c:215-288 | blanks are behind when left-adjusted, in front when padded with blanks and nowhere else, the sign is first after them, and letters are in the case asked for |
| Print.DigitsFit | MOS-lab6-shell/lib/print.c:229-242 | a k-bit number has at most k digits, so the buffer of length + 70 is never overrun |
| Print.PrintNum | MOS-lab6-shell/lib/print.c:215-288 | the in-place algorithm prints the layout that was promised |

## Left out

- Device input and output, sys_cgetc, trap frames, assembly and boot allocation: no invariant beyond what the models take as atomic steps.
- sh.c, the user commands, path lookup, serv.c, fsipc.c, file.c, shell variables, sys_wait and sys_exit: user interface and thin wrappers.
- vprintfmt, print_str, print_char: they only dispatch and pad; print_num has the arithmetic.
- Kernels.Kernel.ShareMapping: takes it that every count fits its sixteen bits, which their type guarantees.
- Kernels.Kernel.DoTlbRefill: which entry tlbwr evicts is a free choice, so the victims are a parameter.
- Kernels.Kernel.EnvAlloc: the ASID bitmap is modelled as one flag for each ASID.
- Forks.ForkRefinesEagerCopy: duppage's reading of vpt and its first system call are one step; sharing pages by sys_mem_map outside duppage, and the end of an environment between its own two calls of duppage or between those that copy into it, are not among the steps.
- Scheduling.EveryStateIsRunning: about the list as the specification has it; ListRuns.ListInMemoryIff says when the links in memory follow it.
- Schedulers.Scheduler.EnvCreate: the list stays exact for a slot whose receiver flag is clear, as all are at boot, the only time it is called.
- PipeEnds.ClosedForGood: pipe() and kill are one step each, system calls inside dup and fork do not run out of page tables, and env_runs does not wrap during one test.
- PipeRings.ReadReturnsTheStream: says nothing about data that arrives between the emptiness test and the closed test.
- FileServers.FileServer: the size and links of a node in use are kept apart from the page of its directory's block; FileRuns.Drop puts them back when the node is given up.
- FileRuns.OwnedIff: what is done through a handle to a file whose node's block has been freed is no step; names, types and paths are just words of the pages.
- FileServers.FileServer.ReadBlock: asks for a block that is on the disk and in use; the code panics on others.
- FsFormat.Formatter.SaveBlock: answers false where the program would write past its array of 1024 blocks, for which the code has no check, or would stop at its assertion.
- FsFormat: names, byte order conversion and failing host calls are not modelled.
- ElfLoader.AddressSpace.ElfLoadSeg: the segment lies in the address space, so no address and no counter wraps; permissions are not modelled, and a failing mapper is taken to leave memory as it was.
- InitStack.InitStack: nothing is claimed about argv[argc], which points at the last terminator; words are little-endian, the default of include.mk.
- Print.PrintNum: the caller negates negative numbers; the smallest one is not treated apart.
