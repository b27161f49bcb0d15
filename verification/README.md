# Verified models of the kernel programming projects

Dafny models of four programs, each proved against what the program is for.

**The demand-paging simulator** (`Memory_Management_Simulator`). A reference trace is replayed through a page
table, a coremap, a swap file and one of the replacement algorithms rand, lru, fifo, clock and opt.

- `Paging` is demand paging seen from outside: a run is fixed by the trace and by one victim frame per reference.
  `Belady`, `Recency`, `Competitive` and `SecondChance` prove the theorems about such runs: no schedule of victims
  beats evicting the page used furthest ahead; LRU memory contents are nested by size; LRU, FIFO and CLOCK are
  conservative, hence within the factor m / (m - h + 1) of any schedule that has h of the m frames.
- `LruList`, `OptLists`, `OptPolicy`, `SwapBitmap`, `SwapFile` and `PageTable` are the data structures, updated in
  place as in the source, each refining a simple view; `PolicyViews` has the views of FIFO and CLOCK.
- `Simulator` is the program: `Simulator.Simulator` has the coremap, the page table, physical memory, the counters
  and the policies' data, and `ReplayTrace` shows that every simulation is a run of `Paging` on the same trace whose
  victims are the algorithm's. `Simulation.Simulate` states the consequences for the counters that main prints.
- `Transparency` is about the contents of pages. The program as written does not read an evicted page back, because
  eviction never sets `PG_ONSWAP` (`pagetable.c:44-62`): `Simulation.MeetsAllWrites` says exactly which runs this
  spoils. The module's `Pager` is the same code with three repairs to what the comments there ask for: the victim's
  entry is marked as being on swap; `swap_pagein` is given the frame just allocated (`pagetable.c:180` gives it the
  frame number left in the entry); the swap offset is not overwritten by the status code (`pagetable.c:185`). With
  them memory is flat, whatever the victims.

**Blocked matrix multiplication** (`Memory_Management_Simulator/traceprogs`). `BlockLayout` has the offsets of the
two storage layouts, `BlockedMultiply` the conversions, the blocked product and the plain triple loop. Nothing is
asked of addition and multiplication, and the order of the additions is the same, so the two programs agree for any
fixed operations on entries, rounded ones included.

**The system call interceptor** (`System_Call_Interceptor`). `Interceptor` carries out commands and exits one at a
time; what is logged, and the answer to every command, is given by the history of commands alone. Unloading the module
puts the kernel's handlers back but for that of exit_group. `CallPaths` has the locks and accesses to shared data of
every return path; `Interceptor` records them as it runs, and `Locks` runs any number of threads over any such paths.

**The ext2 image** (`EXT2_File_System`). `DiskBits` and `Ext2Disk` are the bitmaps and the free counts, `Ext2Cp` the
admission test, the writer through direct and indirect pointers and the freeing of a file's blocks, `DirBlock` the
records of directory blocks, read from and written to their bytes, and the lookup and insertion of names, with and
without room for them.

A body that starts with `hide` keeps the definitions named there out of its proof, which then stays small.

## What does not hold as one might expect

- `Simulation.WriteIsLost`, `Simulation.MeetsAllWrites`: version counters start again at each fault.
- `Interceptor.StopAllRefused`, with the history of `Interceptor.StopAllMayFindNothing`: stopping the monitoring of all
  pids is refused only when monitoring is off as a whole. That is when no pid is monitored, unless monitoring was started
  one pid at a time and the last pid monitored has gone; `listcount` counts every pid twice (`interceptor.c:108` and
  479), so that the flag is never cleared by a count.
- `Interceptor.Module.ExitFunction`: init_function saves the handler of MY_CUSTOM_SYSCALL in the place of that of
  exit_group (`interceptor.c:621`), so that exiting processes run the wrong one and unloading does not restore the
  table, unless the two handlers are the same and exit_group is not intercepted at the time.
- `Locks.UnloadCovered`: exit_function writes the kernel's table while it holds the list lock only
  (`interceptor.c:670-680`), whenever a call is intercepted.
- `Ext2Cp.Admission`: a file of exactly twelve blocks is asked for thirteen free blocks.
- `Ext2Cp.CopyAndRollBack`, with the example of `Ext2Cp.StaleWordFreed`: cp does not clear the words of the pointer
  block that it does not use, and freeing walks all of them. The bitmap and the counts are restored exactly when every
  such word is zero or has a bit in the bitmap block that was clear; a bit of the padding behind the last block counts
  too, because `update_bitmap` does not compare the number with the number of blocks.
- `DirBlock.ReuseTiles`, `DirBlock.SplitTiles`, with the blocks of `DirBlock.ReuseWithoutRoom` and
  `DirBlock.SplitWithoutRoom`: the tests for room look at the old name of a freed record, and round once for two names.
  The block is still one of records afterwards exactly when `DirBlock.Roomy` holds, which a caller can read off the
  block before the call; otherwise the new record is shorter than its name, and a split writes into the next block.

## Model

| member | source | states |
|---|---|---|
| Simulation.Simulate | Memory_Management_Simulator/sim.c:86-163 | The whole program: addresses in memory always match; it stops early exactly when more distinct pages are put out than there are swap slots; hits + misses = references, evictions = max(0, misses - memsize), none of them clean; the version each reference meets is the number of S references plus the number of M references to its page since its page was last loaded, and all versions count all earlier writes if and only if no reference misses a page written before; under opt no choice of victims misses less; under lru, fifo and clock the misses are bounded against any schedule for h of the m frames |
| Simulation.AsNamed | Memory_Management_Simulator/sim.c:130-148 | The victims of a whole simulation are, at every eviction, the furthest next use (opt), the least recent (lru), the longest resident (fifo), the second-chance one (clock), the number drawn modulo the frames (rand) |
| Simulation.OptBeatsAny | Memory_Management_Simulator/opt.c:43-117 | A simulation under opt misses no more often than any schedule of victims on the same trace |
| Simulation.AgainstAny | Memory_Management_Simulator/clock.c:21-35 | A simulation under lru, fifo or clock with m frames against any schedule with h frames: (m-h+1) * misses <= m * (its misses + m - h) |
| Simulation.LruMoreMemory | Memory_Management_Simulator/lru.c:23-82 | Two lru simulations of one trace: the smaller memory's pages are in the larger, and more frames never miss more |
| Simulation.MeetsAllWrites | Memory_Management_Simulator/pagetable.c:43-62 | As written, every reference meets all earlier writes to its page if and only if no reference misses a page written before |
| Simulation.MissMeetsNone | Memory_Management_Simulator/pagetable.c:169-176 | As written, a reference that misses meets a counter of zero |
| Simulation.WriteIsLost | Memory_Management_Simulator/pagetable.c:169-176 | A concrete trace on which a write is lost |
| Belady.Optimal | Memory_Management_Simulator/opt.c:43-52 | For every trace, number of frames and other schedule: evicting a page whose next use is furthest gives the fewest misses after every prefix |
| Belady.AlwaysPaid | Memory_Management_Simulator/opt.c:43-52 | The potential argument: at every point opt's lead in misses pays for the pages it lacks that are due sooner |
| Recency.OrderSorted | Memory_Management_Simulator/lru.c:42-82 | The recency list is sorted by last use, strictly |
| Recency.RunIsOrder | Memory_Management_Simulator/lru.c:23-36 | Evicting least recent pages keeps in memory exactly the pages of the recency list |
| Recency.Inclusion | Memory_Management_Simulator/lru.c:23-82 | After every prefix the pages resident with m frames are resident with m' >= m |
| Recency.MoreMemory | Memory_Management_Simulator/lru.c:23-82 | The lru miss count never rises with more frames |
| Competitive.Conservative | Memory_Management_Simulator/lru.c:23-82 | In any stretch of a run with at most m distinct pages, a policy that spares freshly loaded pages misses at most m times |
| Competitive.LruSparesFresh | Memory_Management_Simulator/lru.c:23-36 | lru does not evict a page loaded in a stretch that has room for all its pages |
| Competitive.FifoSparesFresh | Memory_Management_Simulator/fifo.c:20-23 | fifo does not either |
| SecondChance.ClockSparesFresh | Memory_Management_Simulator/clock.c:21-35 | clock does not either, through both rounds of its hand |
| Competitive.WideStretchMisses | Memory_Management_Simulator/pagetable.c:26-70 | Any policy with h frames misses once for each page beyond h that a stretch has |
| Competitive.AgainstLessMemory | Memory_Management_Simulator/pagetable.c:26-70 | The bound m / (m - h + 1) against any schedule with h frames, from empty memory |
| Competitive.AtMostMTimes | Memory_Management_Simulator/pagetable.c:26-70 | At most m times the misses of any schedule, opt's included |
| SecondChance.RunIsQueue | Memory_Management_Simulator/clock.c:21-45 | The frames, loading times and reference bits of a clock run are those of a second-chance queue |
| Paging.EvictedWereReferenced | Memory_Management_Simulator/pagetable.c:36-63 | Only pages of the trace are put out of memory |
| Paging.LoadedByMiss | Memory_Management_Simulator/pagetable.c:169-176 | The reference that loaded a resident page asked for that page and found it missing |
| PolicyViews.SweepStops | Memory_Management_Simulator/clock.c:24-33 | The sweep stops at the first unreferenced page after the hand, or one round on, and clears exactly the bits passed |
| PolicyViews.HandMeets | Memory_Management_Simulator/clock.c:25-32 | One turn of the hand over the frames is one step of the second-chance queue |
| PolicyViews.LoadedInTurnOldest | Memory_Management_Simulator/fifo.c:20-23 | The frame after the fifo hand is the longest resident |
| PolicyViews.LoadedInTurnEvict | Memory_Management_Simulator/fifo.c:20-23 | Replacing it and moving the hand keeps the frames in loading order from the hand on |
| PolicyViews.ListsHit | Memory_Management_Simulator/lru.c:57-80 | Moving a frame to the end of the list is a hit of the recency list |
| PolicyViews.ListsEvict | Memory_Management_Simulator/lru.c:23-36 | Taking the head and appending it under a new page is an eviction of the recency list |
| LruList.LruList.Init | Memory_Management_Simulator/lru.c:88-96 | An empty list, all links null |
| LruList.LruList.Evict | Memory_Management_Simulator/lru.c:23-36 | Takes the head off; forward links visit exactly the remaining frames once, back links agree but for the head's own |
| LruList.LruList.Ref | Memory_Management_Simulator/lru.c:42-82 | In all five cases the frame becomes the tail and the others keep their order, a lone frame that points back to itself included |
| LruList.LruList.RefMiddle | Memory_Management_Simulator/lru.c:71-79 | Relinking a middle frame moves it to the end |
| OptLists.OccurrencesExact | Memory_Management_Simulator/opt.c:119-134 | A queue of occurrences is exactly the positions of its page in increasing order |
| OptLists.OccurrencesNext | Memory_Management_Simulator/opt.c:99-105 | Its head is the page's next use |
| OptLists.OptChain.Evict | Memory_Management_Simulator/opt.c:47-52 | The head leaves the chain and its frame number is returned |
| OptLists.OptChain.AddToCoremap | Memory_Management_Simulator/opt.c:58-76 | The node goes where the order asks: never used again first, then by decreasing next use |
| OptLists.OptChain.TakeOut | Memory_Management_Simulator/opt.c:81-93 | The node goes, the others stay in order and linked |
| OptPolicy.OptPolicy.constructor | Memory_Management_Simulator/opt.c:199-250 | After reading the trace there is one node per page and every queue holds all positions of its page |
| OptPolicy.OptPolicy.VaddrRecord | Memory_Management_Simulator/opt.c:140-182 | The page's node is found, or made if its hash chain has none, and gets the position |
| OptPolicy.OptPolicy.HeadIsFurthest | Memory_Management_Simulator/opt.c:43-52 | The head of the chain is a resident page whose next use is furthest |
| OptPolicy.OptPolicy.Evict | Memory_Management_Simulator/opt.c:47-52 | opt_evict returns such a frame, and the chain lists every frame but that one |
| OptPolicy.OptPolicy.Ref | Memory_Management_Simulator/opt.c:99-117 | opt_ref keeps queues exact from the next position on, and the chain sorted and listing exactly the resident pages |
| PageTable.IndexInjective | Memory_Management_Simulator/pagetable.h:22-41 | Two page addresses with the same two indices are equal |
| PageTable.IndexSplit | Memory_Management_Simulator/pagetable.h:22-41 | The two indices are the two groups of twelve bits of the address |
| PageTable.EntryAfterSet | Memory_Management_Simulator/pagetable.c:156-166 | Writing one entry changes no other |
| PageTable.CoherentEvict | Memory_Management_Simulator/pagetable.c:43-67 | Giving the victim's frame to a new page keeps frames and valid entries matched, but for the new page's entry |
| PageTable.CoherentClosed | Memory_Management_Simulator/pagetable.c:173-200 | Making that entry valid completes the bijection |
| SwapBitmap.Bitmap.Create | Memory_Management_Simulator/swap.c:29-62 | No slot is in use; the spare bits are marked, and the asserted facts about them hold |
| SwapBitmap.Bitmap.Alloc | Memory_Management_Simulator/swap.c:65-87 | The least free slot below nbits, failing exactly when there is none; assert(0) is unreachable |
| SwapBitmap.Bitmap.Mark | Memory_Management_Simulator/swap.c:101-111 | Adds one slot |
| SwapBitmap.Bitmap.Unmark | Memory_Management_Simulator/swap.c:114-124 | Removes one slot |
| SwapBitmap.Bitmap.IsSet | Memory_Management_Simulator/swap.c:128-135 | Tells whether a slot is in use; the spare bits behind the last slot read as set |
| SwapFile.SwapFile.PageOut | Memory_Management_Simulator/swap.c:222-256 | A page keeps the slot it has, or gets the least free one; fails exactly when it needs one and none is left |
| SwapFile.SwapFile.PageIn | Memory_Management_Simulator/swap.c:188-213 | Reads back what the slot holds |
| SwapFile.OwnedGrown | Memory_Management_Simulator/swap.c:229-235 | A slot given to a page without one belongs to no other page |
| SwapFile.SwapTooSmall | Memory_Management_Simulator/swap.c:230-233 | When allocation fails, more distinct pages than slots have been put out |
| SwapFile.SwapLargeEnough | Memory_Management_Simulator/swap.c:222-256 | As long as it has not failed, no more distinct pages than slots have been put out |
| Simulator.Simulator.constructor | Memory_Management_Simulator/sim.c:119-125 | Empty memory, page directory and swap |
| Simulator.Simulator.RandEvict | Memory_Management_Simulator/rand.c:17-22 | The frame is the number drawn modulo memsize |
| Simulator.Simulator.FifoEvict | Memory_Management_Simulator/fifo.c:20-23 | The longest resident frame |
| Simulator.Simulator.LruEvict | Memory_Management_Simulator/lru.c:23-36 | The least recently referenced frame |
| Simulator.Simulator.ClockEvict | Memory_Management_Simulator/clock.c:21-35 | Stops after at most memsize + 1 turns at the first unreferenced page after the old hand, having cleared exactly the reference bits passed |
| Simulator.Simulator.ClockVictim | Memory_Management_Simulator/clock.c:21-35 | That page is the one the second-chance queue puts out |
| Simulator.Simulator.EvictFcn | Memory_Management_Simulator/pagetable.c:36-38 | Whatever the algorithm, its frame is its promised victim |
| Simulator.Simulator.PageOutVictim | Memory_Management_Simulator/pagetable.c:43-62 | The victim's contents are written to its own slot and its entry stops being valid; owners of slots keep theirs; failing exactly means one page too many |
| Simulator.Simulator.AllocateFrame | Memory_Management_Simulator/pagetable.c:26-70 | The next frame in index order while there is one, the policy's victim after, with counters and owners kept |
| Simulator.Simulator.FindPhysPage | Memory_Management_Simulator/pagetable.c:152-210 | One step of the run: page table, frames, contents, counters, swap slots and policy data are those after the reference |
| Simulator.Simulator.Locate | Memory_Management_Simulator/pagetable.c:168-195 | Hit exactly when the page is in memory; the branch for a page on swap is never taken |
| Simulator.Simulator.RefFcn | Memory_Management_Simulator/pagetable.c:205-206 | The policy's data are those after the reference |
| Simulator.WritesAre | Memory_Management_Simulator/sim.c:58-61 | What is counted as writes is the S references and the M references, and no others |
| Simulator.FoundCounts | Memory_Management_Simulator/sim.c:49-63 | The version met is the number of S and M references since the load of the page, after which it has been in memory all the time |
| Simulator.OthersLeaveVersions | Memory_Management_Simulator/sim.c:58-61 | A reference raises the version of its own page by one if its kind is S or M; every other page that stays in memory, and its own for any other kind, keeps its version |
| Simulator.Simulator.AccessMem | Memory_Management_Simulator/sim.c:49-63 | The check of the address never fails, the version met is the number of writes since the page was loaded, exactly S and M raise a version, the invariant is kept, and pages keep their slots |
| Simulator.Simulator.ReplayTrace | Memory_Management_Simulator/sim.c:66-83 | The invariant holds to the end of the trace, and each version met is the one the run gives; stopped early exactly when one page too many needs a slot |
| Simulator.GoodVictimsNext | Memory_Management_Simulator/pagetable.c:36-38 | A run extended by one good victim is a run of good victims |
| Simulator.SlotsAfterReference | Memory_Management_Simulator/pagetable.c:197-203 | Marking the entry referenced marks, fills or replaces one slot under the clock hand and no other |
| Simulator.ClockAfterReference | Memory_Management_Simulator/clock.c:21-45 | The frames under the hand move as the second-chance queue moves |
| Transparency.Replay | Memory_Management_Simulator/sim.c:49-83 | Repaired: for any victims each reference finds as its version the number of all earlier S and M references to its page; the run is the demand-paging run of the trace with those victims, it reaches the end if and only if that run puts out no more pages than there are slots, and else stops at the first reference that puts out one more; as many slots as the trace has pages always suffice; the clean evictions are exactly those of pages put out before and not written since they were loaded |
| Transparency.TrackedAccess | Memory_Management_Simulator/pagetable.c:197-203 | Repaired: a page in memory is dirty exactly if swap has no copy or it was written since it was loaded |
| Transparency.TrackedLoad | Memory_Management_Simulator/pagetable.c:169-190 | Repaired: a page just loaded is dirty exactly if swap has no copy |
| Transparency.TrackedEvict | Memory_Management_Simulator/pagetable.c:43-62 | Repaired: an entry is marked as being on swap exactly if its page has been put out |
| Transparency.ValidIsResident | Memory_Management_Simulator/pagetable.c:168-170 | Repaired: an entry is valid exactly if its page is in memory |
| Paging.EvictedGrow | Memory_Management_Simulator/pagetable.c:36-63 | Pages that have been put out once stay counted as put out |
| Transparency.LeavesFrame | Memory_Management_Simulator/pagetable.c:43-62 | Repaired: a page leaves its frame with its contents in its slot, whether just written or clean |
| Transparency.EntersFrame | Memory_Management_Simulator/pagetable.c:169-189 | Repaired: a page enters a frame with the contents it had |
| Transparency.SlotIsOwn | Memory_Management_Simulator/pagetable.c:52-59 | Repaired: no other page has the slot being written |
| Transparency.Pager.Evict | Memory_Management_Simulator/pagetable.c:43-62 | Repaired: a clean eviction drops the page without loss, any other writes it out |
| Transparency.Pager.Allocate | Memory_Management_Simulator/pagetable.c:26-70 | Repaired: the first free frame, or the victim's, ready for the page, as in one step of the run; all other pages kept; fails only for one page too many on swap |
| Transparency.Pager.Fault | Memory_Management_Simulator/pagetable.c:169-190 | Repaired: zero-fills or reads back, every page is kept, the frames are those of the run, and a page read back is clean |
| Transparency.Pager.AccessMem | Memory_Management_Simulator/sim.c:49-63 | Repaired: one step of the run, and the version found is the number of all writes before |
| BlockLayout.OffsetRoundTrip | Memory_Management_Simulator/traceprogs/blocked.c:32-43 | The two numberings of elements are inverse bijections within the matrix |
| BlockLayout.LayoutRoundTrip | Memory_Management_Simulator/traceprogs/blocked.c:249-319 | To_blocked and From_blocked undo each other, both ways, for all n and b dividing n |
| BlockLayout.ElementLands | Memory_Management_Simulator/traceprogs/blocked.c:32-43 | Element (i, j) lands at ((i/b)(n/b) + j/b) b b + (i%b) b + j%b |
| BlockedMultiply.ToBlockedInPlace | Memory_Management_Simulator/traceprogs/blocked.c:249-279 | The moving pointers stay in bounds and leave the matrix in blocked storage |
| BlockedMultiply.FromBlockedInPlace | Memory_Management_Simulator/traceprogs/blocked.c:290-319 | And back in row-major storage |
| BlockedMultiply.CopyBlock | Memory_Management_Simulator/traceprogs/blocked.c:266-273 | One block is copied to the next locations |
| BlockedMultiply.MatMult | Memory_Management_Simulator/traceprogs/matmul.c:136-146 | The triple loop computes the product |
| BlockedMultiply.Matrices.ZeroC | Memory_Management_Simulator/traceprogs/blocked.c:172-176 | The block has no terms yet; what came before is untouched |
| BlockedMultiply.Matrices.MultAdd | Memory_Management_Simulator/traceprogs/blocked.c:193-204 | Every entry of the block has b more terms of its row by column |
| BlockedMultiply.Matrices.BlockedMatMult | Memory_Management_Simulator/traceprogs/blocked.c:214-223 | On blocked factors the result is the blocked form of the product |
| BlockedMultiply.NextTerm | Memory_Management_Simulator/traceprogs/blocked.c:199-203 | The factors read through block offsets are the next factors of the row by column |
| BlockedMultiply.Multiply | Memory_Management_Simulator/traceprogs/blocked.c:107-118 | Converting, multiplying in blocks and converting back equals the triple loop's product |
| Interceptor.Module.constructor | System_Call_Interceptor/interceptor.c:614-647 | The module's handlers are installed, nothing is intercepted or monitored, and the handler saved for exit_group is that of MY_CUSTOM_SYSCALL |
| Interceptor.Module.Request | System_Call_Interceptor/interceptor.c:343-591 | Every answer, and what is intercepted and logged afterwards, is that given by the history of commands and exits; the locks taken and data touched are those of the return path that the tests lead to |
| Interceptor.Module.Intercept | System_Call_Interceptor/interceptor.c:351-375 | Saves the handler and installs the stub, busy if there already, for root only |
| Interceptor.Module.Release | System_Call_Interceptor/interceptor.c:377-402 | The original handler is back and nothing is logged |
| Interceptor.Module.StartMonitoring | System_Call_Interceptor/interceptor.c:404-499 | Adds to the list or takes off it, as the list names the monitored or the others; answer and effect for every pid |
| Interceptor.Module.StopMonitoring | System_Call_Interceptor/interceptor.c:501-585 | The same for stopping |
| Interceptor.Module.DelPidSysc | System_Call_Interceptor/interceptor.c:117-142 | Exactly that pid goes; monitored is not cleared |
| Interceptor.Module.DelPid | System_Call_Interceptor/interceptor.c:148-177 | Exactly that pid goes from calls 1 to NR_syscalls - 1 |
| Interceptor.Module.DestroyList | System_Call_Interceptor/interceptor.c:182-196 | The entry is cleared |
| Interceptor.Module.ExitGroup | System_Call_Interceptor/interceptor.c:253-258 | An exit has the effect its event has in the history; the handler that runs is the one saved |
| Interceptor.Module.ExitFunction | System_Call_Interceptor/interceptor.c:659-682 | Every handler is back in its place, whatever was intercepted, except exit_group's; the whole table is restored if and only if exit_group is not intercepted and its handler was that of MY_CUSTOM_SYSCALL; nothing is logged any more; the locks and accesses are those of Locks.UnloadCovered |
| Interceptor.Module.Stub | System_Call_Interceptor/interceptor.c:279-292 | A call is logged exactly when the history says its pid is monitored, with the list walked under both locks, and goes on to the original handler |
| Interceptor.StillMonitored | System_Call_Interceptor/interceptor.c:130-135 | The double count does not reach zero when a pid is removed |
| Interceptor.PermissionDenied | System_Call_Interceptor/interceptor.c:353-586 | After any history -EPERM is the answer if and only if the caller is not root, the call is valid, and the command is to intercept or release, or to monitor all pids or an existing pid of another owner of an intercepted call |
| Interceptor.Protected | System_Call_Interceptor/interceptor.c:353-586 | Who is not root changes nothing by intercepting, releasing, asking for all pids or for a pid of another owner; by any other request only whether that pid is monitored |
| Interceptor.RefusedKeeps | System_Call_Interceptor/interceptor.c:343-591 | A refused request changes nothing, and none changes anything for another call |
| Interceptor.BusyAnswers | System_Call_Interceptor/interceptor.c:360-481 | Exactly when -EBUSY is the answer |
| Interceptor.MemoryAnswers | System_Call_Interceptor/interceptor.c:453-577 | Exactly when -ENOMEM is the answer |
| Interceptor.Granted | System_Call_Interceptor/interceptor.c:343-591 | Exactly when a command is carried out |
| Interceptor.OtherwiseInvalid | System_Call_Interceptor/interceptor.c:343-591 | There is no other answer but -EINVAL |
| Interceptor.RootHooks | System_Call_Interceptor/interceptor.c:351-402 | Root intercepts a call that is not intercepted and releases one that is; after a release nothing of it is monitored |
| Interceptor.RootMonitorsAll | System_Call_Interceptor/interceptor.c:412-527 | Root starts monitoring every pid, and stops monitoring every pid |
| Interceptor.ExitForgets | System_Call_Interceptor/interceptor.c:148-177 | After an exit its pid is monitored exactly where all are, for calls 1 to NR_syscalls - 1, and nothing else changes |
| Interceptor.StartStopAnswers | System_Call_Interceptor/interceptor.c:446-584 | After any history, for a valid, permitted, nonzero pid of an intercepted call: starting is answered busy exactly if it is monitored, stopping invalid exactly if it is not; afterwards it is monitored, or not, no other pid is touched, and the same request is refused |
| Interceptor.StopAllRefused | System_Call_Interceptor/interceptor.c:510-527 | After any history: refused only if no pid is monitored; the converse fails exactly when monitoring is on one pid at a time and no pid is left |
| Interceptor.UnnamedAsAll | System_Call_Interceptor/interceptor.c:421-433 | A pid that no command or exit named is monitored exactly when all are |
| Interceptor.OffIsNobody | System_Call_Interceptor/interceptor.c:286-290 | For every entry: the flag is off exactly when no pid is logged, but for an empty list of monitored pids |
| Interceptor.StopAllMayFindNothing | System_Call_Interceptor/interceptor.c:510-527 | Three requests, all granted, after which no pid is monitored and stopping all succeeds |
| Interceptor.WatchedIsOn | System_Call_Interceptor/interceptor.c:267-272 | Nothing is monitored unless monitoring is on |
| Locks.CallDisciplined | System_Call_Interceptor/interceptor.c:343-591 | Every return path takes only locks it does not hold, drops only those it holds, nests only the list lock in the table lock, touches lists, counts and flags of interception only under the list lock and the kernel's table only under the table lock, and ends with neither |
| Locks.Guarded | System_Call_Interceptor/interceptor.c:80-82 | In every reachable state a thread about to touch a pid list, a count or a flag of interception holds the list lock, and one about to touch the kernel's table in a call holds the table lock |
| Locks.NoRace | System_Call_Interceptor/interceptor.c:80-82 | In no reachable state are two threads about to touch the same of these data |
| Locks.UnloadCovered | System_Call_Interceptor/interceptor.c:659-683 | exit_function keeps to the same rules if and only if no call is intercepted |
| CallPaths.SpeltStub | System_Call_Interceptor/interceptor.c:253-292 | The steps of an intercepted call and of an exit in full |
| CallPaths.SpeltIntercept | System_Call_Interceptor/interceptor.c:351-375 | The steps of intercepting in full |
| CallPaths.SpeltRelease | System_Call_Interceptor/interceptor.c:377-402 | The steps of releasing in full |
| CallPaths.SpeltStart | System_Call_Interceptor/interceptor.c:483-497 | The steps of starting to monitor the first pid in full |
| CallPaths.SpeltStop | System_Call_Interceptor/interceptor.c:546-561 | The steps of ceasing to monitor a listed pid in full |
| Locks.MutualExclusion | System_Call_Interceptor/interceptor.c:80-82 | In every reachable state at most one thread is inside the section of a lock, and it is the holder |
| Locks.DeadlockFree | System_Call_Interceptor/interceptor.c:279-292 | With any number of threads, in every reachable state with unfinished threads some thread can step |
| Locks.FinishedHoldsNothing | System_Call_Interceptor/interceptor.c:343-591 | A thread that has returned holds neither lock |
| Locks.AllCanFinish | System_Call_Interceptor/interceptor.c:253-258 | From every reachable state all threads can run to completion, in as many steps as operations are left |
| DiskBits.MarkedAfter | EXT2_File_System/ext2general.c:107-129 | Setting or clearing one bit of a byte changes that bit of the bitmap and no other |
| DiskBits.MarkedValue | EXT2_File_System/ext2general.c:266-271 | Bit i of a bitmap is marked exactly if byte i / 8, as a number, divided by 2^(i % 8) is odd |
| DiskBits.ValueAfter | EXT2_File_System/ext2general.c:107-129 | Marking or clearing a bit changes its byte, as a number, by 2^(i % 8), or not at all if it was so already |
| DiskBits.PointerBytes | EXT2_File_System/ext2_cp.c:180-186 | A stored pointer is four bytes, the low one first |
| Ext2Disk.LowBitsFirst | EXT2_File_System/ext2general.c:266-271 | A first byte of 0x0f: blocks 1 to 4 in use, 5 to 8 free |
| DiskBits.PointerAfter | EXT2_File_System/ext2_cp.c:180-186 | A pointer stored in a block reads back, and no other pointer changes |
| DiskBits.SameByte | EXT2_File_System/ext2general.c:97-131 | A byte of a bitmap is its eight bits |
| Ext2Disk.Disk.UpdateBitmap | EXT2_File_System/ext2general.c:97-131 | For any number within the bitmap block: exactly its bit changes, and both copies of the count move with the number of clear bits of the block; they stay the numbers of free blocks or inodes if the number is one of them |
| Ext2Disk.Disk.FindFreeBlock | EXT2_File_System/ext2general.c:262-274 | The least number whose bit, read from the bytes as numbers, is clear, and 0 exactly when the count is 0 |
| Ext2Disk.Disk.FindFreeInode | EXT2_File_System/ext2general.c:246-260 | The least such number past the eleven reserved ones, and 0 exactly when there is none |
| Ext2Cp.Admission | EXT2_File_System/ext2_cp.c:315-363 | Exactly which sizes are admitted on 128 blocks; none needs double indirection |
| Ext2Cp.InitInode | EXT2_File_System/ext2general.c:276-294 | The mode, size and time given, one link, root as owner, no pointers; access and modification time and flags stay |
| Ext2Cp.WriteDirect | EXT2_File_System/ext2_cp.c:163-173 | The first chunks go to distinct free blocks named by the direct pointers |
| Ext2Cp.WriteIndirect | EXT2_File_System/ext2_cp.c:174-194 | The others go to distinct free blocks named in the pointer block, whose other words stay; double indirection is not reached |
| Ext2Cp.WrittenReadsBack | EXT2_File_System/ext2_cp.c:157-192 | Reading through the pointers gives the file byte for byte |
| Ext2Cp.CopyFile | EXT2_File_System/ext2_cp.c:154-192 | Refused exactly by the admission test; else every allocation succeeds with a distinct free block, reading as many bytes as the inode says through its pointers gives the file, each byte is where the layout of the image has it, the inode is a regular file with one link and the time given, i_blocks is ceil(size/1024) plus one past twelve, and nothing else changes |
| Ext2Cp.FreeAllBlocks | EXT2_File_System/ext2general.c:302-314 | Exactly the bits of the blocks named by the direct pointers, the pointer block and all its words become clear, padding included, and the counts move with them |
| Ext2Cp.GivesBack | EXT2_File_System/ext2general.c:302-314 | Freeing a copied file restores the clear bits of the bitmap block if and only if the unused words of its pointer block are harmless |
| Ext2Cp.CopyAndRollBack | EXT2_File_System/ext2_cp.c:281-288 | Copying and then freeing all blocks: the bytes of the bitmap are as before, and so are both copies of the count, if and only if the unused words of the pointer block are zero or name a bit that was clear |
| Ext2Cp.StaleWordFreed | EXT2_File_System/ext2general.c:308-312 | A file of thirteen blocks whose pointer block had 15 in its second word: block 15, in use, becomes free |
| DirBlock.ListingTiles | EXT2_File_System/ext2general.c:47-65 | The records tile the 1024 bytes |
| DirBlock.ListingRoundTrip | EXT2_File_System/ext2general.c:47-65 | Records of 1024 bytes in all, written one after the other, read back as they were |
| DirBlock.SameFront | EXT2_File_System/ext2general.c:186-244 | Bytes changed from one record on leave the records before it as they were, and the block is one of records exactly if it is from there on |
| DirBlock.ReuseListing | EXT2_File_System/ext2general.c:209-217 | Writing over a freed record changes that record of the listing only |
| DirBlock.ReuseTiles | EXT2_File_System/ext2general.c:209-217 | After it the block is one of records if and only if the record has room for the new name |
| DirBlock.SplitListing | EXT2_File_System/ext2general.c:226-241 | Splitting the last record shortens it and adds one record |
| DirBlock.SplitTiles | EXT2_File_System/ext2general.c:222-241 | After a split the block is one of records if and only if the slack has room for the new name, that is, if the name does not go past the end of the block |
| DirBlock.SplitExcess | EXT2_File_System/ext2general.c:222-230 | A split without room goes one to three bytes past the end of the block |
| DirBlock.AllocateSpaceInBlock | EXT2_File_System/ext2general.c:186-244 | For any block of records and any name: succeeds exactly if a place is chosen; the block is one of records afterwards if and only if that place is roomy, and then the listing is the one with the name inserted and no other block changes; what goes past the end is the beginning of the next block |
| DirBlock.LocateInBlock | EXT2_File_System/ext2general.c:48-66 | The first live record of the name, if there is one |
| DirBlock.LocateFileByName | EXT2_File_System/ext2general.c:44-69 | Over the fifteen block pointers of a directory: finds a name exactly when the directory has it, at the bytes of its entry |
| DirBlock.AddEntry | EXT2_File_System/ext2_cp.c:271-280 | The first block with a place gets the name; the directory is one afterwards if and only if that place is roomy, and then no other block changes; fails, changing nothing, exactly when no block has a place |
| DirBlock.AddedIsFound | EXT2_File_System/ext2_cp.c:271-280 | A name new to the directory is then found with its inode and type, and every other name as before |
| DirBlock.InsertedIsFound | EXT2_File_System/ext2general.c:186-244 | A new name is found with its inode and type; every other name is found as before |
| DirBlock.RoomForBoth | EXT2_File_System/ext2general.c:222-230 | Room for each name rounded up separately suffices |
| DirBlock.SplitWithoutRoom | EXT2_File_System/ext2general.c:222-226 | A block whose last record is split without room |
| DirBlock.ReuseWithoutRoom | EXT2_File_System/ext2general.c:191-203 | For every name of more than four bytes, a block with a freed record that is reused without room |

## Left out

- Simulation.Simulate: page addresses are page-aligned and below 2^36, there are no lines of trace that start with
  `=`, and 0 < memsize < 2^20, as the page table, opt_init and the entry format ask; counters and versions are unbounded
  integers.
- Simulator.Simulator.RandEvict: the numbers drawn are a sequence given beforehand, one for each reference, so that the
  results hold for all.
- Simulator.Simulator.Locate: the branch for a page on swap and the clean eviction are dead code as written, and are
  shown to be.
- SwapFile.SwapFile.PageIn: asks that the offset has been written before, which is how a page comes by it; a short read is
  not modelled.
- Ext2Disk.Disk.UpdateBitmap: asks that the number has its bit in the bitmap block; for a larger one the program goes on
  into the blocks behind it, which are kept apart here.
- Ext2Cp.FreeAllBlocks: asks for no double or triple pointers and for block numbers within the bitmap block; the loops for
  double and triple indirection are not modelled, on this image no copied file has them.
- Ext2Cp.CopyAndRollBack: the inode's bit, which is set and cleared around it, and the failed search for a block for the
  directory are left out; asks that no word in a free block is past the bitmap block.
- Ext2Cp.CopyFile: asks that no free bit stands for a block past the end of the image; the parts of main before it
  that find the destination are not modelled, nor is overwriting a file, which frees its blocks first.
- DirBlock.AllocateSpaceInBlock: a name that goes past the end of the last block of the image would leave the image; that
  there is a next block then is asked for, here and in AddEntry.
- Interceptor.Module.Request: commands are carried out one at a time; the code lets go of the locks between check and
  update. The system call table has an entry for every number that the module accepts.
- Page table entries are records of their fields rather than packed words, a second-level table is a sequence in its
  directory entry, and a pointer to an entry is the address of its page.
- The queues of occurrences and the hash chains of opt are sequences; the chain of resident pages is linked nodes.
- The swap file is a map from offsets to page contents; temporary files, reads and writes that fail are left out.
- The ext2 metadata blocks are kept apart from the data blocks; on the image they are marked in use, so that the
  allocator does not hand them out. The time is a value given to cp.
- Path names, `ext2_rm.c`, `ext2_ln.c`, `ext2_mkdir.c`, `ext2_ls.c` and the extension of a directory by a block
  (`ext2_cp.c:281-306`) are not modelled: they add little to the allocator and the directory block.
- Locks.Guarded: the flag `monitored`, touched under either lock, and the saved handler, read without one at
  `interceptor.c:291`, are not among the data; nor are the locks of init_function, which no other thread meets.
- Kernel facilities behind the interceptor (credentials, pid lookup, memory allocation, page protection) are values
  given with each request.
- Argument parsing, printing, input and output, timing, and `fastslim.py` are not modelled.
