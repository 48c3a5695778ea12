# iSH in Dafny

iSH runs 32-bit x86 Linux programs in user mode: it translates guest code to chains of host
gadgets and implements the Linux system calls itself. This project models the parts of it whose
correctness is hard to see from the code, and proves what they promise.

| file | part of iSH |
|---|---|
| `JumpLinks.dfy`, `CodeCache.dfy`, `AliasRun.dfy`, `BlockTable.dfy` | the cache of translated code: jump patching, threads and reclamation, hash table and page index |
| `CopyOnWrite.dfy`, `PageTable.dfy`, `Tlb.dfy` | guest memory: reference-counted backing objects and fork, the two-level page table, the software TLB |
| `RecordLocks.dfy` | POSIX record locks |
| `Futex.dfy` | futex queues with wake and requeue |
| `EventPoll.dfy`, `PollSet.dfy` | epoll registrations over every run, and the code that updates them |
| `Float80.dfy`, `RoundTwice.dfy`, `Products.dfy` | 80-bit floating point: rounding once and twice, multiplication |
| `Conversions.dfy`, `Doubles.dfy` | conversions of 80-bit numbers to and from integers and doubles |
| `PathWalk.dfy`, `PathLaws.dfy` | path normalisation with symbolic links, and the laws it obeys |
| `Lists.dfy` | what several files share |
| `PathRename.dfy`, `FakeFs.dfy` | the path and stat tables of fakefs and the lifetime of a file's metadata |

The pattern is the same in most files. Functions give the effect of one section under a lock on
the shared state; lemmas show that every such step keeps an invariant, and whole-run lemmas draw
the consequences for every interleaving. A class with the source's own fields then carries the
loops, and each of its methods is proved to have exactly the effect of the function.

Where the code does not do what it seems to promise, the model follows the code, and there is a
lemma with a concrete input and one that says exactly when the promise is kept:

- The jump patcher compares 32 bits of a slot with a guest address without asking whether the slot
  already holds a host address (`AliasMet`, `ConsistentIffAliasFree`).
- mprotect overwrites the copy-on-write and shared flags, so that after a fork a child can write
  into the parent's private page (`MprotectBreaksIsolation`, `ProtectIsolatedIff`).
- A product that is zero or in the denormal range can come out wrong in four ways
  (`ZeroGetsExponent`, `RoundsToUnsupported`, `ProductTie`, `ProductVanishes`, `MulCorrectIff`).
- Converting to a 64-bit integer wraps around from 2^63 on (`ToIntWraps`, `ToIntCorrectIff`).
- Converting to a double ignores the mode above the range of doubles, and rounds twice below it
  (`ChoppedToInfinity`, `CarryLost`, `TieMade`, `LowBitLost`, `ToDoubleCorrectIff`); the payload of a
  NaN can be lost on the way (`NanBecomesZero`, `SpecialToDouble`).
- Between looking a file up and attaching to its inode, the number can be given to another file
  (`OpenRace`, `RowSurvivesIff`); replacing a file in a rename leaves its row behind
  (`OrphanLeft`, `RenameLeavesOrphan`).
- Two threads can add the same descriptor to a poll (`AddedTwice`, `OnePerFdIff`).

## Model

| member | source | states |
|---|---|---|
| JumpLinks.PatchExactIffNoAlias | asbestos/asbestos.c:208-225 | patching keeps every slot of a live block at its original address or at a live block translated from it that lists it, if and only if no slot of the last block is linked to code whose low 32 address bits equal the guest address |
| JumpLinks.DisconnectRestores | asbestos/asbestos.c:142-159 | disconnecting a block puts the original address back in exactly the slots of live blocks linked to it and touches no other slot |
| JumpLinks.DisconnectOk | asbestos/asbestos.c:148-158 | afterwards the block has no predecessors and all other links are still exact |
| JumpLinks.AddOk | asbestos/gen.c:48-73 | a new block with its slots unlinked keeps all links exact |
| JumpLinks.FreeOk | asbestos/asbestos.c:166-172 | freeing all discarded blocks leaves no slot or list that mentions them |
| CodeCache.StepOkIff | asbestos/asbestos.c:180-286 | every step of a running thread, an invalidation or a reclamation keeps the system invariant if and only if it does not meet an alias |
| CodeCache.ConsistentIffAliasFree | asbestos/asbestos.c:166-286 | every interleaving is consistent throughout if and only if the patcher never met a link that it takes for the guest address it looks for |
| CodeCache.ApartAliasFree | asbestos/asbestos.c:216-219 | it never does if no host code address ends in the guest address of a block |
| AliasRun.AliasMet | asbestos/asbestos.c:208-225 | a run from the empty cache in which one thread meets an alias, and a jump to one address is redirected to the block of another |
| CodeCache.NeverReachesFreed | asbestos/asbestos.c:166-286 | in every interleaving, up to the first alias if there is one, whatever a running thread holds in its private cache, last block or return cache, and whatever it reaches from there through patched jumps, is still allocated |
| CodeCache.LinksStayExact | asbestos/asbestos.c:142-225 | likewise every slot of a live block is its original address or a live block translated from that address which lists it |
| CodeCache.TouchedIsIndexed | asbestos/asbestos.c:99-102 | every page a block of at most one page touches, also around the top of memory, is one of the two it is indexed under |
| CodeCache.InvalidationComplete | asbestos/asbestos.c:50-66 | once the indexed blocks of a page range are discarded, no live block has a byte in the range |
| CodeCache.DiscardAllOk | asbestos/asbestos.c:50-66 | discarding a list of blocks keeps the cache consistent and makes exactly those blocks dead |
| CodeCache.FetchFinds | asbestos/asbestos.c:190-206 | private cache, lookup or translation, the dispatch loop gets a block of exactly the address that it wants |
| CodeCache.ChainFinds | asbestos/asbestos.c:216-219 | a patched jump leads to a block of the address that the jump is for, also from a block discarded meanwhile |
| CodeCache.ReturnFinds | asbestos/asbestos.c:208-225 | a return goes back to a remembered block, or on to a block of the address that its jump is for |
| CodeCache.DispatchEnters | asbestos/asbestos.c:190-230 | in every interleaving a thread that dispatches an address next enters a block translated from it, whatever others do in between |
| CodeCache.PatchLinks | asbestos/asbestos.c:208-225 | patching links every slot that waits for the address, in either layer, and no other |
| CodeCache.AddBlockSlots | asbestos/gen.c:48-73 | a new block comes with its slots waiting for their addresses, and no block jumps to it yet |
| CodeCache.InvalidateCovers | asbestos/asbestos.c:50-66 | after an invalidation nothing findable has a byte in the range, and only blocks indexed there are gone |
| CodeCache.ReclaimFrees | asbestos/asbestos.c:166-172 | a reclamation frees exactly what was discarded |
| CodeCache.OthersKeep | asbestos/asbestos.c:166-172 | whatever others do while a thread runs, it keeps what it holds, and no block goes or changes |
| BlockTable.DisconnectLayer | asbestos/asbestos.c:149-157 | the loop over the predecessors has the effect of the disconnect step |
| BlockTable.Compile | asbestos/asbestos.c:117-138 | a block is a straight run of instructions up to the first that ends it or the first offset with too little room, has that instruction's slots, and fits in a page |
| BlockTable.Asbestos.Lookup | asbestos/asbestos.c:105-115 | finds the live block of an address, and none only if there is none: the table refines a partial map |
| BlockTable.Asbestos.ResizeHash | asbestos/asbestos.c:75-90 | afterwards every live block is on the chain of its address and on no other, once, and there are as many nodes as before |
| BlockTable.Asbestos.Insert | asbestos/asbestos.c:92-103 | adds the block once to the table and to the lists of its pages; num_blocks stays the number of blocks in the table, and growing keeps fewer than two to a chain on average |
| BlockTable.Asbestos.Fetch | asbestos/asbestos.c:195-206 | returns the live block of an address, translating it only if there was none |
| BlockTable.Asbestos.DiscardBlock | asbestos/asbestos.c:58-62 | takes a block off every list, restores its predecessors and puts it on the jetsam list |
| BlockTable.Asbestos.InvalidateRange | asbestos/asbestos.c:50-66 | discards exactly the live blocks indexed under a page of the range; afterwards nothing that lookup can find has a byte there |
| BlockTable.Asbestos.PatchJump | asbestos/asbestos.c:208-225 | patches only between two blocks that are not jetsam, and keeps everything consistent if and only if it met no alias |
| BlockTable.Asbestos.FreeAllJetsam | asbestos/asbestos.c:166-172 | frees exactly the jetsam and keeps the lists of the other blocks as they are |
| BlockTable.FreedOnce | asbestos/asbestos.c:166-172 | as many blocks are gone as were on the list: none is freed twice |
| CopyOnWrite.UnmapPageOk | kernel/memory.c:146-165 | dropping one entry keeps every count equal to the number of entries and frees the object with the last one |
| CopyOnWrite.MapOk | kernel/memory.c:106-136 | mapping pages over whatever is there keeps counts exact and the new object reachable only through its own pages |
| CopyOnWrite.MapTable | kernel/memory.c:106-136 | the whole table after pt_map: the mapped pages have their entries, and nothing else has changed |
| CopyOnWrite.MapShows | kernel/memory.c:106-136 | every page of a mapping shows its own part of the memory mapped, with these flags, and the object is referred to by these pages alone |
| CopyOnWrite.UnmapTable | kernel/memory.c:145-168 | the whole table after pt_unmap: the pages of the range are gone, and only they |
| CopyOnWrite.ForkOk | kernel/memory.c:200-218 | copying a range on fork keeps counts exact, and leaves no alias that one side could write and the other sees as private |
| CopyOnWrite.ForkCopies | kernel/memory.c:200-218 | after a fork the child shows the parent's bytes on every page the parent has |
| CopyOnWrite.ForkTable | kernel/memory.c:200-218 | the whole table after pt_copy_on_write: both sides have the parent's entry, with the same protection, copy-on-write unless it is shared; holes of the parent are left alone |
| CopyOnWrite.BreakCowOk | kernel/memory.c:250-269 | resolving a write fault changes what no page shows, and the page becomes writable |
| CopyOnWrite.GrowStackOk | kernel/memory.c:238-249 | growing a stack adds a page and changes no other |
| CopyOnWrite.GrowStackShows | kernel/memory.c:238-249 | a missing page appears exactly if the next mapped page above belongs to a stack: zeroed, writable, part of the stack |
| CopyOnWrite.BreakCowShows | kernel/memory.c:250-269 | a write to a copy-on-write page, and any ptrace write, gives the page an object of its own with the same bytes, and no other access changes anything |
| CopyOnWrite.FaultResolves | kernel/memory.c:237-270 | when a fault leaves the page mapped, what it shows then, and when it can be written |
| CopyOnWrite.MapOneShows | kernel/memory.c:126-134 | the mapped page shows exactly the given bytes with the given flags |
| CopyOnWrite.WriteIsolated | kernel/memory.c:226-233 | a guest write changes one byte of the page written and nothing any private page shows elsewhere |
| CopyOnWrite.RunOk | kernel/memory.c:106-270 | over every run of maps, unmaps, forks, faults, writes and harmless mprotects, each object's count is the number of entries that refer to it, it is released with the last, and no entry refers to a released object |
| CopyOnWrite.PrivateUntilTouched | kernel/memory.c:106-270 | over every run, a private page shows the same bytes until its own address space maps over it, unmaps it or writes to it |
| CopyOnWrite.ForkIsolates | kernel/memory.c:200-218 | after a fork, over every later run, parent and child each keep seeing the bytes from before the fork until they touch the page themselves |
| CopyOnWrite.IsolatedIff | kernel/memory.c:226-233 | no write through one page changes what a private page shows elsewhere if and only if whoever sees bytes that can be written elsewhere shares them |
| CopyOnWrite.ProtectIsolatedIff | kernel/memory.c:177-198 | after an mprotect no write changes what a private page shows elsewhere, if and only if beforehand everyone who sees a page made writable shares it and is outside the range, and nobody outside the range can write to a page of it |
| CopyOnWrite.SetFlagsTable | kernel/memory.c:177-198 | all flags of the range are overwritten, and nothing else, unless a page is missing |
| CopyOnWrite.MprotectBreaksIsolation | kernel/memory.c:184-184 | fork, mprotect and a write by the child change the parent's private page |
| PageTable.Memory.Set | kernel/memory.c:48-55 | allocating tables on first use stores exactly one entry |
| PageTable.Memory.Delete | kernel/memory.c:67-71 | removes exactly one entry |
| PageTable.Memory.NextPage | kernel/memory.c:73-79 | skips forward over pages of which none is mapped |
| PageTable.Memory.UnmapAlways | kernel/memory.c:145-168 | skipping holes, unmaps the range page by page, releases objects with their last reference, and counts one change |
| PageTable.Memory.Map | kernel/memory.c:106-136 | has the effect that MapTable and MapShows spell out; if the change counter does not move, every entry there was is still there |
| PageTable.Memory.CopyInto | kernel/memory.c:200-218 | has the effect of the abstract fork on both tables and counts a change in both |
| PageTable.Memory.SetFlagsOf | kernel/memory.c:177-198 | refused if a page is missing, otherwise overwrites all flags of the range and counts a change |
| PageTable.Memory.ResolveFault | kernel/memory.c:237-270 | on success the page is mapped and, for a write, writable; on failure it is missing or read-only |
| PageTable.Memory.FindHole | kernel/memory.c:81-96 | returns the highest hole of the size below the vdso, or the bad page exactly if there is none |
| Tlb.Index | emu/tlb.h:25-25 | every address has an index within the table |
| Tlb.StampSurvives | emu/tlb.c:4-17 | if equal counters mean a correct cache, they still do after any page-table operation, although a map into a hole is not counted and the cached counter is truncated |
| Tlb.StampSurvivesRun | emu/tlb.c:4-17 | the same over every run of page-table operations |
| Tlb.TlbCache.Flush | emu/tlb.c:13-17 | empties the cache, which then agrees with the page table |
| Tlb.TlbCache.Refresh | emu/tlb.c:4-11 | afterwards every cached translation is the page table's, also when it returns early |
| Tlb.TlbCache.HandleMiss | emu/tlb.c:51-70 | gives the page table's pointer, caches it, marks the page dirty or records the faulting address, and keeps the cache in agreement |
| Tlb.TlbCache.ReadPtr | emu/tlb.h:33-41 | hit or miss, the pointer is the one the page table gives |
| Tlb.TlbCache.WritePtr | emu/tlb.h:53-62 | likewise, and only ever to a page that may be written |
| Tlb.TlbCache.ReadCrossPage | emu/tlb.c:23-35 | the bytes of both pages in order, around the top of memory, or nothing if one is missing |
| Tlb.TlbCache.Read | emu/tlb.h:43-51 | the bytes the guest sees at the address, or nothing exactly if a page is missing |
| Tlb.TlbCache.WriteCrossPage | emu/tlb.c:37-49 | writes to both pages or to neither |
| Tlb.TlbCache.Write | emu/tlb.h:64-72 | the guest's byte writes one after the other, or none of them if a page may not be written |
| Tlb.Translate | kernel/memory.c:226-233 | the pointer to a mapped byte, or nothing if unmapped or not writable |
| Tlb.NoFaultShows | kernel/memory.c:226-233 | there is a pointer exactly if the page is mapped and, for a write, writable; it points to the byte that the guest sees |
| Tlb.WriteAllShows | emu/tlb.h:64-72 | what is written within a page is what the guest sees there afterwards |
| Tlb.MemPtr | kernel/memory.c:272-297 | resolves at most one fault, every page goes on showing the same bytes, and the pointer is the page table's own |
| RecordLocks.PlaceBytes | fs/lock.c:69-135 | an accepted request sets exactly the requester's bytes in its range to the requested type and changes no other byte of any owner, whatever mix of merges, trims and splits occurs |
| RecordLocks.PlacePids | fs/lock.c:83-135 | every lock in the list is what is left of one that was there, with its pid, or the granted request with its own |
| RecordLocks.PlaceGrants | fs/lock.c:130-134 | the granted range is under one lock with the requester's pid |
| RecordLocks.PlaceCanonical | fs/lock.c:69-135 | an accepted request leaves a list whose locks are disjoint per owner, maximal, grouped by owner and free of conflicts |
| RecordLocks.CanonicalUnique | fs/lock.c:83-128 | two canonical lists with the same bytes hold the same intervals: merging is complete and splitting leaves no fragments |
| RecordLocks.AllowedIsGrantable | fs/lock.c:53-59 | the scan for conflicts decides exactly what the byte map says |
| RecordLocks.RunRefinesByteMap | fs/lock.c:50-254 | every run of lock, unlock and close keeps the list canonical and simulates the byte map, decisions included |
| RecordLocks.FlockRange | fs/lock.c:169-177 | the bytes a struct flock names, never none |
| RecordLocks.FlockRoundTrip | fs/lock.c:140-194 | what F_GETLK reports, given back to F_SETLK, names the same range |
| RecordLocks.LockList.Test | fs/lock.c:25-32 | the first conflicting lock; none exactly when a non-blocking acquire would succeed, which is what F_GETLK reports as unlocked |
| RecordLocks.LockList.EditAt | fs/lock.c:83-128 | one lock of the requester is kept, merged, trimmed, split or deleted in place |
| RecordLocks.LockList.EditOwn | fs/lock.c:69-129 | the loop over the list, edited while it is walked, ends where the request belongs |
| RecordLocks.LockList.Acquire | fs/lock.c:50-136 | refused without a trace, or a byte-map update that keeps the list canonical |
| RecordLocks.LockList.RemoveOwnedBy | fs/lock.c:245-254 | removes exactly the owner's locks |
| RecordLocks.WithoutBytes | fs/lock.c:249-252 | closing clears the owner's bytes and no other |
| Futex.LastReference | kernel/futex.c:71-77 | an object whose last reference is dropped has an empty queue: the assertion there never fails |
| Futex.MoveHeadCounts | kernel/futex.c:163-174 | moving a waiter keeps counts exact, and the assertion that the count exceeds one never fails |
| Futex.ReferencesExact | kernel/futex.c:38-181 | over every run, each object's count is the number of threads inside futex_wait on it, at most one object exists per address space and address, and it exists exactly as long as some thread waits on it |
| Futex.WakeTakesFirstMatching | kernel/futex.c:146-154 | a wake takes exactly the first matching waiters in arrival order and leaves the rest in order |
| Futex.MatchAny | kernel/futex.c:149-150 | with FUTEX_BITSET_MATCH_ANY every waiter matches |
| Futex.MatchNone | kernel/futex.c:149-150 | a waiter for just the other bits does not |
| Futex.RequeueMovesPrefix | kernel/futex.c:163-174 | a requeue onto another futex moves the next waiters in order to its tail, with their references |
| Futex.RequeueRetargets | kernel/futex.c:172-172 | it retargets exactly those waiters |
| Futex.WakeLikeQueues | kernel/futex.c:139-181 | a whole wake-and-requeue call, with objects created and freed on the way: both queues are cut and joined as promised, and no other queue of any address space changes |
| Futex.WakeOnlyQueues | kernel/futex.c:139-181 | a call that does not requeue, or finds no memory to, takes the first matching waiters off the queue and changes nothing else |
| Futex.BeginWaitQueues | kernel/futex.c:98-128 | a waiter goes to the tail of the queue, with its bitset, exactly if the word has the expected value and there is an object or memory for one; nothing else changes |
| Futex.EndWaitQueues | kernel/futex.c:129-134 | the end of a wait takes the thread out of whatever queue it is in by now, and changes nothing else |
| Futex.WakeQueue | kernel/futex.c:144-154 | the wake loop computes the waiters left and how many were woken |
| Futex.FutexTable.GetUnlocked | kernel/futex.c:38-59 | finds the one object of the key or creates it, and takes a reference |
| Futex.FutexTable.PutUnlocked | kernel/futex.c:71-77 | drops a reference and frees the object exactly at zero |
| Futex.FutexTable.RequeueLoop | kernel/futex.c:162-174 | walking the list with a saved successor moves as many waiters as promised, also when both futexes are the same |
| Futex.FutexTable.WakeLike | kernel/futex.c:139-181 | returns the number woken plus the number moved, and ENOMEM exactly if an object is missing and there is no memory for it |
| Futex.FutexTable.BeginWait | kernel/futex.c:98-128 | sleeps exactly if the word could be read and had the expected value and memory was available, and says why if not |
| Futex.FutexTable.EndWait | kernel/futex.c:129-134 | leaves the queue of, and puts, the futex it was last requeued to |
| EventPoll.Find | fs/poll.c:63-70 | a record of the descriptor, and none only if there is none |
| EventPoll.CleanupRemoves | fs/poll.c:189-203 | without interruption, nothing of a closed descriptor is left, other registrations are as they were, and no record is lost |
| EventPoll.CleanupCompletes | fs/poll.c:189-203 | with whatever other threads do between two records, no registration of the descriptor is left once each has been visited |
| EventPoll.PendingExact | fs/poll.c:242-256 | what is there to report is exactly the registrations with something due, each once, in order |
| EventPoll.ScanAt | fs/poll.c:242-275 | a scan reports at most as many registrations as there is room, and leaves unchanged whoever is not reported, also because the buffer is full |
| EventPoll.ScanComplete | fs/poll.c:242-275 | with room for all, everything due is reported |
| EventPoll.RunOk | fs/poll.c:72-219 | over every run records are never lost or used twice, and a pointer the host was given stays a pointer to a record |
| EventPoll.PipeClosedWhenEntering | fs/poll.c:225-235 | the assertion that the pipe is closed when the first thread enters never fails |
| EventPoll.OneShotOnce | fs/poll.c:264-269 | over every run a one-shot registration is reported at most once per ADD or MOD |
| EventPoll.EdgeOnce | fs/poll.c:250-273 | over every run an edge-triggered bit is not reported twice without a wakeup, a host edge, an ADD or a MOD in between |
| EventPoll.HistoryTells | fs/poll.c:87-318 | over every run a registration is what the last ADD or MOD asked for, disabled exactly if one-shot and reported since, and remembers exactly the bits reported since their last edge |
| EventPoll.DeliveryExact | fs/poll.c:242-275 | over every run, what a scan with room for all reports of a descriptor, from the history alone: interest, errors and hangups, less what one-shot and edge-triggered hold back |
| EventPoll.LevelKeepsReporting | fs/poll.c:242-275 | a level-triggered registration is reported by every such scan as long as it is ready |
| EventPoll.PendingAppend | fs/poll.c:242-243 | reports come in the order of the list |
| EventPoll.AddedFirst | fs/poll.c:118-119 | a new registration is at its head |
| EventPoll.DelRemoves | fs/poll.c:129-156 | a DEL removes the registration that it finds unless the host refuses, and no other |
| EventPoll.PipeWhileWaiting | fs/poll.c:225-333 | over every run the pipe is open exactly while some thread has entered and not left |
| PollSet.Context.Callback | kernel/epoll.c:69-75 | appends a record and accepts, exactly if there is room |
| PollSet.ScanLoopIs | fs/poll.c:242-275 | the loop that updates registrations one by one does what the whole scan says |
| PollSet.Poll.AddFd | fs/poll.c:87-127 | reuses a free record or new memory, and gives it back if the host refuses |
| PollSet.Poll.DelFd | fs/poll.c:129-156 | frees the record unless it is missing or the host refuses |
| PollSet.Poll.ModFd | fs/poll.c:158-187 | replaces types and data and rearms the registration, unless the host refuses |
| PollSet.Poll.CtlAdd | kernel/epoll.c:54-57 | undisturbed, registers a descriptor at most once |
| PollSet.OnePerFdIff | kernel/epoll.c:54-57 | at most one registration per descriptor is left by exactly the steps that are not an addition of a descriptor registered by then, which the two separate sections allow |
| PollSet.AddedTwice | kernel/epoll.c:54-57 | two threads that both found a descriptor missing register it twice |
| PollSet.Poll.CleanupFd | fs/poll.c:189-203 | has the effect of the cleanup step |
| PollSet.Poll.ScanInto | fs/poll.c:242-275 | reports the first registrations with something due as far as the buffer goes, and delivers to those alone |
| PollSet.Poll.WakeupFd | fs/poll.c:205-219 | clears the triggered bits of the descriptor's edge-triggered registrations |
| PollSet.Poll.TakeEdges | fs/poll.c:312-318 | clears the bits of records the host names, unless they are free by now |
| PollSet.Poll.EnterWait | fs/poll.c:225-235 | opens the pipe for the first thread, and counts nobody if that fails |
| PollSet.Poll.LeaveWait | fs/poll.c:328-333 | closes the pipe after the last thread |
| PollSet.Poll.Wait | fs/poll.c:221-337 | goes exactly as the rounds say, and the result counts the events handed over, all in one scan; any other ending has handed over none |
| PollSet.DueEndsWait | fs/poll.c:239-275 | a wait never sleeps while something is due: it returns at once with as much as there is room for |
| PollSet.IdleRound | fs/poll.c:276-325 | with nothing due, a signal, the end of the time or an error of the host ends the wait, and new edges start the next round |
| PollSet.RecordsAt | kernel/epoll.c:69-75 | a record carries what is reported and what the registration was given to identify it |
| PollSet.Poll.EpollWait | kernel/epoll.c:77-106 | the records copied out are those of one scan, their number is the result and never exceeds the maximum |
| Products.ShiftRoundsIff | emu/float80.c:46-78 | shifting any 128-bit integer by any distance rounds correctly in all four modes, exactly unless the 64-bit rest loses its only ones where they count, or more than a half is shifted out whole |
| Float80.ClzNormalises | emu/float80.c:142-152 | shifting by the leading zeros brings the leading one to the top |
| Float80.NormalizeRoundCorrect | emu/float80.c:154-192 | outside the denormal range the result is the best of all finite numbers, or infinity, in all four modes, with the carry out of an all-ones significand |
| Products.SmallValueIff | emu/float80.c:157-162 | in the denormal range it is, exactly unless it rounds up to the smallest normal number or the first of two roundings makes a false tie or loses everything |
| RoundTwice.NearestTwiceIff | emu/float80.c:157-189 | rounding to nearest twice is rounding once, exactly unless the first rounding makes a tie that the second breaks the wrong way |
| Float80.RoundOverflow | emu/float80.c:163-174 | too big a value becomes infinity or the largest finite number as IEEE 754-2008 section 7.4 has it |
| Float80.MulCorrect | emu/float80.c:420-442 | every product of nonzero finite operands that is not in the denormal range is correctly rounded in all four modes |
| Products.MulCorrectIff | emu/float80.c:420-442 | for all finite operands and all four modes, when exactly the product is correctly rounded, in terms of the operands |
| Products.MulSpecial | emu/float80.c:420-431 | NaNs, unsupported numbers and infinities: NaN, infinity or NaN for infinity times zero, with the sign of the product |
| Products.ZeroGetsExponent | emu/float80.c:154-192 | zero times 2^127 is an unsupported number |
| Products.RoundsToUnsupported | emu/float80.c:157-189 | a product that rounds to the smallest normal number is an unsupported number |
| Products.ProductTie | emu/float80.c:157-162 | a product above half the smallest denormal number is rounded down |
| Products.ProductVanishes | emu/float80.c:62-62 | rounding up, a product of nonzero numbers becomes zero |
| Conversions.NormalizeFits | emu/float80.c:116-140 | normalising shifts no one out of the significand and gives a supported number |
| Conversions.IntRoundTrip | emu/float80.c:194-222 | every 64-bit integer survives the trip through a float80 in every mode |
| Conversions.ToIntCorrectIff | emu/float80.c:211-222 | conversion gives the rounded integer with its sign exactly for the finite operands outside a family that can be read off exponent, sign, significand and mode |
| Conversions.ToIntWraps | emu/float80.c:219-221 | 2^63 becomes -2^63 in every mode |
| Conversions.ToIntIndefinite | emu/float80.c:211-217 | what is too big, infinite, not a number or not supported gives the indefinite integer |
| Conversions.RoundCorrect | emu/float80.c:291-307 | rounding any finite number gives the value of the nearest integer in canonical form, sign kept |
| Conversions.RoundSpecial | emu/float80.c:291-297 | infinities and NaNs are left alone, an unsupported number becomes a NaN |
| Conversions.DoubleRoundTrip | emu/float80.c:235-289 | every double, with denormals, signed zeros, infinities and NaN payloads, survives the trip through a float80 bit for bit in every mode |
| Doubles.ToDoubleCorrectIff | emu/float80.c:258-289 | for every finite operand and mode, the result is the best of all doubles, or infinity, exactly for the operands that exponent, sign, significand and mode tell: all in the range of normal doubles, above it where the mode does not round toward zero, below it where no carry, low bit or tie goes wrong |
| Doubles.SpecialToDouble | emu/float80.c:258-289 | infinity stays infinity, and a NaN stays a NaN exactly if its payload neither vanishes nor carries in rounding |
| Doubles.NanBecomesZero | emu/float80.c:277-285 | a NaN with all its bits set becomes zero |
| Doubles.CarryLost | emu/float80.c:269-285 | a number just below the smallest normal double becomes zero |
| Doubles.TieMade | emu/float80.c:269-280 | a number above the middle of two denormal doubles is rounded down |
| Doubles.LowBitLost | emu/float80.c:273-273 | rounding up forgets the lowest bit |
| Doubles.ChoppedToInfinity | emu/float80.c:266-268 | rounding toward zero gives infinity |
| PathWalk.WalkResolves | fs/path.c:30-113 | from a resolved directory the walk ends in a path with no empty, "." or ".." component and no prefix that is a symbolic link, except the whole if the last link is not followed |
| PathWalk.BudgetSuffices | fs/path.c:78-94 | more than the links met makes no difference but to ELOOP |
| PathWalk.WalkEnters | fs/path.c:96-111 | every directory on the way to the result may be entered |
| PathWalk.ResolveIdempotent | fs/path.c:6-119 | the result, taken as an absolute path, resolves to itself without following a link |
| PathWalk.EloopIff | fs/path.c:78-94 | the walk fails with ELOOP exactly if without a limit it follows one link more than allowed |
| PathWalk.LoopFound | fs/path.c:80-94 | a loop of links, of whatever length and wherever it lies, is found out whatever the limit |
| PathWalk.Expand | fs/path.c:83-92 | the string put in place of a link has the components of the directory, the target and what is left |
| PathWalk.DropComponent | fs/path.c:40-45 | backing up over characters drops the last slash and what follows it, and nothing at the root |
| PathLaws.WalkThrough | fs/path.c:55-66 | directories are walked through one after the other |
| PathLaws.DotDotCancels | fs/path.c:40-51 | a directory followed by ".." might as well not be there |
| PathLaws.DotDotLeaves | fs/path.c:40-51 | ".." leads to the directory that holds this one |
| PathLaws.DotDotAtRoot | fs/path.c:40-51 | the root is its own parent |
| PathLaws.DotIgnored | fs/path.c:32-37 | "." changes nothing |
| PathLaws.LastName | fs/path.c:55-113 | a last name that is not a link is taken as it is, whether or not there is such a file |
| PathLaws.LastLinkKept | fs/path.c:66-66 | a last link is not followed unless wanted |
| PathLaws.RefusedFails | fs/path.c:96-108 | what is not a directory, or may not be searched, is not walked through |
| PathLaws.LinkResolves | fs/path.c:78-94 | a link resolves as its target with what is left behind it: an absolute one from the root, a relative one in the directory that holds it |
| PathLaws.LinkRefused | fs/path.c:80-81 | with no budget left there is no following it |
| PathLaws.GetpathComps | fs/generic.c:105-116 | a directory's path has the components of its mount point and of the path within the mount |
| PathLaws.BaseComps | fs/path.c:22-26 | a walk from a directory starts with the components of its path |
| PathWalk.NormalizeFrom | fs/path.c:6-119 | the loop over characters, with its recursion into links, is the walk over components with at most five links |
| PathWalk.PathNormalize | fs/path.c:121-142 | starts at the root or the directory; on success from a resolved start the result is resolved |
| PathWalk.PathIsNormalized | fs/path.c:145-156 | accepts exactly the slash-led strings without a double slash |
| PathWalk.ResultNormal | fs/path.c:115-116 | the final assertion holds for every path, from "/" and from every base that passes path_is_normalized and has no trailing slash |
| PathWalk.GetpathNormal | fs/generic.c:105-116 | such a base is what path_normalize starts from, so that neither assertion ever fails |
| PathRename.SelectedIsUnder | fs/fake-db.c:134-153 | the byte range from src + "/" up to src + "0", with src, selects exactly src and its descendants |
| PathRename.RenameMovesSubtree | fs/fake-db.c:134-176 | if dst lies outside src and has no descendants, the subtree moves one-to-one with its inodes, only dst is replaced and every other path is left alone |
| PathRename.RenameOrderIrrelevant | fs/fake-db.c:262-263 | whatever order the rows are visited in |
| FakeFs.RunOk | fs/inode.c:25-81 | over every run of open, create, link, unlink, rename and release, every path's inode and every open inode has a stat row, and every row is accounted for |
| FakeFs.NewNumberUnused | fs/fake-db.c:85-94 | a new file never takes the number of a file that is open or has a path |
| FakeFs.LifetimeExact | fs/inode.c:52-81 | with no unlink in flight and no path replaced, a row exists exactly while a path or an open file needs it |
| FakeFs.UnlinkRemovesLast | fs/fake.c:91-103 | unlinking the last path of an inode that is not open removes its row, and no other unlink does |
| FakeFs.RowLostIff | fs/inode.c:52-81 | a step removes a row if and only if it is the orphan check of an unlink, or the release of the last handle, while no path refers to the inode and nobody else has it open |
| FakeFs.NamesAfter | fs/fake-db.c:85-133 | what every name refers to after a step: a new link to the inode of the old name, an unlinked name to nothing, a created one to the new inode, all others as before |
| FakeFs.RenameNames | fs/fake.c:119-130 | what lay under the old name is found under the new one; every other name but the one replaced, and all if the host refuses, as before |
| FakeFs.RowsAfter | fs/fake-db.c:85-94 | what every row is after a step: as created, as set, or as before until it is lost |
| FakeFs.HandlesExact | fs/inode.c:25-81 | over every run the reference count of an inode is the number of handles attached and not released |
| FakeFs.RenameLeavesOrphan | fs/fake.c:119-130 | the row of a file replaced by a rename stays behind exactly if it was neither open nor reachable by another path |
| FakeFs.OrphanLeft | fs/fake.c:119-130 | a rename that leaves a row which no path, open file or pending check refers to |
| FakeFs.RowSurvivesIff | fs/generic.c:45-62 | the row that was looked up is there until the handle attaches, if and only if no such step comes in between |
| FakeFs.KeptByHandle | fs/inode.c:66-81 | none does if the file is open already and not released in between |
| FakeFs.KeptByPath | fs/fake-db.c:256-265 | nor if one of its paths is kept |
| FakeFs.OpenRace | fs/generic.c:45-62 | a run in which a handle ends up with the row of another file |
| FakeFs.Store.OpenFile | fs/fake.c:24-51 | creates only if asked to and missing; a number it returns has a row |
| FakeFs.Store.AttachInode | fs/generic.c:54-62 | attaches to a row that is still there, else fails |
| FakeFs.Store.PathCreate | fs/fake-db.c:85-94 | a new row, and the path that refers to it |
| FakeFs.Store.LinkFile | fs/fake.c:78-89 | the new path refers to the inode of the old one, unless the host refuses |
| FakeFs.Store.UnlinkPath | fs/fake.c:91-100 | removes the path and remembers to look for an orphan, unless the host refuses |
| FakeFs.Store.CheckOrphaned | fs/inode.c:52-58 | removes the row of an inode with no path that is not open |
| FakeFs.Store.ReleaseInode | fs/inode.c:66-81 | drops a handle, and with the last one the row of a pathless inode |
| FakeFs.Store.InodeOrphaned | fs/fake.c:390-396 | afterwards the row is there exactly if it was and some path refers to it; paths, open inodes and all other rows are as they were |
| FakeFs.Store.RenamePath | fs/fake.c:119-130 | updates the rows one by one, and puts them all back if the host refuses |

## Left out

- CodeCache.NeverReachesFreed: is about runs up to the first alias; once one has been met the intrusive list is corrupt, and what happens then is not modelled. ConsistentIffAliasFree says when that is, AliasMet that it can be.
- CodeCache.LinksStayExact: the same.
- BlockTable.Compile: instructions are taken to have at most 15 bytes and to consume at least one if they do not end the block, since the decoder's tables are not part of this model.
- CopyOnWrite.RunOk: host mmap and munmap are taken to succeed, mappings to lie in the address space and to have at least one page; an mprotect that breaks isolation is no step of these runs, see ProtectIsolatedIff.
- PageTable.Memory.Map: a mapping of no pages, which would leave an object that nothing releases, is not modelled.
- Tlb.TlbCache.Read: accesses are of one byte up to a page, as all callers make.
- Tlb.MemPtr: no other thread gets between its two locks, and the invalidation of translated code before a write is not modelled.
- RecordLocks.FlockRange: 64-bit overflow of the user's offsets is not modelled.
- RecordLocks.LockList.Acquire: a request's start is not after its end; waking blocked lockers and deadlock detection are not modelled.
- Futex.FutexTable.BeginWait: the word at the address is a parameter; timeouts, clocks and robust lists are not modelled.
- Futex.FutexTable.GetUnlocked: the chains of the hash table are a map from objects to their keys.
- Futex.WakeLikeQueues: is about another address; on the same address only counts and the result are stated, by RequeueLoop.
- PollSet.Poll.CtlAdd: no other thread gets between the check and the addition; OnePerFdIff is about what can.
- PollSet.Poll.Wait: timeouts, the host's epoll or kqueue and listening-socket restarts are nondeterministic inputs.
- Float80.MulCorrect: zero operands and products in the denormal range are the subject of Products.MulCorrectIff.
- Float80.NormalizeRoundCorrect: results in the denormal range are the subject of Products.SmallValueIff; the significand 2^127, which is no product of two 64-bit numbers, overflows to infinity in every mode and is left to addition and division.
- Products.ZeroGetsExponent: the source shifts zero by the full width of the type there, which C leaves undefined; the model has zero come out of it.
- PathWalk.NormalizeFrom: string lengths, mounts and changes of the filesystem during the walk.
- FakeFs.RunOk: opening by inode number, database migration and rebuilding, and the host files themselves.
- Code generation: the gadgets, the decoder, growth of the code buffer, and single stepping with its private block.
- Addition, subtraction, division, remainder, logarithm and square root of 80-bit numbers.
- Everything else in iSH: processes, signals, sockets, terminals, procfs, vector instructions, the app.
