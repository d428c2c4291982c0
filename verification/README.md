# A verified model of a collection of systems-programming labs

The repository holds solutions to a set of systems-programming labs: three heap allocators (`malloclab/`), a cache
simulator and cache-blocked matrix transposes (`cachelab/`), a shell with job control (`tshlab/`) and bit-level integer
and float puzzles (`datalab/`). This project models the core of each in Dafny and proves what it is for. Running
`dafny verify dfyconfig.toml` checks everything.

Code that changes memory in place is modelled by methods that change memory in place: the allocators write words of one
array, the simulator relinks and restamps line objects, the tokenizer writes NULs into its buffer, the transposes fill
a matrix, the job list is an array of slots. Each method is proved against a specification on values, and the theorems
are about those values, about every run, or about every interleaving.

**Allocators.** The heap is an `array<Word>` of 32-bit words; addresses are word indices and word 0 is 8-byte aligned.
`Blocks.dfy` says what a heap means: a layout of blocks that tile a range of words, and what placing, splitting,
merging and freeing do to it. `Tags.dfy` ties headers and footers to a layout, `Links.dfy` ties doubly linked lists to
sequences, `SegLists.dfy` puts nine of them together, `SingleList.dfy` has one. `Seglist.dfy`, `Explicit.dfy` and
`Implicit.dfy` are the three allocators; what they share is in `Heap.dfy` (tag writes, growing) and `Sequences.dfy`.
`Requests.dfy` is what any of them promises a caller, `Fragmentation.dfy` what always coalescing buys, `Bytes.dfy` is
memcpy, and `Runs.dfy` compares whole runs with an abstract machine and an ideal store.

**Cache.** `Lru.dfy` and `CacheTrace.dfy` have LRU sets as lists of tags and the theorems about whole traces;
`Addresses.dfy` tells the three printed numbers from the addresses alone; `Csim.dfy` is the simulator itself, with its
linked lines and timestamps. `Transpose.dfy` has the transposes.

**Shell.** `Jobs.dfy` is the job list, as a table and as the array. `Shell.dfy` is a step system: the steps of `eval`,
of `fg` and `bg` and of the wait they share, those of the SIGCHLD handler, and those of the children and the kernel
(exit, stop, continue, pending signals, masks; `sigprocmask`, `sigsuspend` and `waitpid` as in POSIX.1), interleaved
wherever signals are not blocked. `Witnesses.dfy` has runs in which it goes wrong, `Races.dfy` the exact conditions
under which the two races of `fg` do. `Parseline.dfy` is the tokenizer with a parser on strings and a renderer that it
inverts; `Lines.dfy` takes it over lines of any shape and says which of them are errors.

**Bits.** `CInts.dfy` has C's operators on 32-bit words over the integers. `HowManyBits.dfy` and `Floats.dfy` are the
three functions, with floats read as in section 3.4 of IEEE 754-2008 (binary32).

## What turned out otherwise than one might expect

- The size computation of the allocators wraps for requests of 2^64 - 15 bytes and more (`Words.GetMallocSizeExact`,
  `Words.GetMallocSizeWraps`); the allocators are verified for all smaller requests.
- The test by which the segregated realloc decides to shrink casts to `int`, so some growths of more than 2^31 bytes
  pass for shrinking (`Words.ShrinkTestExact`, `Words.ShrinkTestFails`).
- In the segregated and explicit allocators a freed block is merged with all its free neighbours if and only if it does
  not end at the heap top or its left neighbour is in use (`Blocks.FreedIsFull`). So full coalescing is stated of the
  implicit allocator only; `Seglist.LeavesNeighboursFree` has calls that leave two free blocks side by side.
- `csim` accepts E = 0 and then keeps one line per set that never hits, so a set fits its ways if and only if E >= 1 or
  it was never accessed (`CacheTrace.FitsItsWays`, `CacheTrace.OverfullAtZeroWays`).
- `eval` returns with SIGCHLD, SIGINT and SIGTSTP still blocked when fork or addjob fails (`Witnesses.GivesUpBlocked`,
  `Shell.SignalsRestored`). After a failed fork they stay blocked until a later command completes. After a failed addjob
  no command that forks completes and no SIGCHLD is handled any more, until `fg` is used (`Shell.BlockedForGood`; the
  seventeenth child gets there, `Witnesses.RunsOutOfSlots`).
- When `fg` is used then, its wait opens the signals, and the SIGCHLD handler uses a null pointer if the child that
  addjob had no room for stops (`Witnesses.NullReached`). It does so for no other child
  (`Shell.NullExactlyForUntracked`).
- `fg` does not block signals. A wait that has tested its job can miss the end of the job, and even sleep with nothing
  left to wake it, if and only if the signals are not blocked (`Races.MissesUnlessBlocked`). So the wait of `eval` never
  does (`Shell.NoLostWakeup`), and every wait of `fg` can, but for those after a failed fork or addjob
  (`Witnesses.WakeupLost` is a run).
- `fg` can also write to the slot of a job that the handler has just deleted. Every foreground job is waited for at all
  times if and only if no wait ever tests a foreground job behind an earlier slot that is marked as the foreground job's
  (`Races.WaitedUnlessDropped`, `Jobs.FgPidIs`; `Witnesses.ForegroundNotWaitedFor` is a run in which one is not).
  Without such a write all are (`Shell.OneForeground`).
- `transpose_submit` leaves B alone for widths other than 32, 61 and 64, although its own postcondition asks for the
  transpose. So it leaves the transpose there if and only if B held it before (`Transpose.TransposeSubmit`,
  `Transpose.LeavesOneElement`).
- Without a background mark, a last argument that starts with `&`, even a quoted one, is dropped and turns the job into
  a background job (`Parseline.RoundTrip`, `Parseline.LosesQuotedWord`).

## Model

| member | source | states |
|---|---|---|
| Words.GetMallocSizeExact | malloclab/mm-seglist.c:332-337 | the rounded size is a multiple of 8 with room for the request and its tags, wasting at most 7 bytes, if and only if size + 15 fits a size_t |
| Words.GetMallocSizeWraps | malloclab/mm-seglist.c:332-337 | a request for which it does not |
| Requests.RequestIsLeast | malloclab/mm-seglist.c:332-337 | a request is given the least multiple of 8 that holds it and its two tags |
| Requests.GrowIsLeast | malloclab/mm-seglist.c:400-401 | the heap grows by the least multiple of 8 that is at least the chunk and at least the request and its tags |
| Words.ShrinkTestExact | malloclab/mm-seglist.c:445 | the shrink test means "at least 16 bytes smaller" if and only if the new size is not larger or its excess, modulo 2^32, is outside (2^31, 2^32 - 16] |
| Words.ShrinkTestFails | malloclab/mm-seglist.c:445 | a growth by 4 GiB that passes for shrinking |
| Blocks.CoalesceParts | malloclab/mm-seglist.c:190-234 | boundary-tag coalescing replaces up to three adjacent free blocks by one that covers exactly their words, touches no other block and keeps the tiling |
| Blocks.LiveCoalesce | malloclab/mm-seglist.c:190-234 | coalescing is invisible to owners of live blocks |
| Blocks.FreedIsFull | malloclab/mm-seglist.c:190-194 | what the segregated coalesce leaves equals full coalescing if and only if the block does not end at the heap top or has no free left neighbour |
| Blocks.LiveRegions | malloclab/mm-seglist.c:380-408 | live payloads are 8-byte aligned, inside the heap and disjoint |
| Blocks.WalkVisits | malloclab/mm-implicit.c:169-174 | stepping from block to block by size meets every block exactly once, and the sizes add up to the range |
| Links.ChainRemove | malloclab/mm-seglist.c:178-187 | the two writes of removeBlock leave a doubly linked list of exactly the other blocks, next and prev mutually inverse |
| Links.ChainPush | malloclab/mm-seglist.c:149-175 | the four writes of placeFreeBlock put the block in front of the list |
| Links.ChainReplace | malloclab/mm-seglist.c:281-329 | the link writes of a split put the remainder in the block's place |
| Tags.MergeDone | malloclab/mm-seglist.c:208-231 | after the two tag writes of a merge, header equals footer for every block of the merged layout, whatever the list code then does to links, and no live word changed |
| SegLists.RemoveShape | malloclab/mm-seglist.c:178-187 | unlinking from one of nine lists in the same words leaves the other eight as they were |
| SegLists.PushShape | malloclab/mm-seglist.c:149-175 | the same for listing a block, which ends up in the list its size selects |
| SegLists.SubstituteShape | malloclab/mm-seglist.c:281-329 | the same for replacing a block by its remainder |
| SegLists.ClassBySize | malloclab/mm-seglist.c:144-146 | a size has index i if and only if it is in [2^(i+3), 2^(i+4)), the first class reaching down to 0 and the ninth having no upper end |
| SegLists.PlacedOrder | malloclab/mm-seglist.c:281-329 | what place does to the order of each list: the block's position is closed, or taken by the remainder when that is of the same class; a remainder of another class goes to the front of its own list |
| SegLists.MergedHeads | malloclab/mm-seglist.c:149-234 | a freed block, merged with its neighbours, is the first of the list for its size in bytes |
| SegLists.LowClassTooSmall | malloclab/mm-seglist.c:266-278 | classes below the one the search starts at hold no block that fits, although the start is computed from 32 bits of the size |
| Seglist.Allocator.RemoveBlock | malloclab/mm-seglist.c:178-187 | removes the block from whichever list it is in and writes nothing but link words |
| Seglist.Allocator.PlaceFreeBlock | malloclab/mm-seglist.c:149-175 | the block becomes the first of the list for its header's size in bytes, and the other eight lists stay as they are |
| Seglist.Allocator.Coalesce | malloclab/mm-seglist.c:190-234 | restores all invariants (tiling, tags, nine lists holding each free block once); merges with every free neighbour, except at the heap top; no live word changes |
| Seglist.Allocator.ExtendHeap | malloclab/mm-seglist.c:237-249 | adds exactly one free block at the old break, or changes nothing |
| Seglist.Allocator.FindInList | malloclab/mm-seglist.c:252-263 | the first block of one list that fits, or NULL if and only if no block of that class does; it terminates |
| Seglist.Allocator.FindFit | malloclab/mm-seglist.c:266-278 | NULL if and only if no free block of the whole heap fits; otherwise the first fitting block of the list of its class, and no fitting block is in a lower class, classes being told by sizes in bytes |
| Seglist.Allocator.Place | malloclab/mm-seglist.c:281-329 | allocates, splitting when at least 16 bytes remain; the remainder takes the block's place in its list or moves to the front of the list for its own size |
| Seglist.Allocator.Malloc | malloclab/mm-seglist.c:380-408 | fails, changing nothing, if and only if the size is 0 or no free block has as many bytes as size + 8 rounded up to 8 and what is left of the heap is less than the growth, the least multiple of 8 that is at least 256 and size + 8; the heap grows by just that when no block fits, and not otherwise; the result is aligned, inside the heap, new, large enough, at most 23 bytes larger than asked for, and no word of a live block changed |
| Seglist.Allocator.Free | malloclab/mm-seglist.c:413-421 | exactly the freed block stops being live; all invariants hold and no other live word changed |
| Seglist.Allocator.ReallocInPlace | malloclab/mm-seglist.c:426-454 | same size and shrinking keep the pointer and the contents and free exactly the tail; NULL and 0 are malloc and free, with the same failure condition and the same words kept |
| Seglist.Allocator.MmInit | malloclab/mm-seglist.c:348-375 | succeeds if and only if the region has 77 words, and then leaves one free block of 64 words |
| Seglist.LeavesNeighboursFree | malloclab/mm-seglist.c:190-194 | two calls of malloc and two of free that leave a valid heap with two adjacent free blocks |
| Seglist.Allocator.BytesConserved | malloclab/mm-seglist.c:348-375 | in every valid heap the blocks, walked once each, have all its bytes but 52 |
| Seglist.Allocator.FreeBlockListedOnce | malloclab/mm-seglist.c:149-187 | in every valid heap a free block is in exactly one list, whose range of sizes contains its bytes, exactly once, and the next and prev links around it are mutually inverse, the first block's prev being the head slot |
| Seglist.Allocator.ListedIsFree | malloclab/mm-seglist.c:149-187 | and only free blocks are listed, each with its bytes in the range of its list |
| Seglist.Allocator.HeaderWords | malloclab/mm-seglist.c:101-112 | in every valid heap header and footer of a block hold its size in bytes, plus one if and only if it is allocated |
| Runs.Run | malloclab/mm-seglist.c:348-454 | after any script of allocations, releases, in-place reallocs and stores from a fresh heap, blocks, free lists and contents are where the abstract machine gets under that script; there a request fails if and only if no block fits and the heap cannot grow, and only the contents of fresh memory are left open |
| Runs.FitsRequest | malloclab/mm-seglist.c:348-454 | in a heap reached by a script, every name owns an aligned live block of its own with room for the bytes asked for last and at most 23 bytes more, tags included |
| Runs.AllocRepresents | malloclab/mm-seglist.c:380-408 | an allocation adds one object to the ideal store and keeps all others |
| Runs.ReleaseRepresents | malloclab/mm-seglist.c:413-421 | a release removes one object and keeps all others |
| Runs.ResizeRepresents | malloclab/mm-seglist.c:440-454 | an in-place realloc keeps as much of its object as still fits, and all others |
| SingleList.PlaceSplit | malloclab/mm-explicit.c:293-315 | splitting leaves the remainder in the block's place, the one list still holding exactly the free blocks |
| SingleList.PlaceWhole | malloclab/mm-explicit.c:317-326 | using up a block takes it, and nothing else, off the list |
| SingleList.LeftMergeDone | malloclab/mm-explicit.c:240-247 | merging left without relinking keeps the list exact, the neighbour keeping its position |
| Explicit.Allocator.Coalesce | malloclab/mm-explicit.c:217-260 | all cases restore the invariants: tiling, tags, and one list with inverse links that holds each free block once |
| Explicit.Allocator.FindFirstFit | malloclab/mm-explicit.c:278-289 | NULL if and only if no free block of the heap fits; otherwise the first of the list that does |
| Explicit.Allocator.Place | malloclab/mm-explicit.c:293-327 | allocates in whole or in part, with the list changed accordingly |
| Explicit.Allocator.ExtendHeap | malloclab/mm-explicit.c:263-275 | adds exactly one free block, listed first, or changes nothing |
| Explicit.Allocator.Malloc | malloclab/mm-explicit.c:358-384 | fails, changing nothing, if and only if the size is 0 or no free block has as many bytes as size + 8 rounded up to 8 and what is left of the heap is less than the growth, the least multiple of 8 that is at least 4096 and size + 8; the heap grows by just that when no block fits, and not otherwise; the result as for the segregated allocator, with first fit along the list |
| Explicit.Allocator.Free | malloclab/mm-explicit.c:389-397 | exactly the freed block stops being live; no other live word changed |
| Explicit.Allocator.MmInit | malloclab/mm-explicit.c:338-353 | succeeds if and only if the region has 1029 words, and leaves one free block of 1024, listed |
| Explicit.Allocator.FreeBlockListedOnce | malloclab/mm-explicit.c:189-214 | in every valid heap exactly the free blocks are in the list, each once, with mutually inverse links from the prologue to the epilogue |
| Explicit.Allocator.BytesConserved | malloclab/mm-explicit.c:338-353 | the blocks have all bytes of the heap but 20 |
| Implicit.Allocator.Coalesce | malloclab/mm-implicit.c:178-204 | merges with every free neighbour and writes only the outer two tags |
| Implicit.Allocator.ExtendHeap | malloclab/mm-implicit.c:207-220 | grows the heap by a free block merged with a free last block, or changes nothing |
| Implicit.Allocator.FindFirstFit | malloclab/mm-implicit.c:243-253 | the lowest free block that fits, or NULL when none does |
| Implicit.Allocator.Place | malloclab/mm-implicit.c:257-270 | allocates, splitting when at least 16 bytes remain; no two free blocks become adjacent |
| Implicit.Allocator.Malloc | malloclab/mm-implicit.c:300-328 | fails, changing nothing, if and only if the size is 0 or no free block has as many bytes as size + 8 rounded up to 8 and what is left of the heap is less than the growth, the least multiple of 8 that is at least 4096 and size + 8; the heap grows by just that when no block fits, and not otherwise; the result as above, with first fit by address |
| Implicit.Allocator.Free | malloclab/mm-implicit.c:333-339 | exactly the freed block stops being live, merged with every free neighbour |
| Implicit.Allocator.Realloc | malloclab/mm-implicit.c:344-368 | the new block holds the first min(size, old payload) bytes, its whole words equal and its last word agreeing in as many lower bytes as remain; the old one is released, no other live word changes; a nonzero size fails on the same condition as malloc, and then nothing changes |
| Implicit.Allocator.MmInit | malloclab/mm-implicit.c:281-295 | succeeds if and only if the region has 1028 words, and leaves one free block of 1024 |
| Implicit.Allocator.EmptyHeapIsOneBlock | malloclab/mm-implicit.c:333-339 | once every live block was freed, in any order, the heap is one free block of its bytes but 16 |
| Implicit.Allocator.BytesConserved | malloclab/mm-implicit.c:281-295 | the blocks have all bytes of the heap but 16 |
| Implicit.MallocThenFree | malloclab/mm-implicit.c:300-339 | a malloc that did not grow the heap, followed by free of its result, restores the same addresses, sizes and free bits |
| Implicit.Allocator.MallocFree | malloclab/mm-implicit.c:300-339 | the calls themselves: malloc and then free of its result restore the blocks when the break did not move, and otherwise leave exactly the blocks of the grown heap; no live word changes |
| Fragmentation.CoalesceRepairs | malloclab/mm-implicit.c:178-204 | coalescing restores "no two adjacent free blocks" wherever one freed block may have broken it |
| Fragmentation.PlaceThenFree | malloclab/mm-implicit.c:178-270 | placing and coalescing are inverse on layouts without adjacent free blocks |
| Fragmentation.AllFreeIsOne | malloclab/mm-implicit.c:178-204 | without live blocks such a layout is a single block |
| Bytes.Memcpy | malloclab/mm-implicit.c:363 | the n / 4 whole words are copied; of the next one the n % 4 lower bytes are copied and the others kept; nothing else is written |
| Lru.AccessIsTouch | cachelab/csim.c:119-147 | one access keeps "the lines of a set are its most recently used tags" |
| Lru.HitRule | cachelab/csim.c:119-147 | an access hits if and only if its tag was accessed before and fewer than E distinct other tags since, for every E, 0 included |
| CacheTrace.HoldsMostRecent | cachelab/csim.c:96-150 | after any trace every set holds its E most recently used tags |
| CacheTrace.HitsExactlyWhenRecent | cachelab/csim.c:96-150 | the hit rule on whole traces, for every E |
| CacheTrace.FitsItsWays | cachelab/csim.c:104-147 | a set holds at most E lines if and only if E is at least 1 or the set was never accessed |
| CacheTrace.OverfullAtZeroWays | cachelab/csim.c:104-117 | one load with E = 0 after which the set holds a line |
| CacheTrace.Inclusion | cachelab/csim.c:96-150 | what a cache holds after any trace is held by every cache with more ways |
| CacheTrace.MoreWaysNeverHurt | cachelab/csim.c:96-150 | hits never fall and misses never rise with more ways |
| CacheTrace.Accounting | cachelab/csim.c:96-152 | hits + misses = #L + #S + 2 #M, and misses = evictions + resident lines |
| Addresses.CountersAre | cachelab/csim.c:96-152 | hits, misses and evictions told from the addresses: a load, store or modify hits if and only if its line addr / 2^b was accessed before and fewer than E distinct lines of the same residue modulo 2^s since; a miss evicts if and only if max(E, 1) lines of that residue were accessed before; every modify hits once more |
| Addresses.LineIs | cachelab/csim.c:100-102 | set index and tag are remainder and quotient of addr / 2^b by 2^s |
| Csim.CacheSet.Search | cachelab/csim.c:119-133 | finds the line of the tag, or else the number of lines and the oldest timestamp |
| Csim.CacheSet.InsertInLine | cachelab/csim.c:42-51 | appends exactly one line to the linked list |
| Csim.CacheSet.ReplaceInLine | cachelab/csim.c:29-39 | overwrites exactly the least recently used line |
| Csim.CacheSet.Access | cachelab/csim.c:104-147 | the timestamped linked lines refine the recency list: same hit, same eviction, same new order |
| Csim.Simulator.Process | cachelab/csim.c:96-150 | one record changes one set and the counters as the list model says |
| Csim.Simulate | cachelab/csim.c:92-152 | the three printed numbers are those of the list model, and those told from the addresses, on every trace |
| Transpose.TransposeRow | cachelab/trans.c:49-56 | moves a row of a block, keeping back its diagonal element |
| Transpose.TransposeBlock | cachelab/trans.c:48-59 | with a delayed diagonal; a stale kept-back element is only ever written where it is still right |
| Transpose.TransposeBlocks | cachelab/trans.c:46-61 | B is the transpose of A, for all sizes and every block width |
| Transpose.TransposeEight | cachelab/trans.c:66-104 | the block through local variables, out of order |
| Transpose.TransposeEights | cachelab/trans.c:62-107 | B is the transpose of A, for all sides that are multiples of 8 |
| Transpose.TransposeSubmit | cachelab/trans.c:28-112 | B is the transpose of A afterwards if and only if the width is 32, 61 or 64 or it was before; on other widths B is left alone |
| Transpose.LeavesOneElement | cachelab/trans.c:28-112 | a 1 by 1 input on which it is not |
| Transpose.CheckTranspose | cachelab/trans.c:163-175 | is_transpose answers 1 if and only if B is the transpose of A |
| Jobs.AddedIs | tshlab/tsh.c:635-661 | addjob adds exactly its pid and keeps every other job |
| Jobs.DeletedIs | tshlab/tsh.c:665-680 | deletejob removes exactly its pid |
| Jobs.FgPidIs | tshlab/tsh.c:684-691 | fgpid is the pid of job p if and only if p is in the foreground and no earlier slot is marked so; it is 0 if and only if every foreground job has such a slot before it; with no free slot marked so, only if there is no foreground job |
| Jobs.StrayIs | tshlab/tsh.c:337 | setting the state of a free slot changes no job, but FG makes the slot look like a foreground job |
| Jobs.TableSize | tshlab/tsh.c:635-661 | a table holds at most sixteen jobs, and sixteen exactly when no slot is free |
| Jobs.JobList.AddJob | tshlab/tsh.c:635-661 | the first free slot gets the job and the next id, which is then one more, or 1 after sixteen; or nothing changes |
| Jobs.JobList.DeleteJob | tshlab/tsh.c:665-680 | clears the job's slot and sets the next job id to one more than the largest in the table, or to 1 in an empty one; or changes nothing |
| Jobs.JobList.FindFgPid | tshlab/tsh.c:684-691 | the first foreground job's pid, or 0 |
| Jobs.JobList.GetJobPid | tshlab/tsh.c:695-705 | the first slot with the pid, or none |
| Jobs.JobList.MarkStopped | tshlab/tsh.c:556-560 | exactly that job becomes stopped; there is no job if and only if the table has no such pid |
| Jobs.FillUp | tshlab/tsh.c:635-661 | sixteen jobs added to a new list get the ids 1 to 16, and the next id is 1 again |
| Shell.StepKeeps | tshlab/tsh.c:261-379 | every step of eval, fg, bg, the handler, the children and the kernel keeps the invariant |
| Shell.JobIds | tshlab/tsh.c:635-680 | the steps of the system treat job ids the same way |
| Shell.JobsAreChildren | tshlab/tsh.c:261-289 | in every interleaving, when no handler runs and eval is not between fork and addjob, the pids in the job list are distinct and are those of the children not waited for, but for those addjob had no room for |
| Shell.AddedBeforeReaped | tshlab/tsh.c:266-274 | no job is ever added after its child was reaped |
| Shell.AddJobFindsRoom | tshlab/tsh.c:272-275 | addjob succeeds if and only if there are at most sixteen children, not counting those it had no room for before |
| Shell.JobsAreAllChildren | tshlab/tsh.c:261-289 | with at most sixteen children at any time, the job list is exactly the children not waited for |
| Shell.NoLostWakeup | tshlab/tsh.c:370-379 | while eval sleeps in sigsuspend, its child is the foreground job and is running unless a SIGCHLD is pending; the same of fg when it finds the signals blocked |
| Races.MissesUnlessBlocked | tshlab/tsh.c:370-379 | in every run, once a wait has tested its job, its child, other children and the handler can go on so that it goes to sleep although its job is no longer the foreground job, or even with no child left and nothing pending, if and only if the signals are not blocked |
| Shell.OneForeground | tshlab/tsh.c:261-379 | at most one job is in the foreground, the one the shell waits for, and none between commands, unless fg or bg wrote to the slot of a job deleted since it was looked up |
| Races.StepDrops | tshlab/tsh.c:376-378 | of all steps from a state in which every foreground job is waited for, exactly a wait's test of a foreground job behind an earlier slot marked as the foreground job's leaves a foreground job without anyone waiting for it |
| Races.WaitedUnlessDropped | tshlab/tsh.c:261-379 | along every run, every foreground job is waited for at all times if and only if there is no such test in it |
| Shell.SignalsRestored | tshlab/tsh.c:261-289 | outside eval the signals are blocked if and only if the last eval gave up after a failed fork or addjob |
| Shell.BlockedForGood | tshlab/tsh.c:266-275 | once addjob has failed, in every continuation without fg the list stays full, the signals stay blocked, no SIGCHLD is handled and no command that forks completes |
| Witnesses.GivesUpBlocked | tshlab/tsh.c:266-270 | a run after which the signals are blocked between commands |
| Witnesses.RunsOutOfSlots | tshlab/tsh.c:272-275 | a run in which addjob finds no room |
| Shell.NullExactlyForUntracked | tshlab/tsh.c:556-560 | in every run, the handler finds no job for a stopped child if and only if addjob had no room for it |
| Witnesses.NullReached | tshlab/tsh.c:556-560 | a run in which the handler uses the null pointer: seventeen background commands, fg, and a stop of the last child |
| Witnesses.WakeupLost | tshlab/tsh.c:370-379 | a run in which fg sleeps with no child left and nothing pending |
| Witnesses.ForegroundNotWaitedFor | tshlab/tsh.c:322-347 | a run after which the shell is between commands while a running job is in the foreground |
| Shell.LoopEnds | tshlab/tsh.c:542-563 | the handler's loop, left alone, ends within twice the unreported children plus two steps |
| Shell.LoopGoesOn | tshlab/tsh.c:542-563 | and in every run it has a next step before that, if and only if it is not at a stopped child that addjob had no room for |
| Parseline.Tokenize | tshlab/tsh.c:427-491 | the in-place loop finds the tokens the string parser finds, or fails exactly when it does |
| Parseline.WriteKeeps | tshlab/tsh.c:465-466 | the NUL written behind a token leaves all earlier tokens whole |
| Parseline.Parseline | tshlab/tsh.c:402-527 | returns what the string parser says, with every token and file a NUL-terminated string in the buffer; the builtin is quit, jobs, bg or fg if and only if the string at argv[0] is that word |
| Parseline.ScanRender | tshlab/tsh.c:427-491 | the loop finds exactly the words and files of a rendered line, however each is quoted |
| Parseline.RoundTrip | tshlab/tsh.c:402-527 | up to 126 words, each bare or in either kind of quotes, files and a background mark parse back to exactly those, if and only if there is a mark or the last word does not start with one; the command is one of the four builtins if and only if the first word is its name |
| Parseline.LosesQuotedWord | tshlab/tsh.c:402-527 | a rendered line whose quoted last word is lost and taken for the background mark |
| Lines.ScanDraw | tshlab/tsh.c:427-491 | the loop reads any sequence of words and redirection signs, separated by any blanks, tabs, returns and newlines, item by item |
| Lines.ErrorExactly | tshlab/tsh.c:427-498 | a line of up to 126 words is an error if and only if a quote is left open, a redirection has no file name, a second file is named for the same direction, or a word stands behind signs of both directions; white space alone is blank |
| Lines.StopsWhenFull | tshlab/tsh.c:492-493 | a line that starts with 127 words is not read any further |
| HowManyBits.PowerOfTwo | datalab/bits.c:292 | x & (x - 1) is 0 exactly for powers of two |
| HowManyBits.Halve | datalab/bits.c:294-307 | one shift-and-count step keeps the total of counted and remaining bits |
| HowManyBits.HowManyBits | datalab/bits.c:285-311 | the least n with -2^(n-1) <= x < 2^(n-1), for all 32-bit x |
| Floats.ValueIs | datalab/bits.c:323-345 | what an encoding stands for, by its sign, exponent and fraction, in units of 2^-149 |
| Floats.OneIs | datalab/bits.c:323-345 | so 0x3F800000 is one |
| Floats.HalvedExactly | datalab/bits.c:342-344 | lowering the exponent halves exactly |
| Floats.HalvedToEven | datalab/bits.c:337-341 | shifting the encoding, with its correction, is rounding to nearest, ties to even, across the subnormal boundary |
| Floats.FloatHalf | datalab/bits.c:323-345 | half the argument correctly rounded: no finite float is nearer, and ties go to the even encoding; infinities and NaNs are returned unchanged |
| Floats.FloatF2i | datalab/bits.c:358-389 | truncation toward zero when that is an int, and 0x80000000 otherwise |

## Left out

- Seglist.Allocator.Malloc: requests of 2^64 - 15 bytes and more, where the size computation wraps; `Words.GetMallocSizeExact` says exactly which. The same holds of Explicit.Allocator.Malloc, Implicit.Allocator.Malloc and the two reallocs.
- Seglist.Allocator.ReallocInPlace: the moving path of the segregated realloc, which copies `size` bytes even out of a smaller block; `Implicit.Allocator.Realloc` is the version whose contents are preserved.
- Runs.Run: scripts that reuse a live name, make a request that wraps, or ask realloc to move a block; such an operation is skipped and changes nothing.
- Implicit.Allocator.Realloc: it reads up to two words past the old payload, which stay inside the heap; only the payload is promised.
- Heap.MemSbrk: `mem_sbrk` is not part of this model; it is a region of bounded size with arbitrary contents, under 2^31 bytes, that either grows or fails with no change. Pointers are word indices, so `fixAddress` and 32-bit pointer truncation do not appear.
- Explicit realloc, all three calloc functions, `mm_checkheap`, the unused `find_best_fit` and `malloclab/mm.c`, a stub.
- Csim.Simulate: options and trace files are parsed elsewhere; timestamps are unbounded, `s` is at most 5 as `initSet` requires, the tag is the address shifted by s + b (the mask in the source shifts beyond the width of an int), and whether malloc fails is not modelled.
- Transpose.TransposeSubmit: widths 32 and 61 at other heights, where the block size is never set, and width 64 at heights that are not multiples of 8, where the code leaves the matrix. The baseline `trans`, which fits square matrices only, and cache-miss counts.
- Shell.StepKeeps: `fg` and `bg` of a job that does not exist, whose null pointer they use, and a job that disappears between being found by its job id and its pid being read; `quit` and `jobs`, I/O redirection, execve, printing, failing `sigprocmask`, and what children do before execve. SIGINT and SIGTSTP handlers only signal children, so they appear as child steps and as reasons for sigsuspend to return.
- Jobs.JobList.AddJob: uniqueness of job ids, which the wrap and the reset in deletejob do not give.
- Parseline.Parseline: lines of 1024 characters and more, and a NULL command line; the text of error messages.
- The other functions of `datalab/bits.c`, one expression each, and the proxy in `proxylab/`, whose cache frees a node before it reinserts it.
