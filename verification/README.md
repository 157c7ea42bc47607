# Memory manager, CPU services and number generator of a uC/OS-II board

A Dafny model of the algorithmic core of an STM32F4 firmware that builds on Micrium uC/LIB and uC/CPU:

* the memory manager (`UCOSII/uC-LIB/lib_mem.c`): segments, the bump allocator, static pools, dynamic
  pools, and the word-optimised `Mem_Copy`, `Mem_Move` and `Mem_Cmp`;
* timestamps, interrupt-disabled-time measurement and bit counting (`UCOSII/uC-CPU/cpu_core.c`);
* the linear congruential generator (`UCOSII/uC-LIB/lib_math.c`);
* interrupt priorities (`CORE/core_cm4.h`) and the bit-field macros (`UCOSII/uC-LIB/lib_def.h`).

`dafny verify dfyconfig.toml` checks everything.

## How the model is built

Addresses and sizes are 32-bit words (`Machine.Word`); wrap-around is written out as `% WORD`. A
pointer and `CPU_ALIGN` take 4 bytes, pointers stored in memory are little-endian. Argument checks
are on, debug information is off. Bitwise operators are defined bit by bit on naturals (`Bits`).

**Memory manager as a transition system.** `MemSystem` takes one critical section as one step, so a
sequence of steps is an interleaving of any number of tasks: segment creation, allocation through
`Mem_SegAlloc`, `Mem_SegAllocExt` and `Mem_SegAllocHW`, pool creation, the three sections of
`Mem_DynPoolBlkGet`, the two of `Mem_DynPoolBlkFree`, and stores of any byte by a block's owner into
its block. Memory is a function from addresses to bytes and the free lists live in it, as they do in
the program. A grant is an answered request with a serial number: the type lets two grants name the
same address, and the theorem is that none do. `MemInvariant` states the invariant over a ledger that gives every carved range
one owner, `MemSteps` shows that each kind of step keeps it, `MemTheorems` draws the safety theorem,
`MemPools`, `MemRefusal` and `MemSequential` the consequences for pools. `MemAnswers` says of every step
what it answers and what it changes, in terms of the request and the state it finds, and over runs that
blocks are what the creation of their pool or segment asked for.

**Objects.** `Registry.MemSeg`, `Registry.SegList`, `DynPool.MemDynPool`, `StaticPool.Pool`,
`Rand.MathModule`, `TimeStamp.CpuTs`, `IntDisMeas.Module`, `Nvic.Registers` and `BitField.Variable`
are the source's data with its operations in place; each method is tied to the specification that
the theorems are about.

**What a step demands of its caller** (`MemSystem.Legal`): a new segment's descriptor is not on the
list; only a block's owner frees it or writes to it; `blk_size` holds a pointer (note 1 of
`Mem_DynPoolCreateInternal`); a pool is not put into a segment whose next address is 0, the null
pointer of its free list; and no request is granted on the strength of a size that wrapped a word. The last one
is exactly that the segment answers as an exact allocator would (`Segment.GrantFitsIff`); requests
that wrap and are refused are part of the runs.

## Findings

* A request whose padded size wraps a word can be granted outside its segment
  (`Segment.AllocWrapExample`); `Segment.AllocAgreesIff` gives the exact condition.
* `Mem_SegRemSizeGet` predicts allocation with the same alignment for every positive size if and only
  if the next address is already aligned (`Segment.RemSizePredicts`). Otherwise it fails in two ways.
  While the aligned next address is within the end it fails for exactly the sizes whose request, gap
  included, wraps a word: these are granted (`Segment.RemSizePredictsIff`, `Segment.RemSizeWrapExample`).
  Past the end the reported remainder has wrapped, promises bytes that are refused
  (`Segment.RemSizePast`) and is right for exactly the sizes that wrap (`Segment.RemSizePastIff`).
  `Segment.RemSizeExact` is the one statement for every size and state.
* A failed growth of a dynamic pool keeps its count. A request is refused exactly when blocks held,
  requests under way and failed growths use up the limit (`MemPools.RefusedIff`). With no request
  under way a pool refuses for good if and only if its failed growths have reached the limit
  (`MemPools.DrainedForGoodIff`); `MemExamples.DrainedByOneFailure` is a run that gets there. In any
  state it does if and only if its limit is used up, no block is held, no request that has yet to look
  at the free list can find a block there, and none under way can carve one
  (`MemRefusal.RefusesForeverIff`).
* A request that runs between the two critical sections of a Free can make a limited pool create
  more than `BlkQtyMax` blocks (`MemExamples.InterleavingExceedsLimit`). `MemPools.MissExceedsIff`
  says exactly which request commits the pool past its limit, by the counters at that moment, and
  `MemPools.LimitKeptIff` that a run stays within if and only if it contains none. Blocks held never
  exceed the limit, and in sequential runs neither do blocks created (`MemSequential.CreatedIsPeak`).
* `Mem_Copy` on overlapping buffers is still defined: it repeats the first octets with the period of
  the gap. It delivers the source if and only if the destination does not start inside the source
  past its first octet (`MemOps.CopyDeliversIff`).
* `Mem_PoolCreate` computes two products that can wrap. The pool size holds the blocks if and only if
  the first does not (`StaticPool.PoolSizeHoldsIff`); `StaticPool.PoolWrapExample` is a creation that is
  granted although its first block ends outside the segment. The table of free blocks holds its entries
  if and only if the second does not (`StaticPool.TableSizeHoldsIff`). Blocks of at least a pointer make
  the second follow from the first (`StaticPool.TableFollows`); smaller ones do not, and
  `StaticPool.TableWrapExample` is a creation that is granted with a table reaching outside the heap.
* A dynamic pool whose first blocks are carved at address 0 loses them: their head is the null pointer.
  What is threaded is a free list if and only if it does not start there (`PtrMem.ThreadChainsIff`);
  `MemExamples.PoolAtNull` is such a creation, `MemExamples.PoolAtNullIsEmpty` says so for all of them.
* `CPU_IntDisMeasMaxCurReset` reads and clears in two critical sections, so it can return something else
  than it erases. When nobody else clears in between, the two are equal if and only if no section that
  ended there was longer, overhead taken off, than what is returned; when somebody does, if and only if
  what is returned is still the longest since that clear (`IntDisMeas.ResetIff`).
  `IntDisMeas.ResetLosesSection` and `IntDisMeas.ResetsCross` are a failing run of either kind.

## Model

| member | source | states |
|---|---|---|
| `MemTheorems.StepKeepsInv` | UCOSII/uC-LIB/lib_mem.c:1972-2105 | one critical section of any task, or any store by an owner into its block, keeps the whole invariant: every carved range has one owner, free chains are intact, counters balance |
| `MemTheorems.RunKeepsInv` | UCOSII/uC-LIB/lib_mem.c:1972-2105 | so does every run of any number of tasks |
| `MemTheorems.EveryRunSafe` | UCOSII/uC-LIB/lib_mem.c:2458-2585 | in every state of every run from the empty manager: segments pairwise disjoint; padded footprints of all grants pairwise disjoint across segments and pools; each grant aligned and inside a segment; each free list finite, without repetition, its padded blocks disjoint from grants and from other free lists; for limited pools blocks held <= BlkAllocCnt <= BlkQtyMax, the counter being held + waiting + failed |
| `MemSteps.SegCreateKeeps` | UCOSII/uC-LIB/lib_mem.c:885-941 | creating a segment keeps the invariant whichever way it is answered |
| `MemSteps.SegAllocKeeps` | UCOSII/uC-LIB/lib_mem.c:2458-2585 | an allocation through any of the three entry points keeps the invariant |
| `MemSteps.PoolCreateKeeps` | UCOSII/uC-LIB/lib_mem.c:2706-2797 | creating a pool keeps it: the initial blocks are cells of the new chain, line by line when padded |
| `MemSteps.GetPopKeeps` | UCOSII/uC-LIB/lib_mem.c:2005-2016 | unlinking the first free block turns it from free to granted, or leaves all as it was when the list is empty |
| `MemSteps.GetGrowKeeps` | UCOSII/uC-LIB/lib_mem.c:2024-2035 | growing the pool keeps the invariant, also when the segment refuses |
| `MemSteps.FreePushKeeps` | UCOSII/uC-LIB/lib_mem.c:2099-2102 | linking a block back keeps the chain acyclic and disjoint from what is granted |
| `MemSteps.OwnerStoreKeeps` | UCOSII/uC-LIB/lib_mem.c:2005-2016 | whatever an owner writes into its block, no free list is disturbed |
| `MemAnswers.SegCreateAnswers` | UCOSII/uC-LIB/lib_mem.c:885-941 | a segment is created exactly for a positive size that does not run past the top address and a power-of-two padding, on a range clear of every other segment; it has the base, end and padding asked for and starts empty; each error has its cause and changes nothing |
| `MemAnswers.SegAllocAnswers` | UCOSII/uC-LIB/lib_mem.c:1114-1279 | through each of the three entry points: a block is answered exactly when its padded footprint ends within the segment; the new grant has the answered address, the requested size, alignment 4 for Mem_SegAlloc and the argument otherwise, the segment's padding for Mem_SegAllocHW and none otherwise; the segment advances to the end of the footprint; a refusal names its cause and changes nothing |
| `MemAnswers.PoolCreateAnswers` | UCOSII/uC-LIB/lib_mem.c:2706-2797 | with and without initial blocks: the pool has the requested segment, block size and limit, the segment's padding exactly for hardware, the larger of the alignment and the padding; initial blocks are chained in order, one rounded block size apart; invalid arguments and a full segment change nothing |
| `MemAnswers.GetCountAnswers` | UCOSII/uC-LIB/lib_mem.c:1992-2003 | refused exactly when a limit exists and blocks held, requests under way and failed growths reach it; otherwise one more is counted |
| `MemAnswers.GetPopAnswers` | UCOSII/uC-LIB/lib_mem.c:2006-2016 | an empty list sends the request on; otherwise the head of the list is issued with the pool's size, alignment and padding and the list is what followed it |
| `MemAnswers.GetGrowAnswers` | UCOSII/uC-LIB/lib_mem.c:2024-2035 | a block is carved where a request of the pool's size, alignment and padding belongs, exactly when it ends within the segment; the answered address is the issued one; a refusal keeps the count |
| `MemAnswers.FreeCountAnswers` | UCOSII/uC-LIB/lib_mem.c:2086-2097 | an owner's Free takes one off the count of a limited pool and nothing else |
| `MemAnswers.FreePushAnswers` | UCOSII/uC-LIB/lib_mem.c:2099-2102 | the block heads the list, its link word holds the old head, no other byte changes |
| `MemAnswers.OwnerStoreAnswers` | UCOSII/uC-LIB/lib_mem.c:2005-2016 | what an owner writes changes its own byte of memory and no field of the manager |
| `MemAnswers.MadeStays` | UCOSII/uC-LIB/lib_mem.c:1972-2105 | no run changes what a pool was created with |
| `MemAnswers.PoolHandsOut` | UCOSII/uC-LIB/lib_mem.c:1972-2036 | a block answered by a pool is the newly issued one, of the size, alignment and padding of the pool's creation |
| `MemAnswers.EveryBlockAsCreated` | UCOSII/uC-LIB/lib_mem.c:2770-2776 | over every run from a pool's creation: every block its Get answers is newly issued, has the created block size, is aligned as asked, and is padded as the segment is exactly for hardware |
| `MemAnswers.HwBlockOwnsLines` | UCOSII/uC-LIB/lib_mem.c:1251-1279 | over every run from the creation of a segment with padding P: a block answered by Mem_SegAllocHW never shares a line of P bytes with another block in force or with a free block, whatever happens before and after |
| `MemAnswers.HwPoolBlockOwnsLines` | UCOSII/uC-LIB/lib_mem.c:1912-1941 | the same, while it is held, for a block of a pool created by Mem_DynPoolCreateHW |
| `MemPools.OwnerFreeNeverFull` | UCOSII/uC-LIB/lib_mem.c:2086-2097 | an owner's Free never reports POOL_FULL, whatever other tasks are doing |
| `MemPools.LinesIsolated` | UCOSII/uC-LIB/lib_mem.c:2562-2580 | a block with padding P shares no P-aligned line with any byte of any other grant, initial blocks of HW pools included |
| `MemPools.FreeLinesIsolated` | UCOSII/uC-LIB/lib_mem.c:2562-2580 | nor with any byte of a free block, link words included; and free blocks own the lines of their pool's padding |
| `MemPools.EveryRunIsolatesFree` | UCOSII/uC-LIB/lib_mem.c:1251-1279 | the same between grants and free blocks in every run |
| `MemPools.EveryRunFrees` | UCOSII/uC-LIB/lib_mem.c:2086-2097 | in every run from the empty manager an owner's Free passes its check |
| `MemPools.EveryRunIsolates` | UCOSII/uC-LIB/lib_mem.c:1251-1279 | in every run no byte of one grant shares a padding line with a byte of another grant |
| `MemPools.GrowthIsMinimal` | UCOSII/uC-LIB/lib_mem.c:1991-2035 | over every interleaving, what a pool created, is creating or failed to create is the larger of its start and its peak demand |
| `MemPools.CreatedSinceFounding` | UCOSII/uC-LIB/lib_mem.c:1991-2035 | from a pool's creation on, over every run, a limited pool creates at most blk_qty_max blocks plus those half way through a Free when a request found the list empty |
| `MemPools.CreatedWithinLimit` | UCOSII/uC-LIB/lib_mem.c:1991-2035 | from any state, the larger of that and what was committed at the start |
| `MemPools.MissExceedsIff` | UCOSII/uC-LIB/lib_mem.c:1991-2016 | exactly when one request commits a limited pool to more blocks than its limit, counting those created, being created and failed: from the counters and the tasks under way |
| `MemPools.LimitKeptIff` | UCOSII/uC-LIB/lib_mem.c:1991-2035 | from within the limit, a run keeps created + being created + failed within it if and only if no request of the run meets the condition of MissExceedsIff |
| `MemPools.CreatedKeptIff` | UCOSII/uC-LIB/lib_mem.c:1991-2035 | when no growth has failed and none is under way, the same for the blocks created |
| `MemPools.RefusedIff` | UCOSII/uC-LIB/lib_mem.c:1991-2003 | a request is refused if and only if blocks held, requests under way and failed growths reach the limit |
| `MemPools.FailedGrowthsDrainPool` | UCOSII/uC-LIB/lib_mem.c:1991-2033 | once failed growths reach the limit, in every continuation no block is held and every request is refused without change |
| `MemPools.DrainedForGoodIff` | UCOSII/uC-LIB/lib_mem.c:1991-2033 | with no request under way, a pool refuses every later request of every run if and only if its failed growths have reached the limit |
| `MemRefusal.RefusesForeverIff` | UCOSII/uC-LIB/lib_mem.c:1972-2105 | with requests and frees under way: a limited pool refuses every later request of every run if and only if its limit is used up, no block is held, no request still to look at the free list can find one there or half way through a Free, and its segment has no room for the requests under way |
| `MemRefusal.StepStuck` | UCOSII/uC-LIB/lib_mem.c:1972-2105 | no critical section of any task and no store by an owner brings such a pool back |
| `MemRefusal.GrowthAnswer` | UCOSII/uC-LIB/lib_mem.c:2024-2033 | a growth that may be made is granted if and only if one padded block fits between AddrNext and the segment's end |
| `MemExamples.PoolAtNullIsEmpty` | UCOSII/uC-LIB/lib_mem.c:2778-2790 | every pool founded where AddrNext is 0 has created its blocks and answers every request with an empty list |
| `MemExamples.PoolAtNull` | UCOSII/uC-LIB/lib_mem.c:2778-2790 | such a creation, in a page at address 0 |
| `MemExamples.DrainedByOneFailure` | UCOSII/uC-LIB/lib_mem.c:2024-2033 | a five-step run after which a pool limited to one block, which never created any, refuses for good |
| `MemPools.FreeThenGet` | UCOSII/uC-LIB/lib_mem.c:2099-2102 | the block a Free links back is the one the next Get returns |
| `MemPools.CallsNeverStuck` | UCOSII/uC-LIB/lib_mem.c:1972-2105 | a task inside a call can always take its next critical section, a growth exactly when it is not granted on a wrapped size |
| `MemExamples.InterleavingExceedsLimit` | UCOSII/uC-LIB/lib_mem.c:2086-2102 | a nine-step run of two tasks in which a pool limited to one block has created two |
| `MemSequential.SequentialGrowth` | UCOSII/uC-LIB/lib_mem.c:1991-2035 | in every sequential run created + failed is the larger of its start and the peak of blocks out + failed, and stays within BlkQtyMax |
| `MemSequential.CreatedIsPeak` | UCOSII/uC-LIB/lib_mem.c:2756-2790 | from a pool's creation: if no growth fails, blocks created are the larger of blk_qty_init and the largest number simultaneously out; a limited pool never creates more than blk_qty_max |
| `MemSequential.EveryRunCreatesPeak` | UCOSII/uC-LIB/lib_mem.c:1991-2035 | the same for a pool created after any run, and used sequentially from then on |
| `MemSequential.GetReturns` | UCOSII/uC-LIB/lib_mem.c:1972-2036 | a Get run alone returns, leaving no task inside a call, unless its growth is granted on a wrapped size |
| `MemSequential.FreeReturns` | UCOSII/uC-LIB/lib_mem.c:2063-2105 | so does an owner's Free |
| `Segment.AllocRefinesExact` | UCOSII/uC-LIB/lib_mem.c:2562-2584 | when the padded request fits in a word the wrapping allocator answers as the unbounded-integer one, also for a segment ending at the top address whose AddrNext wraps to 0 |
| `Segment.AllocAgreesIff` | UCOSII/uC-LIB/lib_mem.c:2565-2571 | it grants what the exact one grants if and only if the request fits in a word or its wrapped size still exceeds what remains |
| `Segment.AllocWrapExample` | UCOSII/uC-LIB/lib_mem.c:2565-2571 | a request larger than its segment that is granted |
| `Segment.BlockPlacement` | UCOSII/uC-LIB/lib_mem.c:2562-2567 | the block is aligned to both alignments, lies above what is used, and its footprint ends on a padding line |
| `Segment.PlacementLeast` | UCOSII/uC-LIB/lib_mem.c:2562-2567 | no lower address above what is used suits both alignments, and no earlier padding line ends the footprint |
| `Segment.AllocAnswer` | UCOSII/uC-LIB/lib_mem.c:2551-2585 | the whole answer to a request not granted on a wrapped size: the least place and the advanced segment when the footprint ends within it, else an overflow and no change |
| `Segment.AllocErrors` | UCOSII/uC-LIB/lib_mem.c:2458-2510 | a zero size and an alignment that is not a power of two are named as such, the size first; only a grant changes the segment |
| `Segment.MissingIsLeastExtension` | UCOSII/uC-LIB/lib_mem.c:2569-2578 | for every request that is refused, the reported byte count is the least extension of the segment that makes it succeed |
| `Segment.MissingMakesRoomIff` | UCOSII/uC-LIB/lib_mem.c:2569-2578 | that extension makes room for the padded block if and only if the request fits in a word |
| `Segment.GrantFitsIff` | UCOSII/uC-LIB/lib_mem.c:2565-2571 | a request that fits in a word or is refused is exactly one that is granted when and only when the exact allocator grants it |
| `Segment.RemSizePredicts` | UCOSII/uC-LIB/lib_mem.c:1057-1063 | allocation with the same alignment succeeds for exactly the positive sizes up to the reported remainder if and only if the next address is aligned |
| `Segment.RemSizePredictsIff` | UCOSII/uC-LIB/lib_mem.c:1057-1063 | when the aligned next address is within the end, the remainder predicts a size if and only if its aligned request fits in a word |
| `Segment.RemSizePredictsFitting` | UCOSII/uC-LIB/lib_mem.c:1057-1063 | over the sizes that fit, it predicts all of them if and only if the aligned next address is within the end |
| `Segment.RemSizeWrapExample` | UCOSII/uC-LIB/lib_mem.c:2565-2571 | eight bytes remain and 2^32 - 1 are granted |
| `Segment.RemSizeExact` | UCOSII/uC-LIB/lib_mem.c:1057-1063 | for every size and state: the remainder is right about the size if and only if the request fits in a word exactly when the aligned next address is within the end |
| `Segment.RemSizePastIff` | UCOSII/uC-LIB/lib_mem.c:1057-1063 | past the end it is right for exactly the sizes that do not fit |
| `Segment.RemSizePast` | UCOSII/uC-LIB/lib_mem.c:1057-1063 | past the end the remainder promises a byte that is refused |
| `Segment.MeetsIffShares` | UCOSII/uC-LIB/lib_mem.c:2393-2400 | the overlap test holds exactly when the two ranges have an address in common |
| `Machine.MathIsPwr2Exact` | UCOSII/uC-LIB/lib_math.h:221 | the bit trick accepts exactly the powers of two |
| `Machine.RoundCommutesWithWrap` | UCOSII/uC-LIB/lib_math.h:242 | rounding a wrapped address is wrapping the exactly rounded address |
| `Machine.RoundUpLeast` | UCOSII/uC-LIB/lib_math.h:242 | the exact rounding is the least multiple not below its argument |
| `PtrMem.ThreadChains` | UCOSII/uC-LIB/lib_mem.c:2778-2790 | threading writes only inside the carved region and makes all its blocks one chain ending in null |
| `PtrMem.ThreadChainsIff` | UCOSII/uC-LIB/lib_mem.c:2778-2790 | the threaded blocks form a free list from their first address if and only if that is not null |
| `PtrMem.ChainFrame` | UCOSII/uC-LIB/lib_mem.c:2005-2016 | writes that miss the link words leave a chain as it was |
| `Registry.WalkExact` | UCOSII/uC-LIB/lib_mem.c:2376-2408 | on disjoint segments NONE iff no address is shared, EXISTS iff a segment equals the range, OVERLAP otherwise, with a segment that really intersects |
| `MemTheorems.SegCreateIsWalk` | UCOSII/uC-LIB/lib_mem.c:2376-2408 | the answer of a step that creates a segment is the verdict of the walk over any list of the registered segments |
| `Registry.OrderIrrelevant` | UCOSII/uC-LIB/lib_mem.c:2389-2403 | the verdict does not depend on the order of the list |
| `Registry.SegList.OverlapChk` | UCOSII/uC-LIB/lib_mem.c:2376-2408 | the pointer walk terminates with the verdict and the segment of the first hit |
| `Registry.SegList.SegCreate` | UCOSII/uC-LIB/lib_mem.c:885-941 | each error exactly when its cause holds; on success the new segment heads a list of pairwise disjoint segments; otherwise nothing changes |
| `Registry.SegList.CreateCritical` | UCOSII/uC-LIB/lib_mem.c:2327-2347 | linking a descriptor that shares no address keeps the list linked and disjoint |
| `Registry.MemSeg.AllocInternal` | UCOSII/uC-LIB/lib_mem.c:2458-2585 | the in-place allocation is the one the refinement is about, AddrNext and answer both |
| `Registry.MemSeg.AllocExtCritical` | UCOSII/uC-LIB/lib_mem.c:2551-2585 | the critical section of an allocation, in place |
| `Registry.MemSeg.RemSizeGet` | UCOSII/uC-LIB/lib_mem.c:1042-1063 | an alignment that is not a power of two is refused; otherwise the remainder that the prediction is about |
| `DynPool.MemDynPool.constructor` | UCOSII/uC-LIB/lib_mem.c:2770-2790 | a new pool counts nothing and its head starts a chain of exactly the carved blocks |
| `DynPool.ThreadBlocks` | UCOSII/uC-LIB/lib_mem.c:2778-2790 | the loop threads memory as the chain theorem assumes |
| `DynPool.MemDynPool.GetCount` | UCOSII/uC-LIB/lib_mem.c:1992-2003 | first section of Get: refused exactly when exhausted, else one more is counted |
| `DynPool.MemDynPool.GetPop` | UCOSII/uC-LIB/lib_mem.c:2006-2016 | second section of Get: the head is taken and its link becomes the head |
| `DynPool.MemDynPool.BlkGet` | UCOSII/uC-LIB/lib_mem.c:1972-2036 | a whole Get: empty, from the list, or from the segment, with the count kept when the segment refuses |
| `DynPool.MemDynPool.FreeCount` | UCOSII/uC-LIB/lib_mem.c:2086-2097 | first section of Free |
| `DynPool.MemDynPool.BlkFree` | UCOSII/uC-LIB/lib_mem.c:2063-2105 | a whole Free: null and full are rejected without change, else the block heads the list and holds the old head |
| `DynPool.MemDynPool.FreeThenGet` | UCOSII/uC-LIB/lib_mem.c:2086-2102 | Free then Get returns the same block, restores the descriptor, and changes no byte outside the block's link |
| `DynPool.MemDynPool.BlkNbrAvailGet` | UCOSII/uC-LIB/lib_mem.c:2133-2163 | for a limited pool available + counted is the limit; an unlimited pool is an error |
| `StaticPool.EveryRunPartitions` | UCOSII/uC-LIB/lib_mem.c:1598-1736 | after any calls with any sizes and any pointers the pool's blocks are partitioned into free entries and outstanding blocks, which add up to BlkNbr |
| `StaticPool.GetKeeps` | UCOSII/uC-LIB/lib_mem.c:1598-1647 | a block handed out is a block of the pool that was not outstanding; the partition is kept |
| `StaticPool.FreeKeeps` | UCOSII/uC-LIB/lib_mem.c:1681-1736 | a pointer is accepted exactly when it is outstanding; foreign pointers and double frees are rejected without change; POOL_FULL is unreachable |
| `StaticPool.GetExact` | UCOSII/uC-LIB/lib_mem.c:1598-1647 | a block is returned exactly when 1 <= size <= block size and some block is not out; POOL_EMPTY exactly when the size is in range and all are out; INVALID_BLK_SIZE otherwise; an error returns null and changes nothing |
| `StaticPool.FreeExact` | UCOSII/uC-LIB/lib_mem.c:1681-1736 | each error exactly by its cause: null, no block of the pool, a block that is not out; the accepted pointer, and only it, stops being out |
| `StaticPool.FreeThenGet` | UCOSII/uC-LIB/lib_mem.c:1629-1731 | a Get after an accepted Free returns the block just freed and restores the pool |
| `StaticPool.FullHoldsAll` | UCOSII/uC-LIB/lib_mem.c:1725-1729 | pigeonhole: a block outside the table means the table is not full |
| `StaticPool.Conserved` | UCOSII/uC-LIB/lib_mem.c:1765-1791 | free entries and outstanding blocks add up to BlkNbr |
| `StaticPool.ValidAddrIff` | UCOSII/uC-LIB/lib_mem.c:2824-2841 | the range and offset test accepts exactly the block addresses |
| `StaticPool.FreshPartitioned` | UCOSII/uC-LIB/lib_mem.c:1491-1505 | a new table holds every block once |
| `StaticPool.FirstGets` | UCOSII/uC-LIB/lib_mem.c:1491-1505 | a new pool hands out its blocks from the last to the first, each one block size below the one before |
| `StaticPool.PoolSizeHoldsIff` | UCOSII/uC-LIB/lib_mem.c:1464-1465 | the computed pool size holds every block if and only if the product does not wrap |
| `StaticPool.TableSizeHoldsIff` | UCOSII/uC-LIB/lib_mem.c:1480-1486 | the computed table size holds every entry if and only if that product does not wrap |
| `StaticPool.TableFollows` | UCOSII/uC-LIB/lib_mem.c:1464-1486 | for blocks of at least a pointer it does not wrap when the pool size does not |
| `StaticPool.PoolWrapExample` | UCOSII/uC-LIB/lib_mem.c:1464-1477 | a creation with a wrapped pool size is granted, its first block ending outside the segment |
| `StaticPool.TableWrapExample` | UCOSII/uC-LIB/lib_mem.c:1480-1489 | a creation with a sound pool and a wrapped table size is granted, entry 1024 of the table lying outside the heap |
| `StaticPool.PoolMemory` | UCOSII/uC-LIB/lib_mem.c:1464-1477 | memory granted for a pool that fits is aligned, not null and holds its blocks inside the segment |
| `StaticPool.Pool.constructor` | UCOSII/uC-LIB/lib_mem.c:1491-1505 | the initialisation loop builds the full table of a partitioned pool, when neither of the two products wrapped |
| `StaticPool.Pool.BlkGet` | UCOSII/uC-LIB/lib_mem.c:1598-1647 | the table operation is the abstract Get, entries at or above the index staying null; it answers by size and number of blocks out as GetExact says |
| `StaticPool.Pool.BlkFree` | UCOSII/uC-LIB/lib_mem.c:1681-1736 | the table operation is the abstract Free, for any pointer, and answers each cause with its error as FreeExact says; POOL_FULL is never returned |
| `StaticPool.Pool.InTable` | UCOSII/uC-LIB/lib_mem.c:1713-1720 | the search finds a pointer exactly when it is a free entry |
| `StaticPool.Pool.BlkIsValidAddr` | UCOSII/uC-LIB/lib_mem.c:2824-2841 | yes exactly for block addresses |
| `StaticPool.Pool.BlkGetNbrAvail` | UCOSII/uC-LIB/lib_mem.c:1765-1791 | available and outstanding add up to BlkNbr |
| `MemOps.MemCopy` | UCOSII/uC-LIB/lib_mem.c:411-483 | for every source, destination, size, alignment and overlap the word-optimised copy equals the octet-by-octet forward copy, in closed form, and changes nothing else; word accesses aligned and inside the two buffers |
| `MemOps.MoveWord` | UCOSII/uC-LIB/lib_mem.c:468-472 | a word access demands aligned addresses inside the two buffers and moves four octets read before any is written |
| `MemOps.CmpWord` | UCOSII/uC-LIB/lib_mem.c:705-713 | a word comparison reads aligned words inside the two buffers and decides whether their four octets agree |
| `MemOps.ForwardDelivers` | UCOSII/uC-LIB/lib_mem.c:550-555 | a forward copy delivers the old source when the destination is not inside it past its start |
| `MemOps.CopyDeliversIff` | UCOSII/uC-LIB/lib_mem.c:411-483 | and, over all contents of memory, only then |
| `MemOps.MemMove` | UCOSII/uC-LIB/lib_mem.c:522-603 | the destination holds the old source octets and nothing else changes, for every overlap, forwards and backwards |
| `MemOps.MemCmp` | UCOSII/uC-LIB/lib_mem.c:646-731 | yes iff two non-null buffers agree octet for octet; yes for size 0, no for a null buffer; word reads aligned and inside the buffers |
| `Rand.FullPeriod` | UCOSII/uC-LIB/lib_math.c:215-280 | from any 32-bit seed the first 2^31 numbers contain each value of [0, 2^31-1] exactly once |
| `Rand.Distinct` | UCOSII/uC-LIB/lib_math.c:215-280 | two numbers less than 2^31 draws apart differ |
| `Rand.Repeats` | UCOSII/uC-LIB/lib_math.c:215-280 | the sequence repeats after 2^31 numbers |
| `Rand.WrapInvisible` | UCOSII/uC-LIB/lib_math.c:272-280 | the 32-bit wrap of multiply and add never shows modulo 2^31 |
| `Rand.RecurrenceIs` | UCOSII/uC-LIB/lib_math.c:272-280 | the next number is (1103515245 n + 12345) mod 2^31 |
| `Rand.FirstDraws` | UCOSII/uC-LIB/lib_math.c:272-280 | the first numbers after seeds 0 and 1 |
| `Rand.Shift` | UCOSII/uC-LIB/lib_math.h:168-172 | 2^k draws move every value by an odd multiple of 2^k, from A = 1 mod 4 and odd B |
| `Rand.MathModule.constructor` | UCOSII/uC-LIB/lib_math.c:147-150 | the sequence starts from seed 1 |
| `Rand.MathModule.RandSetSeed` | UCOSII/uC-LIB/lib_math.c:175-183 | starts the sequence of the given seed |
| `Rand.MathModule.Rand` | UCOSII/uC-LIB/lib_math.c:215-229 | draws the next number of the sequence the theorems are about |
| `TimeStamp.RunCounts` | UCOSII/uC-CPU/cpu_core.c:461-485 | over every run of reads the timestamp is ticks elapsed less the whole timer turns no read saw, modulo the accumulator |
| `TimeStamp.AlwaysCongruent` | UCOSII/uC-CPU/cpu_core.c:542-566 | whatever the gaps, it differs from ticks elapsed by whole timer turns |
| `TimeStamp.ExactIffInTime` | UCOSII/uC-CPU/cpu_core.c:461-485 | it equals ticks elapsed modulo the accumulator when every gap is below one turn, and until the accumulator goes round only then |
| `TimeStamp.ExactIff` | UCOSII/uC-CPU/cpu_core.c:461-485 | over every run, accumulator rounds included, it equals ticks elapsed modulo the accumulator if and only if the lost turns are whole accumulator rounds |
| `TimeStamp.CpuTs.constructor` | UCOSII/uC-CPU/cpu_core.c:2160-2196 | initialisation is the first read of both timestamps |
| `TimeStamp.CpuTs.Get32` | UCOSII/uC-CPU/cpu_core.c:461-485 | a 32-bit read extends the run; the result is below 2^32 and, when every gap is below one turn, the ticks since initialisation modulo 2^32 |
| `TimeStamp.CpuTs.Get64` | UCOSII/uC-CPU/cpu_core.c:542-566 | a 64-bit read extends the run; the same modulo 2^64 |
| `TimeStamp.CpuTs.Update` | UCOSII/uC-CPU/cpu_core.c:596-607 | an update is one read of each |
| `IntDisMeas.EveryRunTracks` | UCOSII/uC-CPU/cpu_core.c:840-847 | over every well-nested run Max is the largest modular duration of any outermost section, MaxCur that since the last clear, MaxCur <= Max |
| `IntDisMeas.NestWraps` | UCOSII/uC-CPU/cpu_core.c:840-1043 | over every run, well nested or not, the nesting counter is the depth in a 16-bit word |
| `IntDisMeas.CorrectedAtRead` | UCOSII/uC-CPU/cpu_core.c:2372-2385 | subtracting the overhead at read time is taking the largest corrected duration: no section is longer than the result and the overhead together, and one is exactly that long unless the result is 0 |
| `IntDisMeas.Module.constructor` | UCOSII/uC-CPU/cpu_core.c:2239-2269 | the measuring loop yields the average overhead rounded to nearest, when its sum fits the timer, and leaves the counters clear |
| `IntDisMeas.Module.MeasStart` | UCOSII/uC-CPU/cpu_core.c:840-847 | records the entry of a section |
| `IntDisMeas.Module.MeasStop` | UCOSII/uC-CPU/cpu_core.c:1024-1043 | records its exit |
| `IntDisMeas.Module.MaxGet` | UCOSII/uC-CPU/cpu_core.c:803-815 | returns the largest corrected duration of all outermost sections, in the terms of CorrectedAtRead |
| `IntDisMeas.Module.MaxCurGet` | UCOSII/uC-CPU/cpu_core.c:761-773 | returns the largest since the last clear |
| `IntDisMeas.Module.MaxCurClear` | UCOSII/uC-CPU/cpu_core.c:727-729 | the second critical section of the reset: records the clear |
| `IntDisMeas.Module.MaxCurReset` | UCOSII/uC-CPU/cpu_core.c:720-732 | undisturbed, returns the largest since the last clear and clears |
| `IntDisMeas.ResetIff` | UCOSII/uC-CPU/cpu_core.c:720-732 | disturbed between its read and its clear, it returns what it erases, both overhead-corrected, if and only if no longer section ended there when nobody else cleared, and what it returns is still the longest since the other clear when somebody did |
| `IntDisMeas.ResetLosesSection` | UCOSII/uC-CPU/cpu_core.c:720-732 | a run in which it returns 0 and erases 5 |
| `IntDisMeas.ResetsCross` | UCOSII/uC-CPU/cpu_core.c:720-732 | a run in which it returns 5 and erases 0, another reset having cleared in between |
| `BitCount.TableExact` | UCOSII/uC-CPU/cpu_core.c:109-127 | every table entry is 8 less the bit length of its index |
| `BitCount.CntLeadZeros08` | UCOSII/uC-CPU/cpu_core.c:1208-1230 | 8 less the bit length |
| `BitCount.CntLeadZeros16` | UCOSII/uC-CPU/cpu_core.c:1275-1303 | 16 less the bit length |
| `BitCount.CntLeadZeros32` | UCOSII/uC-CPU/cpu_core.c:1348-1390 | 32 less the bit length |
| `BitCount.CntLeadZeros64` | UCOSII/uC-CPU/cpu_core.c:1435-1508 | 64 less the bit length |
| `BitCount.LowestSetIs` | UCOSII/uC-CPU/cpu_core.c:1922-1951 | the position of the lowest set bit: the value is an odd multiple of that power of two |
| `BitCount.IsolatesLowest` | UCOSII/uC-CPU/cpu_core.c:1922-1951 | val & (~val + 1) is that power of two, for every word width |
| `BitCount.CntTrailZeros08` | UCOSII/uC-CPU/cpu_core.c:1714-1743 | position of the lowest set bit, 8 for zero |
| `BitCount.CntTrailZeros16` | UCOSII/uC-CPU/cpu_core.c:1818-1847 | position of the lowest set bit, 16 for zero |
| `BitCount.CntTrailZeros32` | UCOSII/uC-CPU/cpu_core.c:1922-1951 | position of the lowest set bit, 32 for zero |
| `BitCount.CntTrailZeros64` | UCOSII/uC-CPU/cpu_core.c:2026-2055 | position of the lowest set bit, 64 for zero |
| `BitCount.PopCnt32Exact` | UCOSII/uC-CPU/cpu_core.c:2075-2096 | the parallel count is the number of set bits of every 32-bit word |
| `Nvic.BitsAddUp` | CORE/core_cm4.h:1747-1752 | preemption and sub bits share the implemented bits, for every group and width 1 to 8 |
| `Nvic.DecodeSplits` | CORE/core_cm4.h:1772-1783 | for every group and width: in the byte of the priority, what lies above bit g of the group register is the preemption level and what lies below the subpriority |
| `Nvic.EncodeSplits` | CORE/core_cm4.h:1745-1758 | for all values, groups and widths: the byte of an encoded priority is split there into the two values, each cut to its side |
| `Nvic.DecodeEncode` | CORE/core_cm4.h:1745-1783 | decoding an encoded priority gives both values cut to their fields |
| `Nvic.EncodeDecode` | CORE/core_cm4.h:1745-1783 | encoding a decoded priority gives it back cut to the implemented bits |
| `Nvic.EncodeOrder` | CORE/core_cm4.h:1745-1758 | encoded priorities compare as their pairs, preemption level first |
| `Nvic.EncodeRange` | CORE/core_cm4.h:1754-1757 | an encoded priority fits the implemented bits |
| `Nvic.Registers.SetPriority` | CORE/core_cm4.h:1698-1708 | one byte of one register array changes, to the priority shifted to the top bits: byte n for interrupt n, byte n + 12 of the system handlers for -12 to -1 |
| `Nvic.Registers.GetPriority` | CORE/core_cm4.h:1720-1731 | reads the same byte back down, below 2^(implemented bits) |
| `Nvic.Registers.SetThenGet` | CORE/core_cm4.h:1698-1731 | a priority survives being set and read, cut to the implemented bits |
| `BitField.WrFrame` | UCOSII/uC-LIB/lib_def.h:926 | a write leaves the bits outside any mask unchanged |
| `BitField.WrBits` | UCOSII/uC-LIB/lib_def.h:926 | bit by bit: inside the mask the encoded value, outside it the old word |
| `BitField.EncBits` | UCOSII/uC-LIB/lib_def.h:901 | bit i of an encoded value is bit i - lo of the value inside the field and 0 elsewhere |
| `BitField.RdBits` | UCOSII/uC-LIB/lib_def.h:878 | bit i of what is read is bit i + lo of the word for the width of the field, and 0 above |
| `BitField.WrCommute` | UCOSII/uC-LIB/lib_def.h:926 | writes to disjoint masks commute |
| `BitField.WrThenRd` | UCOSII/uC-LIB/lib_def.h:878-926 | for every contiguous mask in every word width, what is written is read back reduced to the field width |
| `BitField.RdThenWr` | UCOSII/uC-LIB/lib_def.h:878-926 | writing back what was read changes nothing |
| `BitField.LowBitIs` | UCOSII/uC-LIB/lib_def.h:878 | mask & ~(mask << 1) is the lowest bit of a contiguous mask |
| `BitField.Variable.WriteField` | UCOSII/uC-LIB/lib_def.h:926 | the write in place, with its frame |
| `BitField.Variable.WriteThenRead` | UCOSII/uC-LIB/lib_def.h:878-926 | the round trip in place |

## Left out

- Mem_SegClr: it invalidates every block handed out from its segment, so no run contains it.
- Mem_PoolCreate's search for or creation of a segment from a base address, and its order of argument checks; the model starts where the memory is requested.
- Pool creation is one step of a run: nothing can call on a pool whose descriptor is not yet filled in.
- The heap as the default for a null segment, null error pointers and the exceptions they raise, null pool pointers.
- MemSystem.Legal: requests granted on the strength of a wrapped size are outside the runs, since nothing can be promised after them; Segment.AllocAgreesIff, Segment.GrantFitsIff and Segment.AllocWrapExample cover them.
- MemTheorems.EveryRunSafe: for that reason says nothing about runs with such a grant.
- MemSteps.SegAllocKeeps: leaves out requests granted on the strength of a wrapped size.
- MemSteps.PoolCreateKeeps: leaves out those, pools in a segment whose next address is 0, whose first block is the null pointer of the free list (MemExamples.PoolAtNullIsEmpty), and block sizes below a pointer, which note 1 of the source forbids.
- MemSteps.GetGrowKeeps: leaves out growths granted on the strength of a wrapped size.
- MemAnswers.SegAllocAnswers: leaves out requests granted on the strength of a wrapped size, as do MemAnswers.GetGrowAnswers and MemAnswers.HwBlockOwnsLines for theirs.
- MemAnswers.PoolCreateAnswers: leaves out what MemSteps.PoolCreateKeeps leaves out.
- StaticPool.Pool.constructor: starts from memory that holds the blocks and the table; creations in which a size product wraps are covered by StaticPool.PoolWrapExample and StaticPool.TableWrapExample.
- MemSequential.GetReturns: does not cover a Get whose growth is granted on the strength of a wrapped size.
- Stores by tasks into memory they do not own, and a Free by a task that is not the owner of a dynamic pool's block: the program does not detect them.
- IntDisMeas.Module.constructor: the start/stop pairs of timer values are parameters; the timer is at most 32 bits wide; the start count left by the last pair is cleared, which nothing can see since the next outermost entry overwrites it.
- TimeStamp.CpuTs.constructor: configurations whose timer is as wide as the timestamp return the timer itself and are not modelled; nor is the timer frequency.
- Nvic.Registers.SetPriority: interrupt numbers below -12 index outside SCB->SHP and are not modelled.
- Mem_Clr, Mem_Set, Mem_HeapAlloc, Mem_HeapGetSizeRem, Mem_PoolClr: they would only add easy members.
- Mem_OutputUsage, Mem_SegAllocTrackCritical and the CPU name functions: printing and debug bookkeeping.
- lib_ascii, the endian macros of lib_mem.h, the network echo, board support, start-up code and register access.
