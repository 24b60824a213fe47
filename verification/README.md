# A verified model of the kernel's heap, lists, scheduler and locks

The kernel for the Raspberry Pi 4 allocates everything from a buddy allocator, keeps its tasks in
array lists that live on that heap, and switches tasks in interrupt handlers on four cores. This
project models these parts in Dafny and proves what they are for. `dafny verify dfyconfig.toml`
checks all of it.

## The buddy allocator

The model has three levels, and the proofs tie each to the next.

* **Bits.** `Bitset` works in place on bytes, with the source's mask tables, and is proved against
  the meaning of single bits. `UnaryField` stores a number in unary in a range of bits; zero clears
  the first bit only, so that stale bits may stay. `TreeLayout` gives each node its bit range and
  proves that the ranges tile the bitset.
* **Statuses.** `TreeStatus.Stat` defines the status of a node from the set of marked nodes alone.
  `AllocationTree.BuddyTree` keeps a ghost map of statuses that its bits hold, and a ghost set of
  marked nodes. Its methods are the source's: read, write, mark, release, the repair of the ancestors
  with its early exit, and the search for a free node. `TreeGrow` grows the tree in place.
* **Bytes.** `Buddy.Buddy` is the allocator proper. An arena that is not a power of two is masked by
  virtual nodes; `CoversTail` says that these cover exactly the leaves behind the end of the arena.
  `TreeChoice` says which of several free nodes the search takes. `Slots` and `ArenaSizes` turn nodes
  into byte ranges that are aligned, disjoint and inside the arena. `TreeMisuse` and `Reallocation` say
  what a release and a mark do to nodes they are not meant for. `TreeWalk` and `TreeTotals` are the
  up-and-down walk and what it adds up to. `BuddyRuns` starts an allocator and follows whole runs of
  requests, `KernelHeap` is the heap behind `new`.

`Valid()` of `Buddy.Buddy` says: the bits hold the statuses, the statuses are `Stat` of the marked
nodes, no marked node lies above another, and the virtual nodes are marked and cover the tail.

## The lists, the scheduler and the locks

* `ArrayList` is the kernel's list, over a store as long as the heap slot that really backs it. Its
  quicksort and insertion sort work in place; `Sorting` holds the facts about rearranged ranges.
* `Queues` holds the 4 x 21 running queues and the sleeping queue, 85 of these lists. `SchedulerSteps`
  says of each step, as a relation between the values before and after it, what it does. `Scheduler`
  has one method per interrupt handler, proved against these relations; its state also carries, as
  ghost fields, the queue every task is in and the registers it was last switched out with.
  `SchedulerRuns` follows runs of any events.
* `Locks` describes each handler by the spin locks it takes and gives back and by what it touches in
  between, and lets the handlers of all cores interleave action by action.

## Where the code does less than it seems to

* `buddy_free` does not notice an address that is in no slot handed out. The search for it passes the
  free nodes around it and ends on a partly taken node above, or on a virtual one, and that node is
  released. The allocator is in order afterwards exactly when the address lay in a slot handed out or
  the call panicked (`Free`, `ReleaseSlot`, `WrongRelease`); inside the arena it panics exactly when
  nothing at all is marked, which is never so in an arena that is no power of two
  (`AlwaysSomethingThere`). Freeing a pointer twice is such a case (`FreeTwice`, `FreeTwiceMasked`).
* `buddy_realloc` does not look whether its pointer lies in a slot handed out, or in the arena at all;
  an address between its end and the end of the tree leads to a virtual slot (`OriginBehind`). The node
  found, partly taken, is released, and what is then marked may by luck make up for it: the allocator is
  in order afterwards exactly when the new slot lies below that node and leaves less room under the
  child of the node that it lies in. Only then does the repair of the ancestors, which stops at the
  first status that does not change, get as far as the node (`Mends`, `MarkedAfterRelease`,
  `RelocatedPartly`); it always does when that child was free (`MendsInFreeHalf`). A virtual slot is made up for exactly when it is marked again.
* `buddy_safe_free` accepts a size exactly when an allocation of that size would have chosen the
  slot's depth (`SizeMatchesDepth`).
* `ceiling_power_of_two` gives the least power of two exactly up to 2^63 (`CeilingIsLeast`).
* `memmove` copies forward only; it moves bytes correctly when the destination does not start inside
  the source, and for every other overlap some contents arrive wrongly (`MovedExactly`,
  `MovedWrongly`). The two slots of `buddy_realloc` start at one place or are apart.
* `operator new` passes its size through an `unsigned`; the block is large enough exactly when the
  size fits 32 bits (`OperatorNew`).
* `bitset_shift_right` moves one bit more than the range it is given. In `buddy_tree_grow` that bit
  lands where the next statement clears (`Shifted`, `MoveBits`).
* `binarySearch` accepts a single remaining element without comparing it. `RemoveElement` says for
  every absent element, by the size of the list and the element's rank, whether it is reported as
  absent or another element is removed in its place; `SingleAccepted` is the smallest such case. In a
  list of 2^k - 1 elements, and in no other, every absent element is taken for another one
  (`AlwaysMistaken`).
* `copyRegs` leaves out `far_el1`; a switch restores a whole frame exactly when that register did not
  change (`FullySwitched`).
* A task that goes to sleep while it forbids preemption is moved to the sleepers but keeps running;
  the scheduler's state is in order after the sleep interrupt exactly when the task may be preempted
  (`SleepSgi`).

## Assumptions

* `order <= 31`: the code computes `1u << order`. So arenas have at most 64 GiB (`MAX_MEMORY`).
* The arena lies in the 64-bit address space.
* `BUDDY_ALLOC_SAFETY` is not defined.
* All cores are initialised; each handler is one atomic step for the scheduler (not for `Locks`). That
  this hides something is shown by `RunsTwice`: between the two halves of the sleep handler a task is
  among the sleepers while its registers are not saved, and another core can wake and run it. The
  clock does not move within a handler. The task that asks to sleep takes the interrupt itself.
  Boot tasks and idle tasks never sleep.
* Tasks are numbered in the order of their addresses, which is the order the queues are sorted by.
* The queue place chosen by a hash of the timer, the clock, and which locks have an owner are
  arbitrary inputs.
* Heap calls mask interrupts; `UnmaskedDeadlock` is a run in which they do not, and two cores end up
  waiting for each other.

## Model

| member | source | states |
|---|---|---|
| Bits.HighestBitPosition | src/mem/Buddy.cpp:1487-1507 | the shift cascade computes the number of binary digits of every 64-bit word |
| Bits.CeilingIsLeast | src/mem/Buddy.cpp:1509-1512 | the result is the least power of two at or above the value if and only if the value is at most 2^63; the addition wraps |
| Bits.OverflowCheck | src/mem/Buddy.cpp:246-248 | dividing the wrapped product by one factor gives back the other if and only if the product did not overflow |
| Bitset.MaskColumns | src/mem/Buddy.cpp:1374-1379 | entry [first][last] of the mask table has exactly the bits first to last set |
| Bitset.PopcountCounts | src/mem/Buddy.cpp:1478-1483 | the nibble table counts the set bits of every byte |
| Bitset.ClearRange | src/mem/Buddy.cpp:1381-1397 | clears exactly the bits of the range, over any number of bytes |
| Bitset.SetRange | src/mem/Buddy.cpp:1399-1415 | sets exactly the bits of the range |
| Bitset.CountRange | src/mem/Buddy.cpp:1417-1437 | the number of set bits of the range, bit by bit |
| Bitset.ShiftBitsRight | src/mem/Buddy.cpp:1453-1466 | moves the range and the bit behind it within one buffer, although both places overlap, and clears what is left below |
| UnaryField.WriteToInternalPosition | src/mem/Buddy.cpp:1012-1022 | the field holds the value afterwards, stale bits allowed behind a zero; no bit outside the field changes |
| UnaryField.FieldReadsBack | src/mem/Buddy.cpp:1024-1031 | whatever the stale bits, a field that holds a value reads as that value |
| TreeShape.Navigation | src/mem/Buddy.cpp:945-967 | children, sibling and parent are inverse to each other and keep the depth right |
| TreeShape.XorNextAtRowEnd | src/mem/Buddy.cpp:969-975 | the exclusive-or test finds exactly the last node of a row |
| TreeShape.SpanIsSubtree | src/mem/Buddy.cpp:1033-1053 | the leaves under a node are an interval, and only they lie under it |
| TreeLayout.SumForOrder | src/mem/Buddy.cpp:766-775 | the loop computes the bits of all rows above a height |
| TreeLayout.SizeClosedForm | src/mem/Buddy.cpp:766-775 | that is 2^(n-t)(t+2) - (n+2) |
| TreeLayout.InternalPositionIsInternal | src/mem/Buddy.cpp:777-795 | row offset and index in the row give the node's place among the fields laid out in index order |
| TreeLayout.BitsTile | src/mem/Buddy.cpp:777-795 | each bit below size_for_order(order, 0), and no other, belongs to exactly one node |
| TreeLayout.SiblingLocation | src/mem/Buddy.cpp:1125-1131 | the sibling's field starts where the arithmetic of update_parent_chain says |
| TreeLayout.TableFits | src/mem/Buddy.cpp:797-807 | despite the rounding that adds a remainder, the memoised table lies behind the bitset and inside the tree's memory |
| TreeStatus.ConsistentUnique | src/mem/Buddy.cpp:1121-1145 | the local rule determines every status from the marked nodes |
| TreeStatus.RepairStep | src/mem/Buddy.cpp:1121-1145 | when the parent already has its status the early exit is right, else the parent's rule is mended and only the next one can be broken |
| TreeStatus.ChainRepairs | src/mem/Buddy.cpp:1121-1145 | when at most the rule of the start node's parent is broken, the chain makes every status right, in spite of its early exit |
| TreeStatus.WrongRelease | src/mem/Buddy.cpp:1102-1119 | releasing a node that is neither marked nor free leaves statuses that no set of marked nodes explains |
| TreeMisuse.MarkedBelow | src/mem/Buddy.cpp:1091-1145 | after the wrong release of a partly taken node a mark below it makes every status right again if it leaves less room under the child it lies in, and otherwise no set of marked nodes explains the statuses |
| TreeMisuse.MarkedAfterRelease | src/mem/Buddy.cpp:292-315 | the same for whatever the search finds next, below the node or elsewhere, and for the node itself when it finds nothing |
| TreeStatus.FindFreeFinds | src/mem/Buddy.cpp:1147-1199 | a node is found if and only if a wholly free one exists at that depth, if and only if the root's status is below the depth; the one found has no marked node above or below it |
| TreeStatus.FindFreeLowest | src/mem/Buddy.cpp:1170-1190 | with left bias no free node of that depth lies lower |
| TreeStatus.FindFreeOptimal | src/mem/Buddy.cpp:1170-1190 | with left bias off no other choice leaves a larger largest free block |
| TreeChoice.FindFreePrefers | src/mem/Buddy.cpp:1179-1197 | with left bias off, wherever the way to another free node of that depth parts from the way taken, the way taken goes into the child with the larger status, and to the left when both have the same |
| TreeChoice.OnlyOnePreferred | src/mem/Buddy.cpp:1179-1197 | no two nodes are each preferred to the other in this sense |
| AllocationTree.BuddyTree.Write | src/mem/Buddy.cpp:1012-1022 | a write changes the status of its node and of no other, though all share one bitset |
| AllocationTree.BuddyTree.Status | src/mem/Buddy.cpp:1086-1089 | reads the status written last |
| AllocationTree.BuddyTree.UpdateParentChain | src/mem/Buddy.cpp:1121-1145 | from any start the loop over the packed bits changes the statuses exactly as the chain over the status map does |
| AllocationTree.BuddyTree.Mark | src/mem/Buddy.cpp:1091-1100 | marking adds exactly that node, whatever it was; marking a wholly free one keeps the invariant |
| AllocationTree.BuddyTree.Release | src/mem/Buddy.cpp:1102-1119 | releasing a marked node keeps the invariant and removes exactly that node; releasing any other node that is not free breaks it for every set of marks |
| AllocationTree.BuddyTree.FindFree | src/mem/Buddy.cpp:1147-1199 | reads from the bits exactly what the descent over the status map finds |
| TreeGrow.EmbedAnc | src/mem/Buddy.cpp:830-878 | moving nodes under the new left child keeps who lies above whom |
| TreeGrow.RowArrived | src/mem/Buddy.cpp:840-870 | a row that moves keeps its statuses, clears those on its right, and spoils no row before or behind it |
| TreeGrow.GrownKeeps | src/mem/Buddy.cpp:830-878 | every old status is found at the moved node; every node that nothing moved to is free |
| TreeGrow.GrowOnce | src/mem/Buddy.cpp:830-878 | one order more: the invariant holds for the moved marks, every status is the old one, zero, or the repaired root's |
| TreeGrow.Grow | src/mem/Buddy.cpp:830-878 | the same for any number of orders |
| Slots.SlotsDisjoint | src/mem/Buddy.cpp:512-517 | nodes not above one another have byte ranges that do not overlap |
| Slots.SlotAligned | src/mem/Buddy.cpp:512-517 | a slot starts at a multiple of its size and ends within the tree |
| Slots.StartsEqualOrApart | src/mem/Buddy.cpp:305-313 | over the smaller of two slot sizes, two slots start at one place or are apart |
| Slots.ClimbFinds | src/mem/Buddy.cpp:527-554 | from any node under a marked node, the way up stops at the marked node |
| Slots.ClimbStops | src/mem/Buddy.cpp:527-554 | the way up finds no node if and only if nothing at all is marked |
| ArenaSizes.OrderCovers | src/mem/Buddy.cpp:195-198 | the tree for an arena is the smallest whose leaves cover it |
| ArenaSizes.DepthForSize | src/mem/Buddy.cpp:486-497 | the loop finds a depth of the tree whose slot holds the request while half of it would not |
| ArenaSizes.FitsIsSmallest | src/mem/Buddy.cpp:486-497 | no deeper slot holds the request, and every shallower one does |
| ArenaSizes.SlotInArena | src/mem/Buddy.cpp:512-517 | a slot handed out is aligned and ends inside the arena, because the virtual nodes cover the rest |
| ArenaSizes.TailUncovered | src/mem/Buddy.cpp:567-611 | without one of its virtual nodes no marked nodes cover the tail of the arena |
| ArenaSizes.GrantedSize | src/mem/Buddy.cpp:200-236 | a granted slot is as large as asked for and smaller than twice that, or has 64 bytes |
| ArenaSizes.GrantedUnique | src/mem/Buddy.cpp:200-236 | the marked nodes, the size and the bias determine the slot that is granted |
| ArenaSizes.ReallocatedSlots | src/mem/Buddy.cpp:257-317 | after reallocation the old slot is handed out as before, or exactly the granted one in its place |
| Reallocation.RelocatedLive | src/mem/Buddy.cpp:292-316 | after the release of a slot handed out, search, move and mark end in order, with the granted slot or the old one handed out, the bytes moved and every other slot's bytes kept |
| Reallocation.RelocatedPartly | src/mem/Buddy.cpp:292-316 | after the release of a partly taken node they end in order exactly when the new mark mends it; then a free slot below it is handed out and no slot loses a byte |
| ArenaTotals.Conservation | src/mem/Buddy.cpp:12-31 | free leaves and the slots handed out add up to the memory size |
| ArenaTotals.UserBlocksFirst | src/mem/Buddy.cpp:442-449 | in address order all slots handed out come before the first virtual one |
| Bytes.MovedExactly | src/mem/Buddy.cpp:131-137 | a forward copy is right when the destination does not start inside the source |
| Bytes.MovedWrongly | src/mem/Buddy.cpp:131-137 | for every other overlap some contents arrive wrongly |
| Buddy.Buddy.constructor | src/mem/Buddy.cpp:62-71 | the fresh allocator is in order, with nothing handed out |
| Buddy.Buddy.MaskVirtualSlots | src/mem/Buddy.cpp:567-611 | the loop ends and marks disjoint nodes that cover exactly the leaves behind the arena's end |
| Buddy.Buddy.Malloc | src/mem/Buddy.cpp:200-236 | null if and only if no free slot of the fitting size is left; otherwise exactly one slot is added, the lowest with left bias, and else the one preferred to every other free slot |
| Buddy.Buddy.Calloc | src/mem/Buddy.cpp:238-255 | as malloc for the product, null when it overflows; the bytes asked for are zero and no other byte changes |
| Buddy.Buddy.PositionForAddress | src/mem/Buddy.cpp:519-554 | for any address, before, in or behind the arena, the upward loop ends at the first node with a status other than zero, or at no node |
| Buddy.Buddy.OriginExact | src/mem/Buddy.cpp:527-554 | for any address the search ends on a slot handed out if and only if the address lies in it, and on no node if and only if nothing is marked or the address is not in the tree |
| Buddy.Buddy.OriginBehind | src/mem/Buddy.cpp:284-291 | for an address behind the arena's end and in the tree the search ends on a virtual slot |
| Buddy.Buddy.AlwaysSomethingThere | src/mem/Buddy.cpp:346-353 | in an arena that is no power of two the search for an address in the arena always ends on a node, live or not |
| Buddy.Buddy.ReleaseSlot | src/mem/Buddy.cpp:351-361 | the release of whatever node the search found leaves the allocator in order if and only if that node was handed out |
| Buddy.Buddy.Free | src/mem/Buddy.cpp:331-361 | for any address: panics if and only if it is outside the arena or nothing at all is marked; releases exactly the slot that contains it; the allocator is in order afterwards if and only if it panicked or there was such a slot |
| Buddy.Buddy.SizeMatchesDepth | src/mem/Buddy.cpp:384-393 | the size test accepts exactly the sizes that would have chosen the slot's depth |
| Buddy.Buddy.SafeFree | src/mem/Buddy.cpp:363-399 | for any address: releases the node found if and only if the size fits it; the allocator is in order afterwards if and only if nothing was released or the address lay in a slot handed out |
| Buddy.Buddy.Realloc | src/mem/Buddy.cpp:257-317 | for any address: for a pointer that is null, in a slot handed out or where the search finds nothing, on failure nothing changes, on success the granted slot starts with the old bytes and every other slot keeps its bytes; for any other pointer the allocator is in order afterwards if and only if the new mark makes up for the wrong release, and the move leaves the arena exactly when one of its ranges ends behind it |
| Buddy.Buddy.WalkSlots | src/mem/Buddy.cpp:411-463 | the walk ends and shows the callback, which may keep a context from call to call, every slot handed out, once, in address order, with address and size, never a virtual one, up to the first answer |
| Buddy.Buddy.ArenaFreeSize | src/mem/Buddy.cpp:12-31 | the walk ends, and its sum and the sizes handed out make the memory size |
| TreeTotals.LooksMarkedIsMarked | src/mem/Buddy.cpp:429-440 | the test of the left child tells a marked node from one whose children are full |
| TreeTotals.BlocksInOrder | src/mem/Buddy.cpp:411-463 | the blocks, left to right, have increasing and disjoint spans |
| TreeWalk.Walk | src/mem/Buddy.cpp:1062-1084 | one step of the walk reaches the next subtree still to be entered, or ends when there is none |
| BuddyRuns.Init | src/mem/Buddy.cpp:33-71 | null exactly for the arguments it refuses, otherwise a fresh allocator of the trimmed size |
| BuddyRuns.MallocThenFree | src/mem/Buddy.cpp:200-361 | an allocation, null exactly when there is no room, marks the granted slot; taken back, it restores every status, merging all the way up |
| BuddyRuns.FreeTwice | src/mem/Buddy.cpp:331-361 | a pointer freed twice panics, and leaves the allocator in order, if and only if nothing else was marked at all |
| BuddyRuns.FreeTwiceMasked | src/mem/Buddy.cpp:331-361 | in an arena that is no power of two it never panics and always leaves disorder |
| BuddyRuns.StartedAndFreedTwice | src/mem/Buddy.cpp:331-361 | such a run from the start: a fresh arena of three leaves grants one, and freeing it twice leaves disorder without a panic |
| BuddyRuns.HeldApart | src/mem/Buddy.cpp:200-361 | the bytes behind two held pointers lie in the arena and do not overlap |
| BuddyRuns.Run | src/mem/Buddy.cpp:200-361 | over any run of malloc, writes, realloc and free: each request is answered with null exactly when there is no room and else with the slot granted; what is held is what the requests and answers make of it, exactly the slots handed out; every block starts with what was written to it, cut to its sizes since; and when nothing is held every status is as at the start |
| BuddyRuns.AnsweredOnce | src/mem/Buddy.cpp:200-361 | the marked nodes, what is held and the request determine the answer and the nodes marked after it |
| BuddyRuns.RunOnce | src/mem/Buddy.cpp:200-361 | the same requests from the same start get the same pointers, one by one |
| BuddyRuns.StoredThenCut | src/mem/Buddy.cpp:257-317 | what is written to a block and cut by a later resize is what the block holds |
| KernelHeap.KernelHeapAllocator.Alloc | src/mem/KernelHeapAllocator.cpp:28-66 | panics if and only if no slot is left; otherwise what is handed out grows by exactly the slot |
| KernelHeap.KernelHeapAllocator.Free | src/mem/KernelHeapAllocator.cpp:67-73 | for any address: gives back exactly the bytes of the slot that contains it; panics if and only if it is outside the arena or nothing at all is marked; in order afterwards if and only if it panicked or there was such a slot |
| KernelHeap.KernelHeapAllocator.FreeSpace | src/mem/KernelHeapAllocator.cpp:24-26 | the memory size less what is handed out |
| KernelHeap.TruncatedSize | src/Mem.cpp:32-57 | a slot granted for the size cut to 32 bits is as large as the size if and only if the size fits 32 bits |
| Sorting.ScansMet | src/include/List.h:706-722 | where the two scans meet the range falls into a part at most and a part at least the pivot |
| Sorting.InsertedIsSorted | src/include/List.h:832-851 | the inserted element leaves the range sorted |
| ArrayList.StoreIsSlot | src/include/List.h:164-175 | any heap slot granted for 160 * 2^k bytes holds 32 * 2^k pointers, more than the late-growing list ever touches |
| ArrayList.ArrayList.Add | src/include/List.h:208-217 | appends; the store is replaced by one of twice the capacity exactly when the size is already one above the capacity |
| ArrayList.ArrayList.Remove | src/include/List.h:370-383 | closes the gap for a valid index and returns a pointer to the place, where the next element now is; changes nothing otherwise; the read one past the end stays in the store |
| ArrayList.ArrayList.SearchFinds | src/include/List.h:614-630 | a present element of a sorted list is found |
| ArrayList.ArrayList.SearchRejects | src/include/List.h:614-630 | an absent element is reported as absent if and only if the search ends on an empty range, which size and rank decide |
| ArrayList.NeverRejects | src/include/List.h:614-630 | in a list of 2^k - 1 elements an absent element is never reported as absent |
| ArrayList.AlwaysMistaken | src/include/List.h:614-630 | the sizes of the lists in which every absent element is taken for another one are exactly 2^k - 1 with k at least 1 |
| ArrayList.ArrayList.RemoveElement | src/include/List.h:348-358 | removes the element when it is present and the list sorted; says exactly when an absent one makes another element go |
| ArrayList.ArrayList.InsertionSort | src/include/List.h:828-853 | sorts its range and touches nothing else, although its inner loop is bounded by 0 only |
| ArrayList.ArrayList.QuickSort | src/include/List.h:638-730 | any list ends up sorted, with the same elements; every index stays inside the range |
| SchedulerState.CopyRegs | src/IRQ.cpp:33-40 | all registers but far_el1 |
| SchedulerState.FullySwitched | src/IRQ.cpp:33-40 | the whole frame comes back if and only if far_el1 did not change |
| SchedulerState.MovedPlaced | src/IRQ.cpp:109-114 | taken from one queue and put into another, a task is again in exactly one |
| Scheduler.Scheduler.CalcNextCore | src/IRQ.cpp:42-61 | the pinned core, else the first core with the shortest queue of the task's priority |
| Scheduler.Scheduler.Reschedule | src/IRQ.cpp:66-92 | a next task exists; it is of the core's first queue that is not empty and gets the registers it was last switched out with; the core's registers are saved with the task that ran, and no other core, task or queue changes; the core halts if and only if the registers return outside the kernel; nothing happens when preemption is off |
| Scheduler.Scheduler.WakeUp | src/IRQ.cpp:94-148 | the restarted loop ends; exactly the sleepers with a timer set and not later than now, or with a lock nobody owns, have woken, that field cleared and nothing else changed; they went off in ascending order, each to the end of the queue of the core chosen at its turn |
| SchedulerSteps.AwokenIsWoke | src/IRQ.cpp:106-109 | what being due and being cleared come to, field by field, for both causes |
| SchedulerSteps.ShortestWins | src/IRQ.cpp:49-59 | whenever some queue is shorter than 268435455 tasks, the first of the shortest is chosen |
| SchedulerSteps.KernelAddress | src/IRQ.cpp:86 | an address of 64 bits makes a core halt if and only if its 16 highest bits are not all set |
| Scheduler.Scheduler.WakeOne | src/IRQ.cpp:106-115 | a woken task goes to its own priority on the pinned core, or on the first core with the shortest queue at that moment |
| Scheduler.Scheduler.SleepSgi | src/IRQ.cpp:192-205 | the task goes to the end of the sleeping queue, then the core switches as reschedule does, with its registers saved and those of the next task restored; the state is in order afterwards if and only if the task may be preempted |
| Scheduler.Scheduler.TimerIrq | src/IRQ.cpp:158-175 | wakes the sleepers whose time has come and nobody else, then switches core 0 as reschedule does if its task may be preempted, with its registers saved and those of the next task restored, and tells the three other cores unless core 0 then halts |
| Scheduler.Scheduler.WakeAll | src/IRQ.cpp:187-190 | wakes the sleepers whose time has come, then those whose lock has no owner, and nobody else |
| Scheduler.Scheduler.CreateTask | src/Task.cpp:115-134 | a new task waits at the end of one queue, at its priority, on its core if pinned, with every register it starts with |
| SchedulerRuns.Safety | src/IRQ.cpp:62-205 | in every reachable state each task is in exactly one queue, at its priority, pinned ones on their core; each core runs a task of its own queues, no two cores the same; the idle task waits in queue 20; a task that does not run keeps the registers it was switched out with |
| SchedulerRuns.Run | src/IRQ.cpp:151-259 | any run of handler steps on any cores, with new tasks created on the way, keeps the scheduler in order and goes from state to state as the events say |
| SchedulerRuns.ResumesWhereItLeft | src/IRQ.cpp:66-92 | in every run a task that is switched out of one core and next runs on any core has there the registers it had when it was switched out |
| SchedulerRuns.RunsTwice | src/IRQ.cpp:192-205 | a sleeper whose registers are not saved yet is woken and run by another core: both cores run it, and the other one with the registers saved the time before |
| SchedulerRuns.StartedAndRunsTwice | src/IRQ.cpp:158-205 | such a run from the start: core 0 has the task start over from its entry point while core 1 is still in it |
| Locks.TraceTouches | src/IRQ.cpp:42-205 | a handler's actions touch exactly the queues and the heap that its work needs, in order |
| Locks.HandlerKeepsOrder | src/IRQ.cpp:42-205 | every handler, however many tasks it wakes, takes locks only in the order sleeping queue, one running queue, heap, and touches everything under its lock only |
| Locks.RunIsSound | src/IRQ.cpp:42-205 | in every interleaving no lock has two holders and every core keeps to the order |
| Locks.NobodyInterferes | src/IRQ.cpp:42-205 | in every interleaving no two cores are at work on the same queue or on the heap |
| Locks.NoCircularWait | src/IRQ.cpp:42-205 | no core waits, over others, for itself |
| Locks.SomeoneIsReady | src/IRQ.cpp:42-205 | while a handler is not done some core can take a step |
| Locks.UnmaskedDeadlock | src/mem/KernelHeapAllocator.cpp:32-35 | if heap calls could be interrupted, a run of handlers would end with two cores waiting for each other |

## Left out

- buddy_tree_shrink, bitset_shift_left and the resize paths: the trailing clear starts at an absolute bit, so moved bits are lost; what they should keep is not what they do.
- buddy_is_free, buddy_can_shrink, buddy_is_empty and range reservation: they treat the end of the range inconsistently.
- buddy_embed and relative mode: only the address of the header differs.
- buddy_tree_check_invariant, buddy_fragmentation and debug printing: no effect on the allocator.
- buddy_reallocarray: the overflow check of calloc in front of realloc.
- Buddy.Buddy.Malloc: the address is the start of the slot; alignment is relative to the arena, whose own start is aligned to 8 bytes only.
- Buddy.Buddy.Realloc: a move that leaves the arena is reported and not carried out; what it does to the memory behind the arena, and to the bytes of slots when the allocator ends in disorder, is not described.
- Buddy.Buddy.WalkSlots: a callback that itself allocates or frees is left out.
- KernelHeap.KernelHeapAllocator.Alloc: the counters of allocations and of bytes left, and what a panic prints, are not modelled.
- TreeGrow.Grow: the caller's promise that the memory behind the tree is large enough is a precondition; the memoised table, which the growing bitset overwrites and the code then computes anew, is a separate field.
- ArrayList.ArrayList.QuickSort: indices are unbounded integers; a list too long for 32-bit indices does not fit the heap.
- The rest of List.h: insertion at an index, merge sort, sublists and shuffling are not used by the kernel.
- Scheduler.Scheduler.WakeUp: the clock is read once, and locks do not change owners while the handler runs.
- Locks.RunIsSound: what an access does to a queue is in Scheduler, not there; the mutex that tasks sleep on is not modelled; a release between a failed attempt and going to sleep can miss the sleeper.
- Devices, console, frame buffer, file system, boot code and page tables: hardware and file access.
