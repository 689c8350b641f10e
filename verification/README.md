# Kernel resource managers and meter codecs, modelled and proved in Dafny

This project models the parts of the tester's firmware that decide who may use which memory, who
sleeps and who is woken, and what the received bits mean: the two heap allocators, the message
queue, mailbox, mutex, event and semaphore, the fixed-block pool and the formatter of the bundled
RT-Thread kernel, and the radio and serial codecs of the tester itself.

Check everything with `dafny verify dfyconfig.toml`.

## How the model is built

Each subject has two layers.

- A *specification* on values: the abstract state and, for each call or critical section, the
  function that gives the next state. The properties are lemmas about these functions, most of them
  over every run from initialisation.
- An *object*: a class whose methods do what the C code does on words, links and loops. Each method
  is proved to take the object from one abstract state to the one the specification names, so the
  lemmas hold of the object.

**Heaps** (`BlockChain`, `HeapWords`, `SmallHeapModel`, `SmallHeap`, `MemHeapModel`, `MemHeap`,
`AlignedAlloc`). Memory is one array of 4-byte words that holds headers *and* allocated data, so "no
other allocation is disturbed" is a statement about real words. The abstraction is the sequence of
blocks in address order; `Live` is the set of allocated areas as (first word, length). A header of
`mem.c` takes three words (magic and used together, next, prev), one of `memheap.c` six. `RT_ALIGN`
is modelled with its 32-bit wrap, and so is the room test of `rt_memheap_realloc`, the one other sum
that a caller's size can make wrap. A memheap pool has less than 2^32 bytes. `lfree` of `mem.c` is a header offset;
`heap_end`'s `prev` is exempt from the link invariant, because the source lets it go stale. The
memheap free-list head lies behind the pool. When a freed memheap block merges to the right the two
unlinkings, which touch different words, are done in the opposite order.

**Waiting threads** (`RingList`, `WaitList`, `Sleepers`). `RingList` is the circular list of
`rtservice.h` with real next and prev links, including priority insertion; the protocols use the
sequence it stands for. A thread's node has the number of the thread.

**Protocols** (`MessageQueue`, `MqProtocol`, `MqDeque`, `MqObject`, `Mutex`, `Event`, `Mailbox`,
`Semaphore`, `MemPool`). A stretch with interrupts disabled is one atomic step. Threads start calls,
sleep, are woken, go round their loops again, time out, and reset objects in any order; any sleeper
may time out. In the message queue every byte of the two copies is a step of its own, since they run
with interrupts enabled.

**Formatter and memory routines** (`FormatText`, `FormatLaws`, `FormatBuffer`, `Memory`). Output of
any length is defined first; `FormatLaws` says, on format string and arguments alone, what it is; the
buffer version is proved to be its bounded, NUL-terminated prefix. The build
options are those of `rtconfig.h`: `RT_PRINTF_PRECISION` without `RT_PRINTF_LONGLONG` and
`RT_PRINTF_SPECIAL`, `long` of 32 bits.

**Codecs** (`RadioCode`, `RadioDecoder`, `RadioReceiver`, `RadioFifo`, `MeterUart`). The radio chip
is a byte stream; the serial line is the frame that arrived.

## Where the code falls short of what one would expect

- `rt_realloc` shrinking in place does not compare the new free block with `lfree`
  (`SmallHeapModel.ReallocLosesLowest`); `ReallocLowest` says exactly when `lfree` stays lowest.
- A request of more than 0xFFFFFFFC bytes is rounded to 0 words, and both allocators answer it with
  their smallest block of 12 bytes; the size bounds of `MallocSpec`, `AllocServed` and the two
  `ReallocSpec` name that limit.
- A region of one or two words becomes a heap whose first request that passes the size check is
  searched for without end (`TinyHeapNeverAnswers`).
- `rt_malloc` does not see an exact fit in the last block; `MallocFirstFit` states it, and
  `WholeHeapRefused` shows a fresh heap refusing the request for exactly its room.
- `rt_memheap_realloc` asked for a size in the last 12 bytes below 2^32 wraps its room test and, when
  the right neighbour is free, builds a header inside the block's own (`HugeReallocBreaksPool`); it
  keeps the pool sound exactly when the size does not wrap there or that neighbour is in use
  (`ReachableReallocSurvives`).
- A pool block size of 0xFFFFFFF9 to 0xFFFFFFFC makes `rt_mp_init` divide by 0, and above that a
  block is smaller than asked (`MemPoolModel.StrideFits`).
- Handing a mutex over with FIFO waiters can make an urgent thread wait for a less urgent owner
  (`MutexModel.FifoHandoverInverts`); a run is free of that exactly when every hand-over is fair
  (`InversionsComeFromHandovers`).
- `%o` prints hexadecimal digits, right only below 8 (`FormatText.OctalIsHexadecimal`); precision 0
  prints no digits, but counts them towards the width (`NumberLength`, `NumberReadsBack`).
- A thread that gives up waiting for a mutex leaves the priority it pressed on the owner
  (`MutexModel.TimeoutAnswers`).
- A version-0 radio reading overlaps seven parity bits; `RadioFrames.ValueRoundTrip` says exactly
  which readings survive, `OneOf128` that of each 128 neighbouring ones only one does, and
  `ReadingOneIsLost` names one that does not.
- A radio data chunk of more than 65 bytes, which the chip's framing allows, is stored past
  `RXBuff[64]` (`RadioChunks.TooLongChunk`); `RadioDriver.Driver.ReceiveData` says exactly when that
  happens.
- A decimal entry of `n` digits is sent in `n - 1` hexadecimal digits, enough for all of them exactly
  from six digits on (`MeterFrames.DecimalFits`); `MeterLink.EntryReadsBack` says which entries
  arrive, and `FiveNinesLost` names one that does not. The program sends six and eight digits.

## Model
| member | source | states |
|---|---|---|
| BlockChain.LiveDisjoint | rt-thread/src/mem.c:156-257 | two allocated areas of a tiled chain never overlap |
| BlockChain.AllFreeIsOneBlock | rt-thread/src/mem.c:156-194 | a coalesced chain with nothing allocated is one free block over the whole heap |
| BlockChain.RoomWithinTotal | rt-thread/src/memheap.c:155-170 | no free block is larger than the free total |
| BlockChain.AreasDetermineChain | rt-thread/src/mem.c:156-194 | two coalesced chains over the same heap with the same allocated areas are the same chain |
| HeapWords.CopyWords | rt-thread/src/kservice.c:210-280 | the four-word and one-word loops copy a range and leave every other word alone |
| SmallHeapModel.MallocFirstFit | rt-thread/src/mem.c:291-326 | rt_malloc succeeds iff some block at or above lfree serves, and takes the lowest such; only an exact fit in the last block is missed |
| SmallHeapModel.WholeHeapRefused | rt-thread/src/mem.c:304-312 | every fresh heap refuses the request for exactly its room |
| SmallHeapModel.TinyHeapNeverAnswers | rt-thread/src/mem.c:304-313 | in a heap of one or two words the search bound wraps and the search runs from the sentinel to itself for ever |
| SmallHeapModel.SearchBound | rt-thread/src/mem.c:306-306 | where nothing wraps, the 32-bit search bound is the plain one |
| SmallHeapModel.ServesIsGuard | rt-thread/src/mem.c:304-312 | the search bound excludes exactly the exact fit in the last block |
| SmallHeapModel.MallocServed | rt-thread/src/mem.c:314-393 | success adds one fresh area at the block that was found: the request rounded up when the rest can be a block of its own, and else the whole block; used_mem grows by it and its header; lfree moves on exactly when it named that block |
| SmallHeapModel.MallocSpec | rt-thread/src/mem.c:272-410 | either nothing changes, or exactly one new area exists, no smaller than the request and less than a header and a smallest block larger, and used_mem grows by exactly that and a header |
| SmallHeapModel.RequestBytes | rt-thread/src/mem.c:289-301 | a request is rounded up to whole words and to 12 bytes at least; for which sizes that wraps |
| SmallHeapModel.TwoSmallBlocks | rt-thread/src/mem.c:272-410 | in a fresh heap of 30 words two small requests get words 3 and 9, with the statistics after each |
| SmallHeapModel.FreeSpec | rt-thread/src/mem.c:546-609 | removes exactly the block's area, coalesces both sides, keeps the invariant; used_mem shrinks by the area and its header; lfree becomes the merged block when that lies in front of it |
| SmallHeapModel.ShrinkSpec | rt-thread/src/mem.c:471-498 | the in-place shrink replaces the area by its front part, with used_mem and lfree |
| SmallHeapModel.ReallocSpec | rt-thread/src/mem.c:421-510 | a live block: freed for size 0, unchanged on an exact fit, cut in place to exactly the new size when a block can be cut off, and moved otherwise, RT_NULL with nothing changed iff no block serves; bounds on the new length, and used_mem |
| SmallHeapModel.ReallocElsewhere | rt-thread/src/mem.c:421-463 | without a live block: RT_NULL for size 0 and for too much, the pointer itself when it lies outside the heap, and else as malloc |
| SmallHeapModel.NothingAllocatedIsInit | rt-thread/src/mem.c:596-607 | with nothing allocated the heap is the initial one but for max_mem |
| SmallHeapModel.MallocLowest | rt-thread/src/mem.c:353-378 | malloc keeps lfree the lowest free block, so it takes the lowest serving block of the whole heap and fails iff none serves |
| SmallHeapModel.FreeLowest | rt-thread/src/mem.c:596-607 | free keeps lfree the lowest free block |
| SmallHeapModel.ShrinkLowest | rt-thread/src/mem.c:471-498 | a shrink keeps it iff lfree lay below the block or named the free block behind it |
| SmallHeapModel.ReallocLowest | rt-thread/src/mem.c:421-510 | realloc keeps it on every path but that shrink, iff |
| SmallHeapModel.ReallocLosesLowest | rt-thread/src/mem.c:471-498 | a reachable heap on which realloc loses it |
| SmallHeapModel.AnyRun | rt-thread/src/mem.c:272-609 | every run of malloc, free and realloc keeps the chain tiled and coalesced, lfree a free block or heap_end, used_mem the summed extents; full recovery |
| SmallHeapModel.RunLowest | rt-thread/src/mem.c:272-609 | over every run without realloc lfree is the lowest free block |
| SmallHeapModel.RunMax | rt-thread/src/mem.c:349-369 | max_mem is the running maximum of used_mem over every run |
| SmallHeapModel.RunKeepsArea | rt-thread/src/mem.c:272-609 | whatever calls are made on other pointers, an allocated block stays where it is and as large as it is |
| SmallHeapModel.MoveAmongOthers | rt-thread/src/mem.c:500-509 | the moving realloc, unlocked between malloc, copy and free, is sound among any calls of other threads on other pointers |
| SmallHeapModel.RegionInside | rt-thread/src/mem.c:206-224 | the heap with its headers lies inside the region it was given, less two words at most, unless rounding its beginning wraps |
| SmallHeapModel.RegionRefused | rt-thread/src/mem.c:206-224 | a region is refused iff its rounded ends leave no room for the two headers |
| SmallHeap.SystemHeapInit | rt-thread/src/mem.c:204-257 | refuses a region iff it is too small; otherwise the fresh heap over all its words, well formed from three words on |
| SmallHeap.Heap.constructor | rt-thread/src/mem.c:230-256 | for every size the fresh header words stand for the initial chain |
| SmallHeap.Heap.PlugHoles | rt-thread/src/mem.c:156-194 | both merges on the header words give the specified chain |
| SmallHeap.Heap.Malloc | rt-thread/src/mem.c:272-410 | the loop over header words computes the specified allocation and touches no allocated word |
| SmallHeap.Heap.Free | rt-thread/src/mem.c:546-609 | likewise for free |
| SmallHeap.Heap.Realloc | rt-thread/src/mem.c:421-510 | likewise; the block's first min(old, new) words survive and no other allocation changes |
| AlignedAlloc.Placement | rt-thread/src/kservice.c:1229-1266 | the aligned address leaves room for the hidden word and ends inside the block |
| AlignedAlloc.MallocAlign | rt-thread/src/kservice.c:1229-1266 | for every power of two an aligned pointer whose hidden word and bytes lie in one new block, others untouched |
| AlignedAlloc.FreeAlign | rt-thread/src/kservice.c:1275-1281 | recovers and frees exactly that block |
| AlignedAlloc.AlignedSession | rt-thread/src/kservice.c:1229-1281 | allocate, write inside, free: the set of allocations and their contents are as before |
| MemHeapModel.AllocFirstFit | rt-thread/src/memheap.c:153-182 | takes the first listed block that fits; fails iff none fits or the request is not below available_size |
| MemHeapModel.AllocServed | rt-thread/src/memheap.c:184-275 | adds exactly one fresh area at the block found: the request when the rest can be a block, else the whole block; available_size and the free list change by exactly that |
| MemHeapModel.RequestBytes | rt-thread/src/memheap.c:147-150 | a request is rounded up to whole words and to 12 bytes at least; for which sizes that wraps |
| MemHeapModel.FreeSpec | rt-thread/src/memheap.c:495-595 | removes exactly the area; both lists agree again; exactly what available_size gains and where the merged block stands in the free list |
| MemHeapModel.GrowInv | rt-thread/src/memheap.c:333-398 | growing into the right neighbour keeps address list, free list and available_size in agreement |
| MemHeapModel.GrowLive | rt-thread/src/memheap.c:333-398 | and lengthens exactly that area in place |
| MemHeapModel.ShrinkSpec | rt-thread/src/memheap.c:419-491 | the in-place shrink shortens exactly that area; exactly what available_size gains, with and without a free right neighbour, and the tail heads the free list |
| MemHeapModel.ReallocSpec | rt-thread/src/memheap.c:284-492 | every request that does not wrap its room test: freed for size 0; grown in place iff the free right neighbour has the room; unchanged when no block can be cut off; cut in place to exactly the new size, the rest given back, when one can; else moved, RT_NULL with nothing changed iff no block serves |
| MemHeapModel.ReallocNull | rt-thread/src/memheap.c:297-304 | without a pointer it allocates, under the same conditions |
| MemHeapModel.ShrinkGivesBack | rt-thread/src/memheap.c:419-491 | a pool of 100 words, 200 bytes taken, shrunk to 12: the words given back serve a request of 240 bytes |
| MemHeapModel.RoomTestWrapped | rt-thread/src/memheap.c:350-350 | with a sum that wraps, the room test passes iff the right neighbour is free |
| MemHeapModel.WrappedGrow | rt-thread/src/memheap.c:350-393 | the new header then lies inside the block's own header, and the pool is no longer well formed |
| MemHeapModel.WrappedCounter | rt-thread/src/memheap.c:353-355 | available_size grows by the wrapped difference and stays within the pool size |
| MemHeapModel.ReallocSurvives | rt-thread/src/memheap.c:284-492 | realloc keeps the pool sound iff the size does not wrap or the right neighbour is used |
| MemHeapModel.ReachableReallocSurvives | rt-thread/src/memheap.c:284-492 | the same after every run from initialisation |
| MemHeapModel.HugeReallocBreaksPool | rt-thread/src/memheap.c:350-393 | a reachable pool and a request that break it |
| MemHeapModel.NothingAllocatedIsInit | rt-thread/src/memheap.c:535-591 | with nothing allocated both lists and the counter are initial |
| MemHeapModel.AnyRun | rt-thread/src/memheap.c:138-595 | over every run without such a request: tiled, coalesced, free list exactly the unused blocks once each, available_size their total, pool size kept; full recovery |
| MemHeapModel.RunMax | rt-thread/src/memheap.c:231-242 | max_used_size is the running maximum of the occupied size over every run |
| MemHeapModel.RunKeepsArea | rt-thread/src/memheap.c:138-595 | calls on other pointers leave a block where it is and as large as it is |
| MemHeapModel.MoveAmongOthers | rt-thread/src/memheap.c:405-417 | the moving realloc is sound among any calls of other threads on other pointers |
| MemHeap.Pool.constructor | rt-thread/src/memheap.c:50-121 | the fresh pool words form both circular lists |
| MemHeap.Pool.Alloc | rt-thread/src/memheap.c:138-281 | the link updates compute the specified allocation and touch no allocated word |
| MemHeap.Pool.Free | rt-thread/src/memheap.c:495-595 | likewise for free |
| MemHeap.Pool.Realloc | rt-thread/src/memheap.c:284-492 | the code computes the specified reallocation for every size, wrapped ones included; unless the pool breaks, the first min(old, new) words survive; no other allocation changes in any case |
| MemHeap.Pool.GrowInside | rt-thread/src/memheap.c:353-393 | the stores of a wrapped request: the next links run through the broken chain, other allocations keep their words |
| RingList.RingInsert | rt-thread/include/rtservice.h:58-80 | the four link stores put a node between two neighbours of a ring |
| RingList.RingRemove | rt-thread/include/rtservice.h:86-92 | the stores of a removal close the ring again |
| RingList.OtherRing | rt-thread/include/rtservice.h:47-92 | rings without a stored-to node stay as they are |
| RingList.Lists.InsertAfter | rt-thread/include/rtservice.h:58-65 | the ring gains the node behind l; other nodes' links unchanged |
| RingList.Lists.InsertBefore | rt-thread/include/rtservice.h:73-80 | the ring gains the node in front of l; other nodes' links unchanged |
| RingList.Lists.Remove | rt-thread/include/rtservice.h:86-92 | the ring loses the node, which becomes a ring of its own |
| RingList.Lists.IsEmpty | rt-thread/include/rtservice.h:98-101 | next == l iff nothing is on the list |
| RingList.Lists.FindPlace | rt-thread/src/ipc.c:96-110 | the loop over links stops at the first less urgent thread |
| RingList.Lists.Suspend | rt-thread/src/ipc.c:80-123 | on the ring of links the thread enters where the specification says |
| WaitList.SuspendMembers | rt-thread/src/ipc.c:80-123 | suspending adds exactly the one thread |
| WaitList.SuspendOrdered | rt-thread/src/ipc.c:92-119 | priority insertion keeps the list ordered by urgency |
| WaitList.SuspendBehindEquals | rt-thread/src/ipc.c:99-110 | a thread queues behind waiting threads of its own priority |
| WaitList.SuspendEnters | rt-thread/src/ipc.c:80-123 | the list after suspending is the one and only list in which the thread stands behind everybody (FIFO), or behind everybody as urgent and in front of the first less urgent (PRIO) |
| WaitList.WithoutLeaves | rt-thread/src/ipc.c:134-147 | a thread that leaves takes itself off the list and moves nobody else |
| WaitList.WaitQueue.SuspendThread | rt-thread/src/ipc.c:80-123 | the insertion loop computes that place |
| WaitList.WaitQueue.ResumeAll | rt-thread/src/ipc.c:157-185 | everyone is woken, in list order |
| MessageQueue.MessageNodes.constructor | rt-thread/src/ipc.c:1811-1826 | all nodes on the free chain, last first |
| MessageQueue.MessageNodes.TakeFree | rt-thread/src/ipc.c:2005-2080 | unlinks the free head, or reports NULL |
| MessageQueue.MessageNodes.LinkLast | rt-thread/src/ipc.c:2092-2106 | appends, keeping head, tail and entry right and links of held nodes alone |
| MessageQueue.MessageNodes.LinkFirst | rt-thread/src/ipc.c:2197-2206 | prepends, likewise |
| MessageQueue.MessageNodes.TakeHead | rt-thread/src/ipc.c:2339-2349 | unlinks the first message |
| MessageQueue.MessageNodes.PutFree | rt-thread/src/ipc.c:2359-2361 | returns a node to the free chain |
| MessageQueue.MessageNodes.Reset | rt-thread/src/ipc.c:2416-2434 | drains the queue into the free chain |
| MqProtocol.PartitionKept | rt-thread/src/ipc.c:1975-2445 | every step keeps each node in exactly one of free chain, queue, one thread's hands |
| MqProtocol.ConservedKept | rt-thread/src/ipc.c:1975-2445 | free + queued + in flight == max_msgs after every step |
| MqProtocol.WaitsKept | rt-thread/src/ipc.c:1975-2445 | wait lists hold exactly the sleepers, each once |
| MqProtocol.WakeupKept | rt-thread/src/ipc.c:1975-2445 | while a receiver (sender) sleeps, queued messages (free nodes) number at most the woken ones that have not run |
| MqProtocol.QueuedKept | rt-thread/src/ipc.c:80-123 | with priority queueing both wait lists stay ordered by urgency, after every step |
| MqProtocol.AnyInterleaving | rt-thread/src/ipc.c:1781-2445 | all of these in every state of every interleaving |
| MqProtocol.WokenMostUrgent | rt-thread/src/ipc.c:2109-2120 | a link (a finished receive) wakes the receiver (sender) in front and nobody else; with priority queueing nobody waiting is more urgent |
| MqProtocol.SleepsInItsPlace | rt-thread/src/ipc.c:2002-2049 | a call that sleeps enters its own wait list at its place, and no other call touches a wait list |
| MqProtocol.TimedOutLeaves | rt-thread/src/thread.c:807-829 | a sleeper whose time is up leaves its own list and moves nobody else |
| MqProtocol.NobodySleepsBesideWork | rt-thread/src/ipc.c:2002-2384 | once woken threads have run, no receiver sleeps beside a message, and a sleeping sender means every node is queued or in flight |
| MqDeque.CopiesStayInside | rt-thread/src/ipc.c:2085-2088 | no copy leaves its node's body |
| MqDeque.RolesFollow | rt-thread/src/ipc.c:1975-2445 | what each thread is doing (outside, copying, asleep, woken, on either side) follows from the deque's action alone, for every step |
| MqDeque.StepRefines | rt-thread/src/ipc.c:1975-2445 | every step of the machine is a step of the deque |
| MqDeque.StepAllowed | rt-thread/src/ipc.c:1975-2445 | a sender gets a place iff its message fits and one is left, sleeps iff none is left and it waits, and else is refused, as urgent senders always are; a receiver gets the front message iff there is one, sleeps iff there is none and it waits, and else is refused; it returns the bytes it popped; linking and finishing wake one sleeper of the other side iff there is one; only sleepers time out |
| MqDeque.RunRefines | rt-thread/src/ipc.c:1975-2445 | whole runs refine the deque, and every state they reach is related to one of its states |
| MqDeque.QueueIsDeque | rt-thread/src/ipc.c:1781-2445 | from initialisation every interleaving behaves as the bounded blocking deque: linking order, urgent in front, bodies intact, who sleeps, who is refused and who is woken |
| MqDeque.NoCopyLeavesItsNode | rt-thread/src/ipc.c:2085-2355 | over every interleaving no copy, in or out, leaves its node's body |
| MqObject.KernelQueue.SendPass | rt-thread/src/ipc.c:2002-2086 | one pass of the send loop on nodes and wait list is the machine's step; a node iff the free chain had one, asleep in its place iff it had none and the caller waits |
| MqObject.KernelQueue.Send | rt-thread/src/ipc.c:1975-2086 | likewise with the size check, an error exactly for messages that are too long |
| MqObject.KernelQueue.Urgent | rt-thread/src/ipc.c:2155-2189 | taking a node for an urgent message; an error exactly when it is too long or no node is free |
| MqObject.KernelQueue.CopyByteIn | rt-thread/src/ipc.c:2087-2088 | one byte of the copy into a node |
| MqObject.KernelQueue.Link | rt-thread/src/ipc.c:2090-2120 | linking last or first, and waking the first receiver if there is one |
| MqObject.KernelQueue.ReceivePass | rt-thread/src/ipc.c:2262-2352 | one pass of the receive loop: the first node iff entry was not 0, asleep in its place iff it was and the caller waits |
| MqObject.KernelQueue.CopyByteOut | rt-thread/src/ipc.c:2354-2355 | one byte of the copy out |
| MqObject.KernelQueue.Finish | rt-thread/src/ipc.c:2357-2378 | freeing the node and waking the first sender if there is one |
| MqObject.KernelQueue.Timeout | rt-thread/src/thread.c:807-829 | a sleeper leaves its list |
| MqObject.KernelQueue.Reset | rt-thread/src/ipc.c:2397-2445 | reset of nodes and wait lists, everyone woken, receivers first |
| MutexModel.TakeNoInversion | rt-thread/src/ipc.c:681-731 | taking never makes the owner less urgent than a waiter |
| MutexModel.ReleaseNoInversion | rt-thread/src/ipc.c:828-869 | releasing keeps that iff the head of the list is most urgent |
| MutexModel.FifoHandoverInverts | rt-thread/src/ipc.c:842-861 | a FIFO run that ends in an inversion |
| MutexModel.InversionsComeFromHandovers | rt-thread/src/ipc.c:654-881 | a run has no inversion iff every hand-over is fair |
| MutexModel.EveryRunFromInit | rt-thread/src/ipc.c:530-881 | value==1 iff no owner iff hold==0; non-owners run at their own priority; with PRIO no waiter is more urgent than the owner |
| MutexModel.HandoverToMostUrgent | rt-thread/src/ipc.c:828-869 | full release restores the priority and hands over to the most urgent, longest waiting thread |
| MutexModel.HoldIsBalance | rt-thread/src/ipc.c:676-881 | hold is grants minus releases of the owner over every run |
| MutexModel.MutualExclusion | rt-thread/src/ipc.c:654-881 | two threads with open grants are the same thread, the owner |
| MutexModel.TakeAnswers | rt-thread/src/ipc.c:676-731 | the mutex is the caller's iff it was free or its own; else a caller that waits queues in its place and the owner runs at the more urgent of both priorities, and one that does not wait changes nothing |
| MutexModel.ReleaseAnswers | rt-thread/src/ipc.c:818-866 | nothing for another's mutex; one hold less; with the last one the own priority is back and the mutex is free or the first waiter's |
| MutexModel.TimeoutAnswers | rt-thread/src/thread.c:807-829 | a waiter leaves and nothing else changes, not even the inherited priority |
| MutexObject.KernelMutex.Take | rt-thread/src/ipc.c:654-779 | the critical section is the specified step: done iff free or the caller's, asleep in its place iff neither and it waits, else refused with nothing changed |
| MutexObject.KernelMutex.Release | rt-thread/src/ipc.c:790-881 | likewise; fails iff the caller is not the owner |
| EventModel.GrantIsPoll | rt-thread/src/ipc.c:1061-1093 | what a woken thread stores equals an immediate receive |
| EventModel.PollMeans | rt-thread/src/ipc.c:1154-1181 | bit by bit: AND is met iff all bits asked for are set and reports them, OR iff one is and reports those set; CLEAR removes exactly the bits asked for; an unmet condition changes nothing |
| EventModel.ScanIsTurns | rt-thread/src/ipc.c:1049-1101 | one scan serves the waiters as if each made its own receive in list order |
| EventModel.ScanKeepsOrder | rt-thread/src/ipc.c:1049-1101 | whoever a send does not wake keeps its place in the list |
| EventModel.SatisfiedMonotone | rt-thread/src/ipc.c:1059-1083 | a condition met by fewer bits is met by more |
| EventModel.ScanLeavesUnsatisfied | rt-thread/src/ipc.c:1051-1101 | nobody left waiting is satisfied by the set left, despite CLEAR in mid-scan |
| EventModel.StepKeeps | rt-thread/src/ipc.c:1029-1277 | send, receive, timeout and reset keep this and the granted bits |
| EventModel.EveryRunFromInit | rt-thread/src/ipc.c:1029-1277 | after every run a sleeper misses one of its bits if it asked for all, and every one of them otherwise; a woken thread holds all bits it asked for with AND, and otherwise at least one of them and no other |
| EventModel.ReceiveAnswers | rt-thread/src/ipc.c:1127-1191 | error iff no bits are asked for; served iff the condition is met, asleep in its place iff not and the caller waits, timed out iff not and it does not; what it reports and what is left in the set |
| EventModel.SendAnswers | rt-thread/src/ipc.c:1029-1101 | who is woken got bits of the new set it asked for, all of them with AND; the first waiter is woken iff its condition is met; exactly the bits that woken threads with CLEAR asked for are gone |
| EventModel.RestAnswers | rt-thread/src/ipc.c:1249-1277 | a send of no bits, a timeout, a thread that goes on, and a reset |
| EventObject.KernelEvent.Offer | rt-thread/src/ipc.c:1059-1092 | the test of one waiter: with AND met iff all its bits are set, else iff one is; what waking it stores and clears |
| EventObject.KernelEvent.Send | rt-thread/src/ipc.c:1029-1111 | the list walk, which drops threads from the list it walks, is the specified step; an empty set is an error and changes nothing |
| EventObject.KernelEvent.Receive | rt-thread/src/ipc.c:1127-1215 | the specified step; error, immediate receive, refusal or sleep, each exactly when its condition on the bits says |
| EventObject.KernelEvent.Timeout | rt-thread/src/thread.c:807-829 | a waiting thread leaves the list and nothing else changes |
| EventObject.KernelEvent.Reset | rt-thread/src/ipc.c:1249-1277 | wakes everyone and empties the set |
| Sleepers.WakeAgree | rt-thread/src/ipc.c:134-147 | waking the head moves exactly one thread from asleep to woken |
| MailboxModel.StepKeeps | rt-thread/src/ipc.c:1442-1758 | wait lists agree with sleepers; no lost wake-up on either side |
| MailboxModel.QueuedKept | rt-thread/src/ipc.c:80-123 | with priority queueing both wait lists stay ordered by urgency |
| MailboxModel.OffersKept | rt-thread/src/ipc.c:1475-1530 | every sleeping or woken sender has the word it was called with |
| MailboxModel.EveryRunFromInit | rt-thread/src/ipc.c:1442-1758 | once woken threads have run nobody sleeps beside a word or a free slot; woken senders can always go on; with priority queueing the most urgent waits in front |
| MailboxModel.FirstInFirstOut | rt-thread/src/ipc.c:1524-1691 | over every interleaving without reset, received ++ contents == initial ++ sent |
| MailboxModel.FifoWithResets | rt-thread/src/ipc.c:1524-1758 | over every interleaving, resets included, the words that left ++ contents == initial ++ sent, and receivers got those that no reset dropped |
| MailboxModel.OfferKept | rt-thread/src/ipc.c:1475-1530 | a sleeping sender's word is the one it sends at last |
| MailboxModel.SendAnswers | rt-thread/src/ipc.c:1472-1554 | the word enters the box iff there is room, and then the first receiver is woken; without room the caller sleeps in its place iff it waits; every other thread stays as it was |
| MailboxModel.RecvAnswers | rt-thread/src/ipc.c:1619-1706 | the oldest word iff there is one, and then the first sender is woken; from an empty box the caller sleeps in its place iff it waits |
| MailboxModel.TimeoutAnswers | rt-thread/src/thread.c:807-829 | one sleeper goes and nothing else changes |
| MailboxModel.ResetAnswers | rt-thread/src/ipc.c:1726-1758 | the box is empty and exactly the sleepers go |
| MailboxObject.KernelMailbox.Send | rt-thread/src/ipc.c:1472-1554 | the ring stores implement one pass of the send loop; sent iff the ring had room, asleep in its place iff not and the caller waits |
| MailboxObject.KernelMailbox.Receive | rt-thread/src/ipc.c:1619-1706 | the ring reads implement one pass of the receive loop; the oldest word iff there was one, asleep in its place iff not and the caller waits |
| MailboxObject.KernelMailbox.Reset | rt-thread/src/ipc.c:1726-1758 | empties ring and lists, waking everyone |
| MailboxObject.KernelMailbox.RingOffsets | rt-thread/src/ipc.c:1535-1542 | in_offset == (out_offset + entry) mod size in every state |
| SemaphoreModel.StepKeeps | rt-thread/src/ipc.c:324-515 | a positive value means no waiters, and with priority queueing the list is ordered, after every step |
| SemaphoreModel.UnitsConserved | rt-thread/src/ipc.c:324-471 | value + grants == initial value + releases over every run without reset |
| SemaphoreModel.ReleaseServesMostUrgent | rt-thread/src/ipc.c:433-471 | after every run from initialisation a release serves the head, which with priority queueing is the most urgent and, among equals, the longest waiting thread |
| SemaphoreModel.TakeAnswers | rt-thread/src/ipc.c:337-409 | a unit iff there is one; without one the caller sleeps in its place iff it waits |
| SemaphoreModel.ReleaseAnswers | rt-thread/src/ipc.c:446-515 | the unit goes to the first waiter or else to the value; a reset lets everybody go and sets the value to the low 16 bits given |
| SemaphoreModel.TimeoutAnswers | rt-thread/src/thread.c:807-829 | a waiter leaves and nothing else changes |
| SemaphoreObject.KernelSemaphore.Take | rt-thread/src/ipc.c:324-409 | done iff the value was positive, asleep in its place iff not and the caller waits, else nothing changes |
| SemaphoreObject.KernelSemaphore.Release | rt-thread/src/ipc.c:433-471 | release as specified |
| SemaphoreObject.KernelSemaphore.Reset | rt-thread/src/ipc.c:483-515 | reset as specified |
| MemPoolModel.StepKeeps | rt-thread/src/mempool.c:303-449 | each block free once or lent out; no lost wake-up |
| MemPoolModel.EveryRunFromInit | rt-thread/src/mempool.c:77-449 | a block handed out is nobody's; failure iff all are lent; nobody sleeps beside a free block; full recovery |
| MemPoolModel.AllocAnswers | rt-thread/src/mempool.c:303-391 | the first free block iff there is one; without one the caller sleeps iff it waits, in front of the others |
| MemPoolModel.FreeAnswers | rt-thread/src/mempool.c:399-449 | the block is the next one handed out, and the first waiter, which came last, is woken |
| MemPoolModel.TimeoutAnswers | rt-thread/src/thread.c:807-829 | one sleeper goes and nothing else changes |
| MemPoolModel.StrideFits | rt-thread/src/mempool.c:99-104 | in 32-bit arithmetic a block has room for header and asked size, and less than four bytes more, iff the size is at most 0xFFFFFFF8; for which sizes the divisor is 0 |
| MemPoolModel.Layout | rt-thread/src/mempool.c:96-117 | for those block sizes blocks are aligned, large enough, inside the pool and disjoint with their headers |
| MemPoolModel.CountIsMost | rt-thread/src/mempool.c:96-104 | there are as many blocks as fit the size rounded down to words |
| MemPoolObject.KernelPool.constructor | rt-thread/src/mempool.c:110-121 | the headers chain all blocks in order |
| MemPoolObject.KernelPool.Alloc | rt-thread/src/mempool.c:303-391 | one pass of the allocation loop on the header chain: the chain's head, or asleep in front iff there is none and the caller waits |
| MemPoolObject.KernelPool.Free | rt-thread/src/mempool.c:399-449 | the block heads the chain and a waiter is resumed |
| Memory.MemMove | rt-thread/src/kservice.c:293-312 | correct for every overlap of the two areas |
| Memory.MemCpy | rt-thread/src/kservice.c:210-280 | the block-wise copy moves exactly the bytes, areas not overlapping |
| Memory.MemSet | rt-thread/src/kservice.c:126-197 | the word-wise fill sets exactly the bytes, for any alignment, count and value |
| Memory.FillWordBytes | rt-thread/src/kservice.c:152-165 | the doubled word has the byte in all four places |
| FormatText.NumberLength | rt-thread/src/kservice.c:618-775 | print_number advances by max(width, sign + max(digits, precision)), less the digits for precision 0 |
| FormatText.DigitsReadBack | rt-thread/src/kservice.c:568-585 | digits read back to the number |
| FormatText.NumberReadsBack | rt-thread/src/kservice.c:676-766 | printed digits read back for bases 10 and 16; precision 0 prints none |
| FormatText.SignAndMagnitude | rt-thread/src/kservice.c:651-664 | sign and magnitude make up the signed value, also for the most negative number |
| FormatText.OctalIsHexadecimal | rt-thread/src/kservice.c:568-585 | the digits of %o are octal iff the number is below 8 |
| FormatText.LiteralText | rt-thread/src/kservice.c:810-818 | text without directives is printed as it is |
| FormatText.DecimalRoundTrip | rt-thread/src/kservice.c:978-1024 | "%d" of any 32-bit number reads back to it |
| FormatLaws.ParseSays | rt-thread/src/kservice.c:820-883 | every directive is read as what its characters say: the longest run of flags, then a number, a `*` or nothing, then the same behind a dot, then h or l |
| FormatLaws.SaysOnce | rt-thread/src/kservice.c:820-883 | and it says one thing only |
| FormatLaws.NumeralOnce | rt-thread/src/kservice.c:568-585 | a number has one shortest numeral in base 10 or 16 and a letter case |
| FormatLaws.NumberPrints | rt-thread/src/kservice.c:618-775 | print_number prints the numeral of the value's magnitude with its sign, at least `precision` digits, and blanks in front, behind under '-', or zeros behind the sign up to the width |
| FormatLaws.ConversionPrints | rt-thread/src/kservice.c:888-1024 | %d and %i print the signed value, %u the unsigned one in base 10, %x and %X in base 16 with their letters, %o in base 16, each cut to 16 bits by h; %p eight digits unless a width is given; %s its string, "(NULL)" for none, cut at a positive precision; %c its character; %% and unknown characters themselves; and each takes one argument or none |
| FormatLaws.FormatPrints | rt-thread/src/kservice.c:777-1040 | the output of every format string with any arguments is its text and what each of its directives says of its argument, in order; a '%' at the end is printed |
| FormatLaws.UnsignedNumerals | rt-thread/src/kservice.c:968-1024 | "%x", "%X" and "%u" of any 32-bit number print its numeral |
| FormatBuffer.StoreDigits | rt-thread/src/kservice.c:676-683 | the digit loop stores the digits reversed, at most ten |
| FormatBuffer.PrintNumber | rt-thread/src/kservice.c:618-775 | the padding and digit loops write exactly the specified text, bounded by end |
| FormatBuffer.ReadDirective | rt-thread/src/kservice.c:820-883 | flags, width, precision and qualifier as specified, `*` included |
| FormatBuffer.PutConversion | rt-thread/src/kservice.c:888-1024 | each conversion writes its text and moves on |
| FormatBuffer.VsnPrintf | rt-thread/src/kservice.c:777-1040 | for any size: returns the full length; buffer holds the longest prefix that fits, NUL-terminated, and is otherwise unchanged |
| RadioCode.PackRoundTrip | radio/Radio_Decoder.c:71-81 | Manchester pairs: packing then receiving gives the data back without pair errors |
| RadioCode.UnpackReads | radio/Radio_Decoder.c:71-81 | each data bit is 1 iff its pair came as 0 and then 1 |
| RadioCode.PairsUnique | radio/Radio_Decoder.c:71-81 | a data byte half has only one error-free spelling |
| RadioCode.DistanceFour | radio/Radio_Decoder.c:91-102 | two different matrices passing the parity test differ in at least 4 bits |
| RadioCode.FewFlipsNoticed | radio/Radio_Decoder.c:91-102 | one to three flipped bits are always rejected |
| RadioCode.BuildIsEven | radio/Radio_Decoder.c:91-102 | a payload with its row and column parities passes the test |
| RadioFrames.RoundTrip | radio/Radio_Decoder.c:108-168 | status frames and frames of versions 1 to 3 decode to the fields they were built from |
| RadioFrames.ValueRoundTrip | radio/Radio_Decoder.c:135-149 | a version-0 reading decodes correctly iff its low seven bits equal the column parities |
| RadioFrames.OneOf128 | radio/Radio_Decoder.c:143-148 | two readings with the same upper twenty bits are sent alike, so at most one of them arrives |
| RadioFrames.ReadingOneIsLost | radio/Radio_Decoder.c:143-148 | reading 1 of meter 0 is accepted but decoded wrongly |
| RadioFrames.ReadingBelongsToMeter | radio/Radio_Decoder.c:108-168 | over every reception sequence msv is 0 or came with a frame of the current msid, since when only that meter's status frames were accepted |
| RadioFrames.ReadingIsKept | radio/Radio_Decoder.c:108-168 | conversely a reading so carried is the one the receiver holds |
| RadioFrames.FrameShows | radio/Radio_Decoder.c:104-168 | what a status frame or a frame of versions 1 to 3 leaves in msid, msv, flags and version after any receptions, and when the program is told |
| RadioFrames.ReadingShows | radio/Radio_Decoder.c:135-149 | what a version-0 reading leaves: its meter, its upper twenty bits, the old flags; the program is not told |
| RadioFrames.RejectedShows | radio/Radio_Decoder.c:69-102 | a rejected frame, and any frame while nobody listens, changes nothing |
| RadioReceiver.UnpackFrame | radio/Radio_Decoder.c:71-81 | the shift loops unpack, or fail iff some pair is bad |
| RadioReceiver.CheckParity | radio/Radio_Decoder.c:91-102 | the counting loops accept iff all rows and columns are even |
| RadioReceiver.ReadField | radio/Radio_Decoder.c:111-148 | the bit loops read the field |
| RadioReceiver.Decoder.StoreFrame | radio/Radio_Decoder.c:108-168 | version, layout and fields are stored as specified |
| RadioReceiver.Decoder.Callback | radio/Radio_Decoder.c:57-180 | the whole callback is the specified step; a rejected frame changes nothing but the rssi |
| RadioChunks.OneReading | radio/Radio_Common.c:193-199 | a byte stream reads as chunks in one way only |
| RadioChunks.WholeChunks | radio/Radio_Common.c:193-199 | whole chunks are read as what they are, whatever follows them |
| RadioChunks.TooLongChunk | radio/Radio_Common.c:203-209 | a chunk the framing allows and RXBuff does not |
| RadioChunks.LastDataWins | radio/Radio_Common.c:203-212 | the last data chunk determines RxLen and RXBuff |
| RadioChunks.LastRssiWins | radio/Radio_Common.c:231-238 | the signal strength is the signed byte of the last chunk that carries one, less the offset |
| RadioChunks.DataStopsIrq | radio/Radio_Common.c:203-214 | the interrupt is switched off iff a data chunk with a flag byte came |
| RadioDriver.Driver.ReceiveChunk | radio/Radio_Common.c:193-265 | each chunk consumes exactly header and declared length on every path and has the specified effect, unless it is a data chunk too long for RXBuff, iff |
| RadioDriver.Driver.ReceiveData | radio/Radio_Common.c:179-267 | on any received bytes, an incomplete last chunk included: stores past RXBuff iff some data chunk is too long; otherwise terminates with the FIFO empty and the state the fold of all chunks |
| RadioDriver.ReceivedFrameIsDecoded | radio/Radio_Common.c:179-267 | a built frame carried by the chunks reaches the decoder and is stored |
| MeterFrames.HexRoundTrip | applications/MS_Uart.c:23-31 | hex_number undoes number_hex, which writes capital letters |
| MeterFrames.HexOtherwise | applications/MS_Uart.c:27-31 | small letters read like capital ones, and no other characters are digits |
| MeterFrames.CheckReads | applications/MS_Uart.c:58-63 | the checksum digits read as the sum of the bytes modulo 256 |
| MeterFrames.KnownRequests | applications/MS_Uart.c:185-219 | the built read requests are the ones the program spells out |
| MeterFrames.HexReadsBack | applications/MS_Uart.c:242-245 | n hexadecimal digits carry a number iff it is below 16^n |
| MeterFrames.DecimalFits | applications/MS_Uart.c:220-246 | n decimal digits always fit n - 1 hexadecimal ones iff n is at least 6 |
| MeterFrames.FrameParts | applications/MS_Uart.c:236-257 | a built frame passes the parser's checksum rule and keeps its text |
| MeterFrames.ReadingArrives | applications/MS_Uart.c:67-74 | a reading of up to 8 digits is parsed to its value |
| MeterFrames.ResultsArrive | applications/MS_Uart.c:63-112 | a set request is acknowledged by '0' only, R delivers its last character, a bad checksum is an error, other commands are ignored |
| MeterFrames.AnswerIsWord | applications/MS_Uart.c:67-74 | a value never exceeds 32 bits |
| MeterFrames.AlarmsArrive | applications/MS_Uart.c:75-101 | a status answer delivers the alarm bits of its digits, each in its place |
| MeterFrames.WrongByteNoticed | applications/MS_Uart.c:58-63 | one wrong byte under the checksum is always noticed |
| MeterLink.EntryReadsBack | applications/MS_Uart.c:225-246 | the sent text reads back to the entry iff the entry is below 16^(len - 1) and 2^32 |
| MeterLink.DecimalPlaces | applications/MS_Uart.c:225-230 | the decimal places of the number are the places of the entry |
| MeterLink.EnteredNumberFits | applications/MS_Uart.c:220-246 | entries of six to nine digits and times of day always arrive |
| MeterLink.FiveNinesLost | applications/MS_Uart.c:220-246 | a five-digit entry that does not |
| MeterLink.ProgramEntries | applications/main.c:77-103 | the entries and times the program sends meet what the sender reads |
| MeterLink.AnswerLengths | applications/MS_Uart.c:260-287 | answers built as the meter sends them have the length that is waited for |
| MeterLink.Uart.SetData | applications/MS_Uart.c:220-264 | exactly the specified frame is sent, in 32-bit arithmetic, whatever the places it reads hold; the wait for a seven-byte answer starts |
| MeterLink.Uart.GetData | applications/MS_Uart.c:266-293 | exactly the read request is sent; the wait for an answer of its length starts |
| MeterLink.Uart.Parse | applications/MS_Uart.c:55-113 | the parser stores what the frame says on all its branches, in 32-bit arithmetic, and ends the wait |

## Left out
- SemaphoreModel.UnitsConserved: runs in which the 16-bit value overflows.
- MutexModel.HoldIsBalance: runs in which the 8-bit hold count overflows.
- AlignedAlloc.MallocAlign: requests whose size and alignment together wrap around 32 bits.
- FormatBuffer.VsnPrintf: a buffer end that wraps around the address space; widths, precisions and output lengths of 2^31 and more, and a `*` width of -2^31, where C's int arithmetic overflows.
- Preconditions the source relies on: a mem.c heap of at least three words (see above), a memheap pool larger than its two headers, a memory pool of at least one block, pointers given back that were handed out.
- SmallHeap.Heap.Realloc: other threads between the malloc, the copy and the free of its move path, where the lock is free; `SmallHeapModel.MoveAmongOthers` shows that they leave both blocks in place, and the same holds for MemHeap.Pool.Realloc.
- MutexModel.EveryRunFromInit: one mutex only, and priorities change only through it; with several mutexes the saved priorities mix.
- WaitList.SuspendOrdered: the priorities of threads already waiting do not change while they wait; the kernel does not reorder a list when they do.
- MqObject.KernelQueue.SendPass: clearing the taken node's link, which runs just after interrupts are enabled, belongs to the step that takes the node; no other thread looks at it.
- EventModel.ScanIsTurns: the 32-bit event word is a set of bit numbers.
- MemPoolModel.Layout: the free chain is modelled over block numbers, not over the pool's bytes.
- Memory.MemCpy: areas that overlap, which rt_memcpy does not support, and counts of 2^31 and more, which it keeps in an int.
- FormatBuffer.ReadDirective: arguments past the end of the list are 0 and NULL, where C leaves them undefined.
- RadioDriver.Driver.ReceiveData: what a too long data chunk overwrites behind RXBuff; the computed frequency offset, which is never stored.
- MeterLink.Uart.Parse: fewer than three bytes, where the source would read in front of the buffer; hex_number of characters that are no digits returns no value and is a parameter. The thread that collects the answer byte by byte and the one that counts the ticks down.
- WaitList.WaitQueue.SuspendThread: the kernel objects hold the sequence of waiting threads; that the links of RingList stand for the same sequence is proved beside them, not inside each object.
- The valve command, whose text is the address of a string and not its character, so that what is sent depends on where the program lies.
- rt_calloc, memory tracing, statistics commands and hooks of the heaps; the lock semaphore of memheap.
- Detaching and deleting IPC objects, object names, debug output.
- Scheduler, timers and thread internals beyond joining a wait list, waking, timing out and setting a priority.
- Signals, SMP locks and modules, which the configuration disables.
- Hardware drivers, USB, radio set-up and ranging, LCD, menus, files.
