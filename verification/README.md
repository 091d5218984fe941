# Verified model of a small x86_64 kernel

This project models the parts of a small Rust kernel whose correctness rests on raw memory and on
interleaving, and proves what they are for:

- **The linked-list heap.** A free list whose nodes are written into the free memory they describe.
  `FreeList` is first-fit allocation on values, `HeapRuns` holds what every call and every run keeps,
  and `LinkedList` is the pointer-walking allocator on raw words, proved to refine the values.
- **Preemptive round-robin switching.** `Machine` has the CPU, interrupt entry and `iretq` (Intel SDM
  Volume 3A, sections 6.14.2 and 6.14.3) and interprets the handlers instruction by instruction.
  `Preemption` proves that one CPU under interrupts simulates one CPU for each process, `Fairness` how
  soon each process is chosen, and `Kernel` is the code that updates fields step by step.
- **The fixed-size-block allocator.** `BlockPool` and `PoolRuns` are nine stacks of blocks over any
  fallback that keeps its promise; `FixedSizeBlock` is the same in raw memory.
- **Frames and demand paging.** `Frames` is the enumeration of usable frames, `Paging` what any run of
  heap page faults does to the page map.
- **The VGA text writer.** `TextLayout` lays a byte stream out on an unbounded page; `VgaWriter` is the
  25 by 80 buffer scrolled in place, proved to be a window on it.

`Alignment`, `Memory` and `Collections` hold what these share. Verify all of it with
`dafny verify dfyconfig.toml`.

## Reading notes

- Memory is a map of 64-bit words by byte address; addresses are naturals. Heaps lie below 2^63, as the
  kernel's do, and the model proves that no address computation wraps there.
- Clients of the heaps write whole words. Blocks are made of whole words, so a byte written in a live block
  changes a word of that block and no other.
- A `ListNode` of the linked-list heap is 16 bytes, aligned to 8: its size in the first word, `next` in
  the second, with 0 for none. The order of the two fields is a choice, since the Rust type leaves it open.
- A failed assertion, `expect` or `unwrap` is an outcome (`Panicked`, or a returned flag), not a precondition.
  The `unwrap` of a class layout has no flag: `BlockPool.ClassLayoutFacts` is that the layout is valid.
- The answers of the fallback allocator and of the page mapper, the effects of called functions below the
  stack pointer, and everything a process reads from outside are parameters: statements hold for all of them.
- A process is any function of its registers, its stack from rsp upwards and an input. Words below rsp are
  not part of what it sees, which is what the disabled red zone means.
- `HEAP_SIZE` is 100 MiB as computed by the code; the comment beside it says 100 KiB.
- The stack of process 0 is the boot stack and not the empty box in its record; `lo` and `top` of a process
  are where its stack is.

## Model

| member | source | states |
|---|---|---|
| Alignment.MaskClears | something_os/src/allocator.rs:80-82 | the mask `!(align - 1)` clears exactly the lowest bits of a word, for every power of two and every word |
| Alignment.AlignUpIsLeast | something_os/src/allocator.rs:77-82 | without wrap-around the mask form is the least multiple of the alignment at or above the address, and leaves aligned addresses alone |
| Alignment.AlignUpExact | something_os/src/allocator.rs:80-82 | the result is at or above the address if and only if the 64-bit addition does not wrap |
| FreeList.SizeAlignFacts | something_os/src/allocator/linked_list.rs:111-122 | the adjusted size is the least multiple of the adjusted alignment holding the layout and a node (16 for an empty layout); `expect` fails exactly for alignment below 8 and size above isize::MAX - 7 |
| FreeList.FirstFit | something_os/src/allocator/linked_list.rs:63-86 | gives the first region in list order that is accepted, and None exactly when none is accepted |
| HeapRuns.SuitsExactly | something_os/src/allocator/linked_list.rs:88-108 | a region is accepted if and only if an aligned block fits at its first aligned address and leaves 0 or at least 16 bytes |
| HeapRuns.RoomExactly | something_os/src/allocator/linked_list.rs:88-108 | some aligned address in a free region has room for the block, leaving 0 or at least 16 bytes behind it, if and only if the region is accepted or is 8 bytes over: alignment 8 and exactly 8 bytes larger than the block |
| HeapRuns.NullExactly | something_os/src/allocator/linked_list.rs:126-143 | `alloc` returns null if and only if every free region is 8 bytes over or has no room for the adjusted layout at any aligned address |
| HeapRuns.RefusedWithRoom | something_os/src/allocator/linked_list.rs:99-104 | a fresh heap of 24 bytes at address 8 returns null for 16 bytes at alignment 8, although they fit at address 16: only the first aligned address is tried |
| HeapRuns.NoInternalFailure | something_os/src/allocator/linked_list.rs:91-135 | in every good heap `align_up` does not wrap, the subtraction does not underflow, the split tail is 8-aligned with 16 bytes or more, and the only panic is the `expect` of the layout adjustment, under its exact condition |
| HeapRuns.AllocPieces | something_os/src/allocator/linked_list.rs:126-143 | a successful allocation replaces the chosen free region by gap, block and tail and touches no other piece |
| HeapRuns.AllocKeepsInv | something_os/src/allocator/linked_list.rs:126-143 | allocation keeps the heap invariant: aligned free regions of 16 bytes or more, good live blocks, all pieces disjoint, inside, and adding up |
| HeapRuns.DeallocPieces | something_os/src/allocator/linked_list.rs:145-150 | deallocation moves exactly one piece from the live blocks to the free list |
| HeapRuns.DeallocKeepsInv | something_os/src/allocator/linked_list.rs:145-150 | deallocation keeps the heap invariant |
| HeapRuns.RunKeepsInv | something_os/src/allocator/linked_list.rs:125-151 | the heap invariant holds after every legal run of calls |
| HeapRuns.BytesConserved | something_os/src/allocator/linked_list.rs:91-150 | after every run from `init`, free, live and lost bytes add up to the heap size |
| HeapRuns.ReachableHeapSafe | something_os/src/allocator/linked_list.rs:36-150 | after every run from `init` each live block is aligned for its layout, holds it, lies in the heap, and shares no byte with another block or a free region; each free region is 8-aligned, at least 16 bytes, inside, and disjoint from the others |
| HeapRuns.StepCounts | something_os/src/allocator/linked_list.rs:131-149 | free regions plus live blocks grow by one exactly on an allocation that leaves bytes behind its block (`excess_size > 0`) and never shrink; gaps grow by one exactly when the block starts above its region |
| HeapRuns.RunCounts | something_os/src/allocator/linked_list.rs:131-149 | over whole runs the counts grow by the number of allocations that leave bytes behind and of those that start above their region |
| HeapRuns.PieceBound | something_os/src/allocator/linked_list.rs:50-51 | 16 bytes for each free region and live block and 8 for each gap fit into the heap together |
| HeapRuns.FragmentationLaw | something_os/src/allocator/linked_list.rs:131-149 | any run, however long, leaves bytes behind a block at most size/16 - 1 times and starts a block above its region at most size/8 times |
| HeapRuns.GapSize | something_os/src/allocator/linked_list.rs:91-97 | one call loses at most one gap, which ends at the returned pointer, is a multiple of 8 and smaller than the adjusted alignment |
| HeapRuns.NothingLostAtEight | something_os/src/allocator/linked_list.rs:115-122 | a run whose layouts all ask for alignment 8 or less loses nothing |
| HeapRuns.FreeThenReuse | something_os/src/allocator/linked_list.rs:47-61 | freeing a block and allocating the same layout returns the same pointer and restores the prior free list |
| HeapRuns.AnswerIsNewBlock | something_os/src/allocator/linked_list.rs:126-143 | a returned pointer is a new live block, aligned and large enough for its layout, inside the heap, and apart from every other block and every free region; any other answer changes nothing |
| HeapRuns.LiveBlocksBalance | something_os/src/allocator/linked_list.rs:125-151 | over any run the live blocks are those of the start and those the answers handed out, without those freed; their number grows by the pointers and shrinks by the frees |
| HeapRuns.FreedAtHead | something_os/src/allocator/linked_list.rs:145-150 | after a run that ends by freeing a block, the free list is that block in its adjusted size followed by the list before the call, and the block is live no more |
| LinkedList.WalkIsFreeList | something_os/src/allocator/linked_list.rs:5-22 | walking the raw words from the head meets exactly the regions of the free list and ends within heap size / 16 nodes: the chain is acyclic and memory alone determines it |
| LinkedList.FreeNodesApart | something_os/src/allocator/linked_list.rs:48-61 | nodes of the free list share no word |
| LinkedList.UnlinkKeepsChain | something_os/src/allocator/linked_list.rs:74-78 | relinking past a node leaves a chain of the other regions in order |
| LinkedList.LinkKeepsChain | something_os/src/allocator/linked_list.rs:53-60 | writing a node into unused memory and pointing the head at it puts its region in front |
| LinkedList.LiveUntouched | something_os/src/allocator/linked_list.rs:48-151 | writes confined to free regions change no word of a live block |
| LinkedList.LinkedListAllocator.constructor | something_os/src/allocator/linked_list.rs:30-34 | the new allocator is valid and empty |
| LinkedList.LinkedListAllocator.Init | something_os/src/allocator/linked_list.rs:36-45 | `init` fails an assertion exactly for a misaligned start or fewer than 16 bytes, and otherwise holds the whole heap as one region |
| LinkedList.LinkedListAllocator.AddFreeRegion | something_os/src/allocator/linked_list.rs:47-61 | puts the region in front of the chain, writing only that region; panics exactly when an assertion fails, changing nothing |
| LinkedList.LinkedListAllocator.FindRegion | something_os/src/allocator/linked_list.rs:63-86 | the pointer walk unlinks exactly the first-fit region of the chain in memory, keeps the order of the rest, and writes only free regions |
| LinkedList.LinkedListAllocator.Alloc | something_os/src/allocator/linked_list.rs:126-143 | refines first-fit allocation on the free list in raw memory, answers only new blocks that are aligned, large enough and apart from everything else, never writes a byte of a live block, and panics only under the layout condition |
| LinkedList.LinkedListAllocator.Dealloc | something_os/src/allocator/linked_list.rs:145-150 | refines deallocation in raw memory, writes only the freed block and never fails an assertion |
| LinkedList.LinkedListAllocator.Serve | something_os/src/allocator/linked_list.rs:125-151 | any legal run of `alloc` and `dealloc` calls in raw memory ends in the heap and gives the answers of `HeapRuns`, and a block that is live throughout keeps every word |
| LinkedList.LinkedListAllocator.ClientWrite | something_os/src/allocator/linked_list.rs:52-60 | a client write inside a live block changes neither the chain nor the heap it describes |
| Machine.SameStep | something_os/src/process.rs:248-264 | `execute_switch` makes the same index and state step as the preemptive path |
| Machine.PushesRun | something_os/src/interrupt/handlers.rs:117-119 | a push sequence stores the registers in reverse order below the stack pointer |
| Machine.PopsRun | something_os/src/interrupt/handlers.rs:132-134 | a pop sequence loads consecutive words into the registers in order |
| Machine.OrdersMirror | something_os/src/interrupt/handlers.rs:117-134 | the pop order of the handlers is their push order backwards |
| Machine.LoadRegsForgets | something_os/src/interrupt/handlers.rs:132-134 | the 15 pops overwrite every general register, so helper calls may clobber any of them |
| Machine.PopsAndIretq | something_os/src/interrupt/handlers.rs:131-137 | the tail of the handlers resumes the CPU state of whatever frame the stack pointer is at |
| Machine.UnframeFrame | something_os/src/interrupt/handlers.rs:117-137 | a stored frame gives back exactly the interrupted CPU state: registers, rip, cs, rflags, rsp, ss |
| Machine.HandlerEffect | something_os/src/interrupt/handlers.rs:114-172 | the whole handler, instruction by instruction, stores one frame, steps the scheduler with its address, and resumes the frame at the returned address; the same text serves timer and keyboard |
| Machine.HandlerIsMasked | something_os/src/interrupt/handlers.rs:114-142 | from entry until `iretq` the handler runs with interrupts off |
| Preemption.HandlerWrites | something_os/src/interrupt/handlers.rs:114-142 | the handler writes only in the current stack below the interrupted stack pointer and leaves a complete frame there |
| Preemption.IrqEffect | something_os/src/interrupt/handlers.rs:152-172 | a taken interrupt continues the next process where it was saved, or the same one when the lock is held or there is no other |
| Preemption.IrqKeepsInv | something_os/src/interrupt/handlers.rs:152-172 | every interrupt keeps the invariant that each waiting process has a complete frame in its own stack and exactly the current one is running |
| Preemption.IrqKeepsViews | something_os/src/interrupt/handlers.rs:114-172 | an interrupt changes the registers and stack of no process, neither the interrupted one nor any other |
| Preemption.StepViews | something_os/src/interrupt/handlers.rs:117-137 | a step of the running process changes its own view as its program says and no other view |
| Preemption.ForgedIsFrame | something_os/src/process.rs:87-98 | the 20 words that `spawn` forges are the frame of a CPU with zero registers at the entry point |
| Preemption.SpawnWrites | something_os/src/process.rs:75-104 | `spawn` leaves the frame of a fresh CPU state at the stored pointer, zeros below it on the new stack, and every word outside that stack as it was |
| Preemption.FirstResume | something_os/src/process.rs:81-104 | executing 15 pops and `iretq` at the stored pointer starts at the entry point with zero registers, RFLAGS 0x200, CS 0x08, SS 0x10 and RSP at the end of the stack, whatever the registers held before, and changes nothing else |
| Preemption.SpawnKeepsInv | something_os/src/process.rs:75-115 | spawning on fresh memory under the lock keeps the invariant |
| Preemption.SpawnViews | something_os/src/process.rs:75-115 | spawning changes no existing view and starts the new process with its fresh view |
| Preemption.ApplyKeepsInv | something_os/src/interrupt/handlers.rs:114-172 | steps, interrupts, lock operations and spawns all keep the invariant |
| Preemption.ApplyViews | something_os/src/interrupt/handlers.rs:114-172 | each event moves at most the view of the running process, by its own program |
| Preemption.TransparentPreemption | something_os/src/interrupt/handlers.rs:114-172 | over any run of steps, interrupts, lock operations and spawns, each process ends as if it had run alone on its own inputs |
| Preemption.SpawnedRunsAlone | something_os/src/process.rs:75-115 | a process spawned within a run also runs as if alone, from its entry point with an empty stack |
| Fairness.ApplyTurn | something_os/src/interrupt/handlers.rs:158-168 | only a successful switch moves the turn, to the next index round; only a spawn adds a process |
| Fairness.LockedInterrupt | something_os/src/interrupt/handlers.rs:153-171 | an interrupt that finds the lock held returns to the same CPU state and leaves the scheduler and every view alone |
| Fairness.ApplyLock | something_os/src/process.rs:57 | only taking and dropping the lock change it, whatever interrupts, steps and spawns do |
| Fairness.CriticalSection | something_os/src/interrupt/handlers.rs:152-172 | from taking the lock until it is dropped no interrupt switches and the current process stays, whatever steps, interrupts and spawns fall in between |
| Fairness.EmptySection | something_os/src/interrupt/handlers.rs:153 | taking the lock and dropping it again is no change at all |
| Fairness.InterruptSwitches | something_os/src/interrupt/handlers.rs:152-168 | an interrupt makes the next index current if and only if it is taken, the lock is free and there are two processes or more; otherwise the index stays |
| Fairness.SwitchAfterDrop | something_os/src/interrupt/handlers.rs:152-168 | once the lock is dropped the next interrupt that is taken switches |
| Fairness.ProcessesAfterRun | something_os/src/process.rs:113 | the processes after a run are those of the start and those spawned |
| Fairness.ChosenWithinDistance | something_os/src/interrupt/handlers.rs:158-168 | a process d places ahead is chosen within d + s switches when s processes are spawned meanwhile |
| Fairness.EveryProcessChosen | something_os/src/interrupt/handlers.rs:158-168 | with n processes at the start and s spawned on the way, any process is chosen within n + s successful switches |
| Fairness.TurnAfterRun | something_os/src/interrupt/handlers.rs:163-164 | without spawns the turn after t switches is t places further round |
| Fairness.EachOncePerRound | something_os/src/interrupt/handlers.rs:158-168 | without spawns any n consecutive switches choose each of n processes exactly once |
| Fairness.ChosenIsCounted | something_os/src/interrupt/handlers.rs:158-168 | being chosen and being chosen a positive number of times are the same |
| Fairness.BootOrder | something_os/src/process.rs:64-115 | from an empty scheduler, ids equal positions and exactly the current process is running if and only if `spawn_root` was called first and once |
| Kernel.Kernel.constructor | something_os/src/main.rs:42-44 | the machine before the scheduler exists, with the process counter at 1 |
| Kernel.Kernel.Init | something_os/src/process.rs:56-62 | installs an empty scheduler |
| Kernel.Kernel.SpawnRoot | something_os/src/process.rs:64-73 | queues the running code as process 0 and makes index 0 current |
| Kernel.Kernel.ForgeFrame | something_os/src/process.rs:84-101 | the downward writes and the 15-step loop leave exactly the forged frame and its address |
| Kernel.Kernel.Spawn | something_os/src/process.rs:75-115 | the whole new state: zeroed stack with the forged frame, one more ready process, next process id |
| Kernel.Kernel.PreemptRoundRobin | something_os/src/interrupt/handlers.rs:152-172 | field by field, the scheduler step of the model and the stack pointer it returns |
| Kernel.Kernel.ExecuteSwitch | something_os/src/process.rs:248-264 | the cooperative index and state step |
| Kernel.Kernel.TakeInterrupt | something_os/src/interrupt/handlers.rs:114-142 | entry and the handler's instructions executed one by one equal the modelled interrupt |
| Kernel.Kernel.Happen | something_os/src/interrupt/handlers.rs:114-172 | each event, executed on the fields, is the event of the model |
| Kernel.Kernel.RunEvents | something_os/src/interrupt/handlers.rs:114-172 | any legal run of events, executed on the fields one after the other, is the run of the model and keeps the invariant |
| Kernel.Kernel.Register | something_os/src/main.rs:72-80 | a sequence of `spawn_root` and `spawn` calls leaves the record and the counter that `Fairness.BootOrder` speaks of |
| Kernel.Boot | something_os/src/main.rs:70-80 | installing the scheduler, registering the running code and spawning any number of processes on apart stacks gives a machine that satisfies the preemption invariant, with process 0 current and each other process at its entry point on an empty stack of its own |
| BlockPool.Position | something_os/src/allocator/fixed_size_block.rs:19 | the first size in the list that is large enough, None exactly when none is |
| BlockPool.ListIndexIsLeast | something_os/src/allocator/fixed_size_block.rs:14-20 | the class of a layout is the least one of at least max(size, align), and None exactly above 2048 |
| BlockPool.ClassLayoutFacts | something_os/src/allocator/fixed_size_block.rs:73-76 | the layout asked for a class is valid, so `unwrap` does not fail, and is of that class |
| BlockPool.FetchKeepsInv | something_os/src/allocator/fixed_size_block.rs:71-80 | fetching a block from any fallback that keeps its promise keeps the pool invariant |
| BlockPool.PopKeepsInv | something_os/src/allocator/fixed_size_block.rs:66-70 | popping a free block keeps the pool invariant |
| BlockPool.GiveKeepsInv | something_os/src/allocator/fixed_size_block.rs:85-108 | freeing, to a list or to the fallback, keeps the pool invariant |
| PoolRuns.RunKeepsInv | something_os/src/allocator/fixed_size_block.rs:61-109 | the pool invariant holds after every legal run over any fallback |
| PoolRuns.LiveBlocksSafe | something_os/src/allocator/fixed_size_block.rs:61-109 | in every reachable pool a live block is aligned and large enough for its layout, apart from every other block, and on no free list |
| PoolRuns.HeldBlocksAccounted | something_os/src/allocator/fixed_size_block.rs:61-109 | each fetched block is at every moment live or on exactly one free list |
| PoolRuns.SmallBlocksStay | something_os/src/allocator/fixed_size_block.rs:88-101 | a block fetched for a class is held under that class for ever |
| PoolRuns.ReturnedAsIssued | something_os/src/allocator/fixed_size_block.rs:102-107 | the fallback is given back only large blocks it issued, with the layout they were asked for |
| PoolRuns.LastInFirstOut | something_os/src/allocator/fixed_size_block.rs:66-100 | the next request of the same class gets the block freed last, and the lists are as before |
| PoolRuns.TakeAnswers | something_os/src/allocator/fixed_size_block.rs:62-83 | a returned pointer was not live before, is live and safe for its layout after, and is what the fallback gave if it was asked; the answer is null if and only if the fallback was asked and had none, and then nothing changes |
| PoolRuns.LiveCount | something_os/src/allocator/fixed_size_block.rs:61-109 | over any run the number of live blocks grows by the pointers answered and shrinks by the frees |
| PoolRuns.HeldCount | something_os/src/allocator/fixed_size_block.rs:62-108 | blocks fetched for a class are those live plus those on its list |
| PoolRuns.StepPeak | something_os/src/allocator/fixed_size_block.rs:66-78 | a block is fetched only when every block of its class is live |
| PoolRuns.PeakLaw | something_os/src/allocator/fixed_size_block.rs:62-108 | in any run from the empty pool the number of blocks fetched for a class equals the most ever live at one moment |
| FixedSizeBlock.PopStack | something_os/src/allocator/fixed_size_block.rs:66-70 | unlinking the head block leaves nine chains, the popped one shorter by its head |
| FixedSizeBlock.PushStack | something_os/src/allocator/fixed_size_block.rs:88-100 | writing a node into the freed block and pointing the head at it leaves nine chains, one longer |
| FixedSizeBlock.FixedSizeBlockAllocator.constructor | something_os/src/allocator/fixed_size_block.rs:33-39 | the new allocator is valid and holds nothing |
| FixedSizeBlock.FixedSizeBlockAllocator.FallbackAlloc | something_os/src/allocator/fixed_size_block.rs:52-58 | passes the fallback's answer on; its writes to memory it owns leave the chains intact |
| FixedSizeBlock.FixedSizeBlockAllocator.Alloc | something_os/src/allocator/fixed_size_block.rs:62-83 | refines taking from the pool in raw memory; a pointer is a block not live before and safe for its layout now, null means the fallback had none; writes no byte of a live block |
| FixedSizeBlock.FixedSizeBlockAllocator.Dealloc | something_os/src/allocator/fixed_size_block.rs:85-108 | refines giving back in raw memory, fails neither assertion nor the null check, writes no byte of another live block, and for a class block writes its first word only |
| FixedSizeBlock.FixedSizeBlockAllocator.Serve | something_os/src/allocator/fixed_size_block.rs:61-109 | any legal run of `alloc` and `dealloc` calls, over any fallback that keeps its promise, ends in the pool and gives the answers of `PoolRuns`, and a block that is live throughout keeps every word |
| FixedSizeBlock.FixedSizeBlockAllocator.ClientWrite | something_os/src/allocator/fixed_size_block.rs:96-100 | a client write inside a live block leaves every chain intact |
| Frames.BootInfoFrameAllocator.AllocateFrame | something_os/src/memory.rs:71-90 | call number n answers frame t of usable region i, that is its start + 4096 t, where n is t plus the whole frames of the usable regions before it; from the total number on it answers None |
| Frames.UsableFramesAt | something_os/src/memory.rs:71-81 | frame t of usable region i stands in the flattened list after all frames of the usable regions before it |
| Frames.UsableFramesCount | something_os/src/memory.rs:71-81 | the list holds as many frames as the usable regions have together |
| Frames.UsableFramesMembers | something_os/src/memory.rs:70-81 | the list holds exactly the frames that lie wholly in a usable region |
| Frames.FramesDistinct | something_os/src/memory.rs:70-81 | the list has no frame twice if and only if the usable regions are pairwise disjoint |
| Frames.AllocateFrames | something_os/src/memory.rs:61-90 | n calls on a new allocator answer the frames region by region in the order of the map and upwards in each usable region, then None |
| Frames.HandedOutOnce | something_os/src/memory.rs:84-90 | with regions apart, such a run of calls answers no frame twice and only usable frames; once None is answered every usable frame has been given out and every later answer is None |
| Paging.PageFaultHandler.CallMapTo | something_os/src/interrupt/handlers.rs:69 | the mapper takes its page tables from the same frame allocator and maps an unmapped page, or fails |
| Paging.PageFaultHandler.PageFault | something_os/src/interrupt/handlers.rs:40-84 | the handler's new state and outcome, field by field, are those of the modelled fault |
| Paging.PageFaultHandler.HandleFaults | something_os/src/interrupt/handlers.rs:40-84 | any run of faults up to the first panic ends in the state and outcome of `Paging.RunFaults`, with as many resumed |
| Paging.FaultKeepsInv | something_os/src/interrupt/handlers.rs:50-76 | one fault keeps the page map injective and apart from page tables; a resumed one maps one new page to the next frame and leaks nothing |
| Paging.FaultResumesExactly | something_os/src/interrupt/handlers.rs:54-83 | a fault is resumed if and only if it hits an unmapped heap page, the statics are set, the mapper does not refuse and frames suffice for page and tables |
| Paging.HeapPagesBound | something_os/src/allocator.rs:16-17 | at most 25600 pages lie in the heap range |
| Paging.DemandPaging | something_os/src/interrupt/handlers.rs:50-76 | over any run of faults from boot: injective page map, apart from page tables, mapped pages wholly in the heap, as many pages as resumed faults and at most 25600, no frame lost until a fault fails |
| TextLayout.LayoutSnoc | something_os/src/vga_buffer/print.rs:80-100 | laying out one more byte opens a row for a newline or after a full row and otherwise lengthens the last row: wrapping at 80 is deferred to the next byte |
| TextLayout.ChunkKeeps | something_os/src/vga_buffer/print.rs:84-97 | a line keeps its bytes in order, in full rows of 80 but for the last, which is empty only for an empty line |
| TextLayout.LayoutKeeps | something_os/src/vga_buffer/print.rs:80-100 | every byte but newlines is on the page, in order, and no row is longer than 80 |
| TextLayout.NewlineSplitsLayout | something_os/src/vga_buffer/print.rs:82 | a newline ends its line: what follows it is laid out from a new row on |
| TextLayout.OneLine | something_os/src/vga_buffer/print.rs:83-97 | row i of a line without newlines is its bytes from 80 i on, at most 80 of them, and an empty line takes one row |
| TextLayout.RowCount | something_os/src/vga_buffer/print.rs:80-100 | each newline opens one row, and each line one more for every further 80 bytes begun |
| VgaWriter.Writer.constructor | something_os/src/vga_buffer/print.rs:7-12 | a fresh writer shows the initial contents with the cursor at row 0, column 0 |
| VgaWriter.Writer.ClearRow | something_os/src/vga_buffer/print.rs:112-120 | blanks one row and no other |
| VgaWriter.Writer.Scroll | something_os/src/vga_buffer/print.rs:127-136 | moves every row up one, overwriting the first, and blanks the last |
| VgaWriter.Writer.NewLine | something_os/src/vga_buffer/print.rs:122-142 | opens one row on the unbounded canvas, with the buffer still its last 25 rows |
| VgaWriter.Writer.PutAtCursor | something_os/src/vga_buffer/print.rs:88-97 | the byte appears at the end of the last row of the canvas and nowhere else |
| VgaWriter.Writer.WriteByte | something_os/src/vga_buffer/print.rs:80-100 | after any byte the buffer and cursor are the window on the layout of everything written |
| VgaWriter.Writer.WriteString | something_os/src/vga_buffer/print.rs:101-110 | appends byte by byte: newlines and 0x20 to 0x7e as they are, anything else as 0xfe; so a printable string extends the text by itself |
| VgaWriter.Writer.ScreenIsPrinted | something_os/src/vga_buffer/print.rs:80-110 | what was written through strings only shows as 0x20 to 0x7e or 0xfe, and every other cell is initial or blank |
| VgaWriter.Writer.ScreenShowsTail | something_os/src/vga_buffer/print.rs:80-142 | the screen shows the last 25 rows of the layout, initial contents where nothing was written, blanks in later rows; row_position <= 24 and column_position <= 80 |

## Left out

- The `something_os_networking` copies, `fixed_size_blocks.rs` and `bump.rs`: the same text again, or a bump pointer that adds nothing harder.
- `context_switch`: the cooperative path stores callee-saved registers and `rip` in the process record, a format the interrupt path does not read; only its index and state step is modelled.
- `software_yield_handler`, `yield_now` and `preempt_now`: they lead to `context_switch` and are not part of this model.
- Interrupts and faults nested in a handler: interrupts stay off until `iretq`.
- Stacks that overflow: a process step leaves room for one frame, as the kernel assumes.
- Shared memory between processes: a step writes its own registers and stack, and reads the rest as input.
- RFLAGS bits other than the interrupt flag: `iretq` loads the stored word as it is, without the reserved bit that hardware always sets.
- Spin locks other than the scheduler's, port I/O, the interrupt controllers, TLB flushes, panic output and colours.
- The insides of the fallback heap and of the page mapper: only their promises are used.
- Wrap-around of `BootInfoFrameAllocator.next` and of the process counter after 2^64 calls: both are unbounded here.
