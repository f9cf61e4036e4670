# Zulu OS in Dafny

A model of the state-heavy parts of the Zulu OS kernel, with proofs about all their inputs and runs:
the kernel heap, the frame allocator and ELF loader, the async executors with the keyboard stream,
the system call path, and the VGA writer.

`dafny verify dfyconfig.toml` verifies the whole project.

## How it is laid out

| file | models |
|---|---|
| `Prelude.dfy`, `Bits.dfy` | shared notions; bitwise operations on words |
| `Layouts.dfy`, `Bump.dfy`, `BumpSequential.dfy` | `align_up`; the bump allocator as a state machine of atomic accesses, and as one caller sees it |
| `Heap.dfy` | mapping the kernel heap |
| `Paging.dfy`, `Frames.dfy` | pages, flags, the page mapper over physical memory; the frame allocator |
| `Elf.dfy`, `Loader.dfy` | program headers, permissions and image contents; the loops of `elf::load` |
| `Executors.dfy`, `ExecutorLoops.dfy` | the round-robin and the queue executor, one turn at a time and as loops |
| `ExecutorEvents.dfy` | the queue executor's loop as events of the interleaved machine |
| `Wakeups.dfy`, `Keyboard.dfy` | executor, wakers, keyboard interrupt and halting, interleaved; the keyboard's shared state |
| `UserMemory.dfy` | user buffer checks; the dispatcher and its result encoding |
| `Cpu.dfy`, `SyscallPath.dfy` | an instruction interpreter; the stub, the handler, `enter_user_mode` |
| `Vga.dfy` | text laid out on an unbounded log; the scrolling buffer |

Concurrency is a state machine whose events are single atomic accesses, and theorems are about every
sequence of events. Objects that the kernel updates in place are classes; their methods are proved
against functions, and the lemmas are about those functions. Automatic induction is switched off, so
every induction is written out. A panic is an explicit failure result, or an event that is not
enabled.

## Where the code does not do what it says

- Page permissions. The merge ORs the flags before it tests the no-execute bit, so the bit that
  survives is the one of the last covering segment. A page is executable "if either one is" only under
  the condition of `Elf.ExecuteRule`; `Elf.ExecutionLost` is a pair of segments that breaks it.
- Error words. An unknown call is error code 0, so its word is 0 and not negative
  (`Dispatch.ErrorIsNegativeIff`). Callers can still tell results apart, because no call succeeds with
  0 (`Dispatch.ReturnedWordMeans`).
- Alignment. `alloc` rounds the size and not the start (`BumpSequential.MisalignedPointer`). The
  pointers returned are aligned in all runs exactly when the condition of
  `BumpSequential.AlignedIffSuited` holds.
- Overflow. A failed allocation stays added to the bump word, so three requests can wrap it and hand
  out overlapping blocks (`BumpSequential.WrapOverlaps`). Without overflow blocks never overlap
  (`Bump.LiveBlocksDisjoint`); with it an overlap is within reach of every state that has a live
  block (`BumpSequential.OverlapIsNear`). Well-bracketed use gives everything back exactly when
  `BumpSequential.BracketedRunRestores` says.
- Zero fill. The loader does not clear the bytes between file size and memory size
  (`Loader.DirtyFrameShows`); `Loader.ZeroFillComesFromFrames` is the exact condition.
- The page after the end. A segment that ends on a page boundary also takes the next page
  (`Elf.ExtraPage`). That can make a data page executable (`Elf.WritableAndExecutable`,
  `Elf.PermissionsByBytes`) and can make loading fail (`Loader.ExtraPageBlocks`,
  `Loader.LoadsExactlyWhen`).
- File size. Nothing compares it with the memory size, so a copy can run on into earlier mappings
  (`Loader.FileOverruns`, `Loader.EarlierByteAfterLoad`).
- Ready queue. It has room for 128 ids, and a single task can fill it
  (`Wakeups.OneTaskOverflows`); `Wakeups.KeyPanicsIff` is the exact condition.
- Entry of the kernel's function. It is an ordinary function and may rely on a clear direction flag,
  but only the interrupt flag is masked, so the caller's direction flag arrives
  (`SyscallService.DirectionFlagArrives`); `SyscallPath.EnteredByAbi` is the exact condition.

## Model

| member | source | states |
|---|---|---|
| Layouts.AlignUpIsLeastMultiple | kernel/src/allocator/mod.rs:54-56 | the mask form gives the least multiple of a power of two that is not below the value |
| Layouts.LayoutRounds | kernel/src/allocator/bump.rs:38-40 | what `alloc` adds for a valid layout is a multiple of its alignment, at least the size asked for and less than one alignment more |
| Bump.StepKeepsInv | kernel/src/allocator/bump.rs:37-67 | each atomic access keeps the blocks in use disjoint and below `next`, in any interleaving, also when `next` left the value a `dealloc` saw and came back to it |
| Bump.LiveBlocksDisjoint | kernel/src/allocator/bump.rs:37-67 | in every run no byte belongs to two blocks |
| Bump.BlockInBounds | kernel/src/allocator/bump.rs:37-67 | in every run every byte of a block lies between the heap start and `next` |
| Bump.WrapIsTheOnlyDanger | kernel/src/allocator/bump.rs:41-41 | an access keeps that invariant, disjoint and below `next`, if and only if it does not overflow the word |
| Bump.OneOverhang | kernel/src/allocator/bump.rs:41-46 | in every run at most one live block reaches past the heap end |
| Bump.WordAccount | kernel/src/allocator/bump.rs:37-67 | in every run `next` is the heap start plus the sizes of all allocations started, less the sizes of the blocks whose exchange found the word they had loaded |
| Bump.NullIff | kernel/src/allocator/bump.rs:41-46 | an allocation returns null if and only if, at its start, the sizes not given back exceed the heap |
| Bump.NullForever | kernel/src/allocator/bump.rs:41-66 | once a positive-size allocation has returned null, every allocation that starts later returns null, whatever is freed or in flight |
| BumpSequential.BumpAllocator.Init | kernel/src/allocator/bump.rs:26-31 | the stores put the allocator into an initial state of the machine |
| BumpSequential.BumpAllocator.Alloc | kernel/src/allocator/bump.rs:37-47 | an undisturbed `alloc` is the two events of the machine; null exactly when the start is beyond the heap end |
| BumpSequential.BumpAllocator.Dealloc | kernel/src/allocator/bump.rs:49-67 | an undisturbed `dealloc` is the load and, if it matched, the exchange; it gives back the topmost block only |
| BumpSequential.BracketedRunRestores | kernel/src/allocator/bump.rs:37-67 | a well-bracketed run restores `next` if and only if every positive-size request in it starts within the heap |
| BumpSequential.AlignedIffSuited | kernel/src/allocator/bump.rs:38-46 | for a list of requested alignments, the pointers returned in all interleavings and for all sizes are aligned if and only if every alignment divides the heap start and each earlier one is at least as strict as each later one, or so large that one unit of it exceeds the heap |
| BumpSequential.MisalignedPointer | kernel/src/allocator/bump.rs:38-46 | a byte and then a word on the real heap: the pointer returned for the word is not aligned |
| BumpSequential.WrapOverlaps | kernel/src/allocator/bump.rs:40-46 | three requests on the real heap bounds overflow the word and leave two live blocks sharing a byte |
| BumpSequential.OverlapIsNear | kernel/src/allocator/bump.rs:41-46 | once the word may overflow, every state with a live block that is not empty is five accesses away from an overlap with that block |
| Heap.InitKernelHeap | kernel/src/allocator/mod.rs:17-45 | succeeds exactly when the heap pages are free and the frames suffice; then every heap byte is on a writable kernel page with a frame of its own, earlier mappings stand, and the allocator is initialized |
| Heap.BlocksAreBacked | kernel/src/allocator/mod.rs:21-43 | every byte of every block of every run is on such a page, unless it lies past the heap end |
| Heap.HeapIsPrivate | kernel/src/allocator/mod.rs:29-39 | no system call is granted a buffer with a byte of the heap in it |
| Heap.HeapIsWritable | kernel/src/allocator/mod.rs:29-39 | the kernel can write every byte of the heap |
| Frames.BootInfoFrameAllocator.AllocateFrame | kernel/src/memory.rs:103-107 | recomputing the stream and skipping is popping the list of frames left |
| Frames.CallsArePops | kernel/src/memory.rs:89-107 | any number of calls gives the results of as many pops |
| Frames.UsableExactly | kernel/src/memory.rs:89-99 | the stream holds exactly the frames of usable regions |
| Frames.FramesInOrder | kernel/src/memory.rs:89-99 | the stream goes through the usable regions in the order of the memory map, and through each region upwards, frame by frame |
| Frames.StreamLength | kernel/src/memory.rs:89-99 | and it has no other frames |
| Frames.EachFrameOnce | kernel/src/memory.rs:89-107 | for a disjoint memory map every usable frame is returned at exactly one call, and calls after the last frame return nothing |
| Frames.OnlyUsable | kernel/src/memory.rs:89-107 | nothing but usable frames is returned |
| Mapping.AddressSpace.CopyTo | kernel/src/elf/mod.rs:135-138 | the bytes are stored one after the other through the page map; faults exactly where the range leaves writable pages |
| Mapping.StoreAllCopies | kernel/src/elf/mod.rs:135-138 | on pages with frames of their own, the addressed bytes change and nothing else |
| Mapping.CostAppend | kernel/src/elf/mod.rs:118-130 | mapping pages in ascending order, one more page above the others adds its own frame and tables at the end |
| Elf.ParseFlags | kernel/src/elf/mod.rs:42-56 | user, writable and executable follow the read, write and execute bits of the header |
| Elf.SegmentsFromHeaders | kernel/src/elf/mod.rs:32-81 | the segments are those of the headers with a known non-null type and a nonzero memory size, each with its header's type, address, memory size, file range and alignment, and the user, writable and execute bits of its flags |
| Elf.TextBaseMeans | kernel/src/elf/mod.rs:87-93 | the text base is the start of the last executable segment, and there is none exactly when no segment is executable |
| Elf.TextLandsAtFixedAddress | kernel/src/elf/mod.rs:87-96 | after shifting, the last executable segment starts at the fixed text address |
| Elf.ShiftIsRigid | kernel/src/elf/mod.rs:93-96 | shifting keeps the distance between any two addresses, as words |
| Elf.UnionOfBits | kernel/src/elf/mod.rs:98-116 | exactly the covered pages are planned, with the union of the user and writable bits of all covering segments |
| Elf.LastSegmentDecidesExecution | kernel/src/elf/mod.rs:104-113 | the no-execute bit of a page is the one of the last covering segment in header order |
| Elf.ExecuteRule | kernel/src/elf/mod.rs:104-113 | this is the commented rule on a page if and only if the last covering segment is executable or none is |
| Elf.ExecutionLost | kernel/src/elf/mod.rs:104-113 | a text and a data segment sharing a page that ends up non-executable |
| Elf.ExtraPage | kernel/src/elf/types.rs:76-80 | a segment is given a page without a byte of it if and only if it ends where that page begins |
| Elf.PermissionsByBytes | kernel/src/elf/mod.rs:98-116 | a page gets the permissions of the segments with bytes on it if and only if those already give it the user bit, the writable bit and the execution bit that segments ending at its first address add |
| Elf.WritableAndExecutable | kernel/src/elf/mod.rs:98-116 | data followed in header order by text that ends where the data begins: the data page is writable and executable, with no byte of text on it |
| Elf.ImageOfSegment | kernel/src/elf/mod.rs:132-142 | where no later Load segment has a file byte, the image holds the segment's own |
| Loader.ParseHeaders | kernel/src/elf/mod.rs:32-81 | yields the segments of the kept headers, or panics exactly when a kept header has a non-canonical address or a file range that overflows |
| Loader.FindText | kernel/src/elf/mod.rs:87-92 | finds the start of the last executable segment, and nothing exactly when there is none |
| Loader.ElfFile.Remap | kernel/src/elf/types.rs:60-65 | moves the entry point and every segment and changes nothing else; panics exactly when a moved address is not canonical |
| Loader.PlanPages | kernel/src/elf/mod.rs:98-116 | the ordered map holds the merged flags of every covered page and no other page |
| Loader.MapPages | kernel/src/elf/mod.rs:118-130 | succeeds exactly when no page is mapped already and the frames suffice for pages and page tables; each page gets the frame at the place in the list that comes after all that lower pages cost, and temporary write permission |
| Loader.CopySegments | kernel/src/elf/mod.rs:132-142 | stores the file bytes of the Load segments in header order; fails exactly when a file range exceeds the file or a file byte goes to a page that is not writable |
| Loader.WriteImageFills | kernel/src/elf/mod.rs:132-142 | on pages with frames of their own that take all file bytes, the result is the image over what the frames held, and all other memory is untouched |
| Loader.RestoreFlags | kernel/src/elf/mod.rs:144-151 | every planned page ends with its planned flags and its frame |
| Loader.BackedIsCovered | kernel/src/elf/types.rs:76-80 | the pages of a segment hold all its file bytes, if these are no more than its memory size |
| Loader.Load | kernel/src/elf/mod.rs:24-154 | for any headers, the exact condition for neither panicking nor faulting; then the placed segments, and a memory that extends the old one by the segments' pages with merged flags, each on the spare frame its position gives, and the file bytes stored in header order |
| Loader.PlacedExactlyWhen | kernel/src/elf/mod.rs:32-96 | by headers, when parsing and moving do not panic: addresses and file ranges can be represented, and everything can be moved by the distance from the last executable header to the text address |
| Loader.TextBaseByHeaders | kernel/src/elf/mod.rs:87-93 | there is a text address exactly when some kept header has the execute bit |
| Loader.TextHeaderLands | kernel/src/elf/mod.rs:87-96 | the last header with the execute bit is loaded at the fixed text address |
| Loader.MemoryIsMapped | kernel/src/elf/mod.rs:98-130 | every byte of memory that a header asks for, file-backed or not, is on a new page of the final page map |
| Loader.PermissionsByHeaders | kernel/src/elf/mod.rs:32-151 | the new pages are exactly those the moved headers cover; a page is accessible to users, and writable, if and only if a covering header has the read, or write, bit, and executable if and only if the last covering header has the execute bit |
| Loader.WholeImageInPlace | kernel/src/elf/mod.rs:93-151 | for headers whose file bytes fit their memory and have different addresses, every file byte of every Load header reads back at its shifted address through the final page map |
| Loader.FileByteInPlace | kernel/src/elf/mod.rs:132-151 | the same for a single file byte that no later Load segment overwrites, wherever the file bytes go, on pages without aliases |
| Loader.EarlierMappingsUnchanged | kernel/src/elf/mod.rs:118-151 | every earlier mapping stays; if the file bytes fit, it shows what it showed unless it aliases a frame that was still to be handed out |
| Loader.EarlierByteAfterLoad | kernel/src/elf/mod.rs:132-142 | whether they fit or not, an earlier page without aliases keeps its byte where no Load segment's file range reaches, and shows the image where one does |
| Loader.FileOverruns | kernel/src/elf/mod.rs:132-142 | a header with more file bytes than memory: it loads, and the memory after the load, which is returned, has a byte of an earlier mapping overwritten |
| Loader.FinalPermissions | kernel/src/elf/mod.rs:98-151 | the final page map gives every covered page the union of the user and writable bits and the execution bit of the last cover, the temporary write permission is gone, and these are the permissions of the segments with bytes on the page exactly under the condition of `Elf.PermissionsByBytes` |
| Loader.LoadsExactlyWhen | kernel/src/elf/mod.rs:98-130 | loading succeeds if and only if the bytes of the segments can be mapped and filled, the frames suffice, and no segment that fills its last page is followed by a page that is taken or does not exist |
| Loader.ExtraPageBlocks | kernel/src/elf/mod.rs:118-130 | a segment of one page that cannot be loaded below a mapped page, although none of its bytes is there |
| Loader.ZeroFillComesFromFrames | kernel/src/elf/mod.rs:118-142 | a byte of a segment with no file byte behind it reads zero if and only if the spare frame that its page gets, named before the load, holds zero there |
| Loader.DirtyFrameShows | kernel/src/elf/mod.rs:118-142 | 16 zero bytes of file with 32 bytes of memory on a frame of sevens: the load succeeds, and in the memory after it, which is returned, the rest reads seven |
| Executors.RefinesSimple | kernel/src/task/executor.rs:23-54 | for at most 128 self-waking tasks, every run of the queue executor makes exactly the polls of a run of the simple one, and its queue never overflows |
| Executors.ReachesSimple | kernel/src/task/executor.rs:31-54 | every run of the simple executor is matched, so stale ids starve no task |
| Executors.Fair | kernel/src/task/simple_executor.rs:20-31 | at all times, whatever the tasks do, the poll counts of two unfinished tasks differ by at most one |
| Executors.Terminates | kernel/src/task/simple_executor.rs:20-31 | if each task needs finitely many polls, the run ends after exactly their sum, with each task polled exactly as often as it needs |
| Executors.RemainingIsSum | kernel/src/task/simple_executor.rs:20-31 | the polls remaining at the start are the sum of the needs |
| ExecutorLoops.SimpleExecutor.Run | kernel/src/task/simple_executor.rs:20-31 | after any number of turns the loop is where the round-robin run is, and it ends exactly on an empty queue |
| ExecutorLoops.Executor.Spawn | kernel/src/task/executor.rs:23-29 | panics exactly on an id in use or a full queue; otherwise the task is live and last in the queue |
| ExecutorLoops.Executor.RunReadyTasks | kernel/src/task/executor.rs:31-54 | for any tasks, woken by themselves, by others or by interrupts, the loop makes the turns of the specification and panics exactly when a push finds the queue full |
| ExecutorLoops.WakeupsConserved | kernel/src/task/executor.rs:31-82 | for any tasks and wakers and any number of turns, the ids taken off the queue followed by those in it are the initial queue followed by every id woken, in order |
| ExecutorLoops.WokenStaysQueued | kernel/src/task/executor.rs:78-82 | an id woken during any poll is in the queue until a turn takes it off |
| ExecutorLoops.TasksAccounted | kernel/src/task/executor.rs:31-54 | the polls made, the tasks left and the wakers cached are those of the live ids taken off and of the polls that were ready |
| ExecutorEvents.TurnIsEvents | kernel/src/task/executor.rs:31-54 | a turn of the loop is the machine's events: a pop, the wakeups of the poll, and a finish or a yield, with the same panics |
| ExecutorLoops.TurnsAreRun | kernel/src/task/executor.rs:31-54 | for tasks that wake only themselves, related to those of a simple executor, it never panics and makes the turns of the refining run |
| ExecutorLoops.DrainsLikeSimple | kernel/src/task/executor.rs:31-54 | when the simple executor is done, the loop has made exactly its polls and has left no task, id or cached waker |
| Wakeups.StepKeepsInv | kernel/src/task/keyboard.rs:27-77 | every step of the executor, the stream and the interrupt handlers keeps the invariant on ids, polls, halting and the keyboard's waker |
| Wakeups.NoLostWakeup | kernel/src/task/keyboard.rs:38-49 | in every interleaving a live keyboard task that is not being polled is queued, or the scancode queue is empty and its waker is registered |
| Wakeups.KeyPressWakes | kernel/src/task/keyboard.rs:69-77 | so a key press always leaves such a task in the ready queue |
| Wakeups.ReadyStaysQueued | kernel/src/task/executor.rs:23-54 | a task that was spawned or woken is in the ready queue until it is taken for a poll |
| Wakeups.HaltsOnlyWhenIdle | kernel/src/sys.rs:10-20 | whenever the core is halted, every task spawned or woken before has been taken for a poll since |
| Wakeups.SleepIfIdle | kernel/src/sys.rs:10-20 | on an empty queue the core halts with interrupts on, otherwise the loop goes on; no interrupt strikes between the check and the halt, and every interrupt ends the halt |
| Wakeups.NeverPolledAfterReady | kernel/src/task/executor.rs:31-54 | a task that returned Ready is never polled again and has no cached waker, although its wakers may live on and queue its id |
| Wakeups.CachedWakersAreLive | kernel/src/task/executor.rs:37-47 | cached wakers always belong to live tasks |
| Wakeups.SpawnIdIsFree | kernel/src/task/mod.rs:13-17 | a created task's id is neither live nor queued, so `spawn` does not find it in use before the counter overflows |
| Wakeups.ScancodesConserved | kernel/src/task/keyboard.rs:38-49 | in every interleaving, scancodes read followed by those stored are those accepted, in order of arrival |
| Wakeups.WakeupsNeedRegistrations | kernel/src/task/keyboard.rs:42-45 | wakeups by the keyboard never outnumber registrations |
| Wakeups.QueueAccount | kernel/src/task/executor.rs:31-54 | in every run the ids in the ready queue and the ids taken off it are together the ids pushed by spawns, wakers and key presses |
| Wakeups.QueueIsFifo | kernel/src/task/executor.rs:31-82 | in every run the ids taken off the ready queue followed by those in it are the ids pushed, in order |
| Wakeups.KeyPanicsIff | kernel/src/task/executor.rs:78-80 | in every run a key press panics if and only if its scancode is accepted with a waker registered while the ids pushed exceed the ids taken off by 128 |
| Wakeups.KeyNeverPanics | kernel/src/task/executor.rs:78-80 | so it never does while, since the queue was last empty, other pushes and registrations together are at most 128 |
| Wakeups.OneTaskOverflows | kernel/src/task/executor.rs:78-80 | one task is enough to exceed that: 128 scancodes that strike between registration and second pop of one poll, and the next one panics in the interrupt handler |
| Keyboard.ScancodeStream.AddScancode | kernel/src/task/keyboard.rs:69-77 | the handler's updates are the machine's key event, with the branches for a missing and a full queue; panics exactly on a full ready queue |
| Keyboard.ScancodeStream.PollNext | kernel/src/task/keyboard.rs:27-50 | with any key presses striking in each of the three gaps, a poll is the sequence of its events in the machine and panics exactly under a condition on the bursts and the ready queue; it is pending only if nothing arrived, and then the waker is registered; otherwise it yields the oldest scancode and keeps the rest |
| Keyboard.PollIsEvents | kernel/src/task/keyboard.rs:27-50 | the closed form of a poll is the run of its events |
| Keyboard.PressedIsKeys | kernel/src/task/keyboard.rs:69-77 | a burst of key presses is the run of its key events: the queue takes what fits and one waker at most is used up |
| Keyboard.ScancodeStream.FirstPoll | kernel/src/task/keyboard.rs:17-50 | making the stream and polling it is `OpenStream` followed by the events of a poll |
| UserMemory.ConstructUserSlice | kernel/src/syscall/mod.rs:94-152 | the page loop grants a buffer exactly when every one of its bytes is accessible; which arguments are refused and which panic |
| UserMemory.SliceMeans | kernel/src/syscall/mod.rs:38-152 | flag by flag, which buffers are granted, and which arguments panic |
| UserMemory.BoundAvoidsHole | kernel/src/syscall/mod.rs:96-104 | within the length bound, a range with canonical ends has only canonical addresses |
| UserMemory.HoleReachableWithoutBound | kernel/src/syscall/mod.rs:96-98 | a range with canonical ends crosses the hole if and only if it starts below and ends above it |
| Dispatch.HandleCall | kernel/src/syscall/handler.rs:10-53 | the dispatcher answers as the byte-level specification does |
| Dispatch.WhatCallsAnswer | kernel/src/syscall/handler.rs:10-53 | for every call: exit and only exit ends the process, with the low byte of its argument; a read or write of an empty or overflowing buffer stops the kernel; every other call returns the length, minus one or zero, each exactly when it should |
| Dispatch.ReturnedWordMeans | kernel/src/syscall/handler.rs:24-52 | a returned word decodes to the unknown-call error, the refused-buffer error or the buffer length, each exactly when that is what happened |
| Dispatch.PanicsOnlyOnBadBuffers | kernel/src/syscall/handler.rs:39-45 | the kernel panics exactly on an empty or overflowing buffer, never on a result that is too large |
| Dispatch.DecodeEncode | kernel/src/syscall/handler.rs:39-52 | decoding undoes encoding on all results but an empty success |
| Dispatch.ErrorIsNegativeIff | kernel/src/syscall/handler.rs:46-51 | an error word is negative if and only if the error is not the unknown call |
| SyscallPath.ArgumentsArrive | kernel/src/syscall/handler.rs:63-91 | the kernel's function is entered with number and arguments in order, in kernel mode, on the kernel stack |
| SyscallPath.SystemCallIsDirectCall | syscall/src/lib.rs:106-123 | for any function that keeps the convention, whatever its result, its returning and its writes depend on, stub, trap, handler and return give the caller the function's result at entry, the resume address, stack pointer and preserved registers, and change no other memory; this is what a direct call shows if and only if the result is the same there |
| SyscallPath.SameResult | syscall/src/lib.rs:106-123 | the result is the same there for every function that reads none of the words the way in writes |
| SyscallPath.CallHappens | syscall/src/lib.rs:106-123 | every state about to call has such a trace |
| SyscallPath.FlagsRestored | kernel/src/syscall/handler.rs:80-101 | flags come back unchanged if and only if bit 1 is set and every other set bit is one the return instruction takes over; after a first call they always do |
| SyscallPath.InterruptsOffInKernel | kernel/src/syscall/mod.rs:19-22 | the kernel's function starts with interrupts off |
| SyscallPath.EnteredByAbi | kernel/src/syscall/handler.rs:63-91 | the kernel's function is entered with stack and direction flag as the ABI demands if and only if the kernel stack top is a multiple of 16 and the direction flag is in the mask register or clear in the caller |
| SyscallService.DirectionFlagArrives | kernel/src/syscall/mod.rs:19-22 | with the mask register as the kernel sets it, a caller whose direction flag reaches the kernel's function |
| SyscallPath.ThreadDataWindow | kernel/src/syscall/handler.rs:63-101 | the thread data is the active GS base exactly between the two exchanges of the handler |
| SyscallPath.EntersUserMode | kernel/src/main.rs:121-135 | entering user mode reaches the given address and stack with the thread data hidden and ready |
| SyscallPath.UserFlagsSurvive | kernel/src/main.rs:137-142 | none of the flags chosen for user mode is filtered out |
| SyscallPath.SessionFromEntry | kernel/src/main.rs:121-135 | from the jump to user mode on, every call of every session gives the function's result to the caller, on the stack top the thread data held at the jump |
| SyscallPath.KernelStackStable | kernel/src/syscall/handler.rs:63-101 | in every sequence of returning calls, with any user work in between, every call starts from the same kernel stack pointer and thread data |
| SyscallService.UserSeesDispatch | kernel/src/syscall/handler.rs:10-107 | end to end, rax is the buffer length if the call was a read or write of a buffer fully accessible under the page table at entry, minus one for any other buffer and zero for other numbers, and decodes accordingly |
| SyscallService.CompiledConforms | kernel/src/syscall/handler.rs:10-53 | a dispatcher that relies on the ABI's entry conditions and a free lock, reads the page table from memory, pushes and pops preserved registers and writes globals keeps the convention |
| SyscallService.SomeSystemCall | kernel/src/syscall/handler.rs:63-101 | the conditions on processor, function and call can be met together, and the same call gets the length or the refusal as the page table in memory says |
| TextLog.LinesSplit | kernel/src/vga_buffer.rs:78-81 | the lines of the log, joined by newlines, are the text |
| TextLog.WrapFillsRows | kernel/src/vga_buffer.rs:82-94 | the rows of a line hold its characters, and all but the last are full |
| TextLog.LayoutExtend | kernel/src/vga_buffer.rs:78-97 | writing byte by byte gives the rows of the whole text, with the wrap delayed until another character comes |
| TextLog.LayoutHoldsText | kernel/src/vga_buffer.rs:78-97 | the rows hold the characters of the text, all of them and in order, at most 80 to a row |
| TextLog.FullLineLeavesNoBlankRow | kernel/src/vga_buffer.rs:78-85 | eighty characters and a newline take one row |
| Vga.Writer.ClearRow | kernel/src/vga_buffer.rs:121-129 | one row becomes blank, the others stay |
| Vga.Writer.ShiftUp | kernel/src/vga_buffer.rs:111-116 | the nested loops copy every row one up |
| Vga.Writer.NewLine | kernel/src/vga_buffer.rs:110-119 | the screen shows the log with one more empty row |
| Vga.Writer.WriteByte | kernel/src/vga_buffer.rs:78-97 | the array stays the last 25 rows of the log of everything written, the column the length of its last row and at most 80; the byte stands left of the column in the writer's colour, and a newline leaves a blank bottom row |
| Vga.ScreenShows | kernel/src/vga_buffer.rs:78-129 | cell by cell, which character of which row of the text the screen shows |
| Vga.Writer.WriteString | kernel/src/vga_buffer.rs:99-108 | the same for strings, with bytes that are not printable replaced |
| Vga.Writer.PrintBytes | kernel/src/vga_buffer.rs:148-155 | the same for raw bytes, unchanged |

## Left out

- Weak memory ordering: atomic accesses are sequentially consistent.
- The virtual address constructor's sign extension of bit 47: an address is canonical or refused, and a segment that spans both halves of the address space counts as a panic.
- Page tables in memory: the mapper is a finite map, huge pages are their 4 KiB pages, and only the number of frames that tables take is modelled (any function of the mapped pages).
- The `object` parser: program headers and entry point are inputs.
- The alignment of machine words in `Cpu`: memory is word-addressed, and stack pointers and thread data are 8-aligned.
- Instruction lengths, page faults and interrupts inside the system call path.
- What the kernel's function does to the words it may write (the screen in `println!`), and a call that does not return (`exit`, a panic).
- Termination of the executor loops: the methods follow them for any number of turns, and `Executors.Terminates` says when the round-robin run ends.
- Mapping the user stack in `kernel_main`: the loop of `Loader.MapPages` again.
- Keyboard decoding, descriptor tables, interrupt controller, serial port, colours, process exit: no further algorithm.
