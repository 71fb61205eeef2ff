# JarvisOS: proofs about the kernel

JarvisOS is a small 32-bit kernel. This project models the parts of it that carry
state and depend on one another, as layers, and proves each over the one below:

1. **Physical frames** (`Words`, `MemoryMap`, `Pmm`). The walk of the loader's memory
   map, and the packed bitmap with its counter, which together stand for a set of
   free frames.
2. **Page tables** (`PageTables`, `IdentityMap`, `Leaves`, `Paging`). Directory and
   tables are raw words of physical memory, an `array<u32>`, in frames that the
   allocator handed out. They stand for a finite map from virtual page to entry
   (32-bit paging, section 4.3 of the Intel SDM, volume 3A).
3. **The heap** (`Blocks`, `HeapRuns`, `HeapWords`, `HeapSteps`, `Forgery`, `Acceptance`,
   `Heap`, `HeapUse`). Block headers are words of the same physical memory, reached by
   translating `0xC0000000` and up through the page tables. `Leaves` shows why this
   scattered memory behaves as one flat sequence; `Blocks` is the list as a value;
   `HeapWords` and `HeapSteps` connect the stores of `heap.c` to it. `Forgery` is about
   headers that are not there, `Acceptance` about what `kfree` takes for live over runs of
   calls and of stores between them, and `HeapUse` ties the methods of `Heap` to such runs.
4. **Ownership and the shell's memory commands** (`Ownership`, `Kernel`, `Boot`). Every
   frame has exactly one owner, from boot on and through every command; of `free` and
   `unmap`, which check too little, the contracts say for which arguments.
5. **Tasks** (`RoundRobin`, `Stacks`, `TaskRuns`, `TaskTable`, `Tasks`). `RoundRobin` is the
   scheduler as a state machine; `Tasks` is `task.c` and `switch.asm` with the pushes and
   pops of a context switch as stores to stacks that are heap blocks (task 0: the boot
   stack). `TaskRuns.TaskView` is what the tasks see of all that: the scheduler, the
   registers, and of each slot the saved stack pointer and the stack. `TaskRuns.Apply`
   says how an operation moves the view, every method of `Tasks` and `System` is proved
   to do just that, and the theorems over whole runs are about sequences of `Apply`, which
   the views of any run of the methods are (`ViewsAreARun`).
6. **The whole** (`System`, `Sessions`). One invariant over memory and tasks, kept by every tick,
   yield, spawn, kill, exit, `kmalloc`, `kfree`, `map`, `unmap`, `alloc`, `free`, by
   whatever the running task does to its registers and its own stack, and by clients
   writing their heap memory. Where an operation can destroy the invariant its contract
   says exactly when, and where it can end the heap's trust in its headers, too. `Sessions`
   are short programs of shell commands, from boot, that end badly.
7. **Console** (`Editing`, `Console`) and **screen** (`Screen`). The input ring with a
   consumer that can be interrupted between any two memory accesses, the line editor,
   and the scrolling text buffer.

`dafny verify dfyconfig.toml` checks everything.

## How to read it

Classes mirror the C files: their fields are the static variables, their methods
the functions, and each method is specified by a function of the old state or by a
predicate whose consequences are proved as lemmas. Ghost fields keep history only:
the block list, the parked contexts, the characters accepted, the typescript.

The invariants to start from are `Ownership.Partition`, `Paging.AddressSpace.Valid`,
`Heap.KernelHeap.Valid`, `TaskTable.Isolated`, `RoundRobin.Ok`, `Console.Terminal.Valid`,
`Screen.Display.Valid` and, over all of memory and tasks, `System.RunningKernel.Valid`.

## Where the code does less than its documentation says

- `kfree` takes for live what looks live. It is right over whole runs as long as the magic
  word stands only where a header is or was, with a zero flag behind it at live blocks only
  (`RunsStayExact`). Boot begins so when the free frames do not hold the magic word
  (`KernelMain`), and every `kmalloc` and `kfree` keeps it so. A store keeps it so if and only
  if it *spares* the headers: the magic word goes to an even word only, with a word that is
  not zero three words behind it, and no zero goes three words behind a magic word
  (`PayloadStore`). Any other store makes `kfree` wrong at once or lets calls alone make it so
  (`SparingIsSafe`).
- That `kfree` is right at the moment is less: calls can end it after stores that all left it
  right (`ExactIsNotKept`). Nor need the client know the magic word: coalescing leaves stale
  headers in memory that is handed out again (`StaleHeader`).
- The kernel itself does not always spare the headers. The zeros that `task_create` lays on a
  new stack can hit the flag of a stale header (`StaleStack`: five shell commands after boot,
  and a pointer already freed is accepted again, which the magic word is there to prevent), and
  a switch pushes whatever the registers
  hold. The contracts of every operation on tasks say exactly when one spares
  (`SpawnSpares`, `SwitchSpares`, `LeavesSparing`).
- What comes of a forged `kfree` is a flag set to 1. The list survives it (`ForgedFlag`) unless
  that flag is the link of the last block, and then no list is left (`ForgedCut`); a single
  word written at the end of a payload can do it (`OneWordForgery`).
- The ceiling test of `grow_mapping` adds in 32 bits. `CeilingTest` says when it is right,
  `LargestRequest` for which requests it always is, `RequestRanges` what happens above. On a
  sum that wraps the test is passed and growth maps pages until none can be had
  (`WrappedRequest`); `kmalloc 1073741824` in the shell does that (`GigabyteWraps`).
- A memory map entry that starts inside a frame, or above 4 GB, frees frames that are not
  usable memory: `FairEntries` is the exact condition, `PartialFrameIsFree` a map for which
  it happens.
- `free` gives back any frame it is told to; `FreeIsSafe` and `CmdFree` say for which ones the
  ownership of frames survives. `unmap` takes pages of the heap, too; `CmdUnmap` says when.
- A failed growth leaves pages mapped above the break, and growth over mapped pages loses
  the frames behind them: exactly those (`GrowthLoses`), so none if and only if no page that
  gets mapped was (`LosesNothing`, `NoteGrowth`). `LoseFrame` is a session with the shell
  that loses a frame.
- The `kill` command promises a dead task's stack back on the next tick. That is so unless
  the task is still current; otherwise it takes up to six ticks (`DeadAreReaped`). The
  repository's README has it right.
- 16 MB of memory are enough but not required: the identity window shrinks with memory
  (`IdentityEnd`), and `KernelMain` says exactly when boot succeeds.
- A character with the top bit set shows in the wrong colour (`ColourKept`).
- A backspace does not undo a character typed into a full line (`BackspaceUndoes`) or one
  that filled a screen row (`EraseUndoes`).

## Assumptions

- Heap and task-table operations are atomic with respect to timer ticks. The code takes no
  lock, and the reaper calls `kfree` from the timer path.
- Heap requests are at most `0xFFFFEFF0` bytes, and if one makes the sum in the ceiling test
  wrap there are fewer free frames than pages from the break to the top of the address
  space, which is about 1 GB of them (`StopsInTime`).
- Pointers given to `kfree` are multiples of 4.
- Tasks write their own stacks and memory that `kmalloc` handed out, nothing else (what they
  write there is free, see above for what becomes of `kfree`), and no
  task overruns its stack: at a switch there is room for the ten words of a context.
- The kernel's own task does not exit: its main loop never returns.
- The kernel image, boot stack included, ends at `kernel_end`; the memory map's entries and
  bounds are word-aligned.

## Model

| member | source | states |
|---|---|---|
| Words.SetThenClear | pmm.c:20-34 | setting a clear bit of a word and clearing it again restores the word |
| Words.FullWord | pmm.c:80-85 | a word is all ones exactly when each of its bits is set |
| MemoryMap.RegionsRecorded | memory.c:29-36 | the regions kept are the first 32 entries, in order, cut to 32 bits |
| MemoryMap.HighestIsMaximum | memory.c:40-44 | the highest address is the maximum end of all usable entries, not only of those recorded |
| MemoryMap.TotalsAreSums | memory.c:36-39 | the total is, modulo 2^32, the sum of the lengths in KB of all entries, those past the 32nd included, and the usable total that of the usable ones |
| MemoryMap.ReadEntry | memory.c:29-46 | the loads through the entry pointer give the entry that the encoding of section 3.3 of the Multiboot Specification 0.6.96 puts there, and its size field leads to the next |
| MemoryMap.MemoryInfo.Init | memory.c:17-48 | for every encoded map the walk accumulates exactly that map's regions and maximum, and in `total_kb` and `usable_kb` the two sums of `TotalsAreSums`; without a map, nothing |
| Pmm.UseMeaning | pmm.c:20-26 | marking a frame used changes that frame's bit and no other |
| Pmm.UseRelease | pmm.c:20-34 | a free frame taken and given back leaves every bitmap word as it was |
| Pmm.TakeAndReturn | pmm.c:78-97 | taking the least free frame and giving it back restores bitmap and free set |
| Pmm.FrameAllocator.constructor | pmm.c:38-74 | after `pmm_init` a frame is free exactly if it exists, begins behind the last byte of kernel and bitmap, and is freed by a usable recorded region; the bitmap has the least number of words with a bit for every frame |
| Pmm.FrameAllocator.MarkUsed | pmm.c:20-26 | exactly this frame leaves the free set; the counter stays the number of used frames |
| Pmm.FrameAllocator.MarkFree | pmm.c:28-34 | exactly this frame joins the free set, unless it is out of range |
| Pmm.FrameAllocator.FirstClear | pmm.c:80-92 | the scan by words and bits finds the least free frame, or there is none |
| Pmm.FrameAllocator.AllocFrame | pmm.c:78-93 | returns the least free frame and takes just that one; 0 when there is none |
| Pmm.FrameAllocator.FreeFrame | pmm.c:95-97 | the frame is free afterwards; bitmap unchanged when it was free or out of range |
| PageTables.WritePte | paging.c:73-76 | a word written into a table changes the entry of one page and no directory entry |
| PageTables.AddTable | paging.c:53-66 | hanging a cleared fresh frame into the directory changes no page's entry |
| PageTables.TableCreated | paging.c:53-66 | the words after table creation stand for the map with one table more, the same pages, and the frame no longer free |
| PageTables.PageMapped | paging.c:69-79 | the words after `paging_map` stand for the finite map with that page's entry set, and the counters agree |
| PageTables.PageUnmapped | paging.c:81-92 | the words after `paging_unmap` stand for the finite map without the page |
| PageTables.Unrelated | paging.c:45-103 | words outside directory and tables do not matter to translation |
| IdentityMap.Failed | paging.c:53-67 | the identity map fails only for want of free frames below its end |
| IdentityMap.Complete | paging.c:118-125 | when it is complete there was a frame for each table and one for the directory, which then lies below the end, too |
| Leaves.GrownLeaves | heap.c:37-45 | a page given a fresh frame keeps every page's frame its own, and apart from the tables |
| Leaves.WindowGrowth | heap.c:32-48 | once the heap window has its one table, growth inside it succeeds exactly when there are as many free frames as pages |
| Leaves.GrownWritable | heap.c:38-41 | every page that growth maps is present and writable and leads to a frame that was free |
| Leaves.TableNeeds | paging.c:45-67 | a table is available exactly if it is there or a free frame lies below the identity end |
| Leaves.MapNeeds | heap.c:38-44 | a fresh frame can be mapped exactly if there is a free frame, or, where the table is missing, two below the identity end |
| Leaves.Injective | paging.c:95-103 | different heap words are different physical words, outside all tables and free frames |
| Leaves.FlatStore | paging.c:95-103 | a store through the page tables changes exactly one word of the flat heap |
| Leaves.GrownFlat | heap.c:37-46 | growth by a page appends that page to the flat heap and changes no earlier word |
| Paging.MappedTranslation | paging.c:69-103 | after a mapping every address of the page leads to the given frame, every other where it did |
| Paging.UnmappedTranslation | paging.c:81-103 | after an unmapping that page is unmapped and no other is affected |
| Paging.MmuWalk | paging.c:94-103 | translation by the finite map is the walk of the MMU over the raw words: directory entry, table entry, present bits, frame and offset |
| Paging.AddressSpace.CreateTable | paging.c:53-66 | succeeds exactly when the least free frame is below the identity end; on failure words, bitmap and counters are restored |
| Paging.AddressSpace.GetTable | paging.c:45-67 | the table of the address, made when missing |
| Paging.AddressSpace.Map | paging.c:69-79 | succeeds exactly when a table is available and then changes just this page; otherwise nothing has changed |
| Paging.AddressSpace.MapFresh | heap.c:38-44 | the least free frame goes to the page, and back when no table is available, with all words restored |
| Paging.AddressSpace.Unmap | paging.c:81-92 | takes exactly this page away, and reports whether it was there |
| Paging.AddressSpace.Translate | paging.c:95-103 | the walk over raw words agrees with the finite map |
| Paging.AddressSpace.MapIdentity | paging.c:118-125 | the loop builds the identity map, or there were too few frames below its end |
| Paging.AddressSpace.Init | paging.c:105-138 | the identity window ends at 16 MB, or at the last whole page of a smaller memory; succeeds exactly when directory and tables find frames below that end; afterwards the identity map is complete, the counters agree, and no frame is unaccounted for |
| Blocks.MergeCoalesces | heap.c:51-63 | after coalescing no two neighbours are free |
| Blocks.MergeKeeps | heap.c:51-63 | coalescing keeps the tiled extent and the set of live blocks |
| Blocks.AllocIsLowestFit | heap.c:107-108 | first fit takes the fitting block with the lowest address, and finds one if there is any |
| Blocks.BlocksApart | heap.c:111-123 | two blocks of a list are the same or do not overlap |
| Blocks.AllocKeeps | heap.c:106-125 | an allocation adds one live block, not live before, and keeps the extent |
| Blocks.AllocSize | heap.c:108-123 | the block handed out has at least the words asked for |
| Blocks.AllocSplits | heap.c:110-123 | the block found is split exactly when a header and 16 bytes would remain: it is then as large as asked for and the rest follows as a free block; otherwise it is handed out whole |
| Blocks.FreeKeeps | heap.c:159-161 | freeing takes exactly that block from the live ones and keeps shape and extent |
| Blocks.RoundTrip | heap.c:102-161 | freeing what was just allocated restores the exact block list |
| Blocks.FullRecovery | heap.c:51-63 | freeing all live blocks in any order leaves one free block that spans the heap |
| Blocks.ExtendKeeps | heap.c:81-100 | growth keeps the live blocks and makes the second search succeed |
| Blocks.BytesAddUp | heap.c:167-176 | used bytes and free payload bytes add up to the heap's size |
| Blocks.UsedIsHeadersAndPayloads | heap.c:167-174 | the used bytes are 16 for each block and 4 for each payload word of a live one |
| HeapRuns.RunKeeps | heap.c:102-162 | after any run of calls the list is well shaped and coalesced, and its live blocks are those in the clients' books |
| HeapRuns.RunRecovers | heap.c:102-162 | after any run, giving back what the books show leaves one free block |
| HeapWords.SplitWritten | heap.c:111-120 | the six stores of a split turn the words of a list into those of the list with the block split |
| HeapWords.SwallowWritten | heap.c:57-58 | the two stores of coalescing turn them into those of the list with the neighbours joined |
| HeapWords.AppendWritten | heap.c:88-96 | a fresh header linked in at the tail extends the list |
| HeapWords.SwallowGenuine | heap.c:57-58 | a swallowed header keeps its magic but never looks live again |
| HeapWords.StoreGenuine | heap.c:146-157 | a store outside the headers of live blocks keeps headers genuine if and only if it spares them |
| HeapWords.AcceptsExactlyLive | heap.c:146-157 | when the magic word occurs only where a header is or was, with a zero flag only at live blocks, the header test holds of live blocks only |
| HeapSteps.CoalesceSwallow | heap.c:53-60 | one swallowing step of the walk keeps list, payloads and live set, and what the walk will end in |
| HeapSteps.ForgedHeader | heap.c:146-157 | two words written into a payload make the header test hold of a block that is not there |
| Forgery.StoreExact | heap.c:146-157 | a store keeps `kfree` right at this moment if and only if it puts no magic word three words before a zero and no zero three words behind a magic word; that this is not for good is `ExactIsNotKept` |
| Forgery.PayloadStore | heap.c:146-157 | a client's store keeps headers genuine, from which `kfree` is right, if and only if it spares them: the magic word at an even word only, before a word three on that is not zero, and no zero three words behind a magic word |
| Forgery.ForgedFlag | heap.c:159 | the flag that `kfree` sets for a forged header leaves the list whole, unless it is the last block's link |
| Forgery.ForgedCut | heap.c:159 | if it is, the words hold no list any more |
| Forgery.OneWordForgery | heap.c:146-159 | one magic word in the last payload word before the last block makes `kfree` cut the list |
| Forgery.GenuineIsExact | heap.c:146-157 | while headers are genuine `kfree` takes for live exactly what is |
| Acceptance.StepKeepsGenuine | heap.c:102-162 | every call keeps list and genuine headers, and a store does if and only if it spares the headers |
| Acceptance.RunsStayExact | heap.c:132-162 | at every point of every run of `kmalloc`, growth, `kfree` and sparing stores `kfree` takes for live exactly what is |
| Acceptance.SparingIsSafe | heap.c:132-162 | a store keeps `kfree` right for good, whatever calls and sparing stores follow, if it spares the headers, and otherwise calls alone make it wrong, given room for a header behind a magic word |
| Acceptance.OddMagicForges | heap.c:111-120 | a magic word at an odd place looks live once `kmalloc` splits a block behind it, and its `kfree` cuts the list |
| Acceptance.ExactIsNotKept | heap.c:111-157 | in any heap that is one free block: two stores after each of which `kfree` is right, then a `kfree` and a `kmalloc`, and it takes for live what is not, and the flag it sets leaves no list |
| Acceptance.StaleHeader | heap.c:57-58 | in any heap that is one free block: after five calls the client clears one word of its payload and a swallowed header looks live, although no client wrote the magic word |
| Heap.AlignKeeps | heap.c:29 | rounding gives the next multiple of 8, exactly up to 0xFFFFFFF8; above that, 0 |
| Heap.CeilingTest | heap.c:35 | the ceiling test is right exactly when its sum does not wrap |
| Heap.LargestRequest | heap.c:35 | of all 32-bit sizes, those for which that is so at every break: up to 0x3FBFEFF0, and above 0xFFFFEFF0, where rounding wraps first |
| Heap.RequestRanges | heap.c:29-37 | the sizes above 0x3FBFEFF0 range by range: a wrapped sum passes the test, then growth maps nothing and reports success, then no block can be large enough, then size 0 |
| Heap.LeastGrowth | heap.c:82-86 | the heap grows by the least multiple of 4096 bytes that is at least 16 KB and has room for payload and header |
| Heap.KernelHeap.GrowMapping | heap.c:32-48 | maps the pages in turn until one fails, also when the ceiling test has wrapped; the break moves only if none did; the old words are unchanged |
| Heap.KernelHeap.CanExtendExactly | heap.c:32-48 | between operations growth by that many bytes succeeds exactly when it ends in the window and there are frames for them |
| Heap.KernelHeap.Coalesce | heap.c:51-63 | merges every run of free neighbours and touches no payload |
| Heap.KernelHeap.ExtendHeap | heap.c:81-100 | succeeds exactly when window and frames suffice; the break moves by the least multiple of 4096 that is at least 16 KB and the payload and a header; appends that as one free block, coalesced |
| Heap.KernelHeap.Search | heap.c:107-108 | the first free block that is large enough, or there is none |
| Heap.KernelHeap.Take | heap.c:111-123 | the stores that hand the block out, split when 16 bytes would remain |
| Heap.KernelHeap.FitsInBytes | heap.c:107-108 | the search finds a block exactly if there is a free one with at least the bytes asked for |
| Heap.KernelHeap.Kmalloc | heap.c:102-130 | returns the first fit of the list searched, 8-aligned and disjoint from all live payloads, which keep their words; fails only when growth fails, and the final return is unreachable; the words written are named, and a trusted heap stays so; up to 0x3FBFEFF0 bytes, when nothing fits, it fails exactly if the bytes of `LeastBytes` exceed the window or the free frames, and otherwise the break moves by them |
| Heap.LeastBytes | heap.c:82-86 | these bytes are the least multiple of 4096 that is at least 16 KB and the size asked for and a header |
| Heap.KernelHeap.NothingForged | heap.c:132-157 | in a trusted heap, and `Init`, `Kmalloc`, `Kfree` and every sparing `Poke` leave it so, `kfree` accepts a pointer exactly when it is live |
| Heap.KernelHeap.Accepts | heap.c:132-157 | the tests look at mapped memory only and pass exactly when the header looks live |
| Heap.KernelHeap.Kfree | heap.c:132-162 | for every word-aligned pointer: a live one is freed, coalesced, and every other live payload word kept; a forged one has its flag set, and the list is lost exactly when that is the last link; any other is rejected and nothing changes; in a trusted heap exactly the live pointers are accepted, and it stays so |
| Heap.KernelHeap.Init | heap.c:65-78 | 64 KB in one free block, exactly when 16 pages could be mapped; trusted when the free frames do not hold the magic word |
| Heap.KernelHeap.Poke | heap.c:124 | a client's store changes that word of the heap and no block, and leaves a trusted heap so if and only if it spares the headers |
| Heap.KernelHeap.HeapUsed | heap.c:167-174 | headers and live payloads in bytes |
| Heap.KernelHeap.HeapFree | heap.c:176 | the sum of the free payloads; the subtraction never underflows |
| HeapUse.RunsBegin | heap.c:65-78 | a trusted heap is where the runs of `Acceptance` begin |
| HeapUse.TakeStep | heap.c:102-130 | a `kmalloc` of the kernel's heap that succeeds, with growth or without, is one step of such a run, and one that fails changes nothing |
| HeapUse.GiveStep | heap.c:132-162 | a `kfree` is one step exactly when the pointer is live, and otherwise changes nothing |
| HeapUse.WriteStep | heap.c:124 | a client's store is one step, and the heap stays trusted exactly if it is fair |
| Ownership.OneOwner | pmm.c:20-34 | each frame is in exactly one of the classes free, table, directory, leaf, reserved, raw, lost |
| Ownership.UsedFramesAddUp | pmm.c:99-101 | used frames are the sum of the other six classes |
| Ownership.GrowthLoses | heap.c:37-46 | growth loses exactly the frames behind the pages that it maps and that were mapped already |
| Ownership.LosesNothing | heap.c:37-46 | so it loses nothing if and only if none of the pages it maps was mapped |
| Ownership.FrameIsLost | heap.c:37-46 | with too few frames growth fails midway; a frame is given back, growth is tried again, and the first page's old frame has no owner |
| Ownership.FreeIsSafe | shell.c:164-176 | freeing a frame leaves every frame one owner, under any books of raw and lost frames, exactly when it was raw, lost or free |
| Kernel.MemoryStack.SelfHosted | paging.c:53-60 | below the identity end translation is the identity, and directory and tables lie there |
| Kernel.MemoryStack.CountersAgree | shell.c:127-148 | the counters shown by the shell satisfy one equation over the classes of frames |
| Kernel.Unambiguous | paging.h:13-14 | no mapped address translates to the value that means unmapped |
| Kernel.MemoryStack.CmdAlloc | shell.c:150-162 | the least free frame becomes raw |
| Kernel.MemoryStack.CmdFree | shell.c:164-176 | for any argument: which frame is free afterwards, and exactly when the books stay right; and when a magic word in the frame ends the heap's trust |
| Kernel.MemoryStack.CmdMap | shell.c:263-292 | for any address, each outcome if and only if its cause; a failure restores bitmap, counters and tables; on success the word written is read back |
| Kernel.MemoryStack.CmdUnmap | shell.c:294-309 | refuses the identity window, otherwise page gone and frame free; the heap survives if and only if the page was none of its own; its trust ends if and only if the frame holds the magic word |
| Kernel.MemoryStack.NoteGrowth | heap.c:32-48 | what a `kmalloc` loses, exactly; nothing if and only if none of the pages mapped was mapped before |
| Kernel.WrappedRequest | heap.c:35-45 | when the sum in the ceiling test wraps, growth passes it, fails, and stops only where no page can be had |
| Kernel.GigabyteWraps | heap.c:35 | a request of 1 GB does that at every break from the initial one on |
| Boot.BootFreeExactly | pmm.c:57-73 | the frames free after boot, for every map: covered by one of the first 32 entries, a usable one, in whole frames; below the end of memory; and beginning behind the last byte of kernel and bitmap |
| Boot.FairEntries | memory.c:29-36 | an entry frees only frames inside itself exactly when it survives the 32-bit casts and starts on a frame boundary, or is too short |
| Boot.FreeFramesAreMemory | pmm.c:57-66 | with such entries every free frame lies wholly in usable memory |
| Boot.PartialFrameIsFree | pmm.c:57-66 | a concrete map on which the kernel boots and a frame that is only partly memory is free |
| Boot.FirstGrowth | heap.c:65-70 | the first heap growth succeeds exactly with 17 free frames, two of them below the identity end |
| Boot.StartMemory | kernel.c:23-48 | boot succeeds exactly when enough frames are free in all and below the identity end; then every frame has its owner |
| Boot.UsualMachineBoots | kernel.c:30-48 | that condition is met by every machine with usable memory from 1 MB to 16 MB or beyond, when the kernel ends below 8 MB, and then its identity window is 16 MB |
| RoundRobin.PickIsNearest | task.c:84-91 | the scan finds the nearest runnable slot in circular order, or there is none |
| RoundRobin.StepKeeps | task.c:42-142 | at most one task is running and it is the current one; task 0 stays runnable |
| RoundRobin.YieldSwitches | task.c:84-123 | a yield runs the runnable slot that comes first in the circle behind the current one, which becomes ready unless it is dead; the quantum is new; no other slot changes |
| RoundRobin.TickSwitches | task.c:74-118 | a tick gives up the dead slots other than the current one, and takes one from the quantum, or when it is used up switches as a yield does |
| RoundRobin.CreateTakesFirst | task.c:42-67 | a new task is ready in the first unused slot, if there is one and memory for a stack; no other slot changes |
| RoundRobin.RankFalls | task.c:111-118 | the rank of a ready task falls with every tick and every switch, and no event raises it |
| RoundRobin.BoundedWait | task.c:84-123 | in every run a ready task that is not killed runs within its rank of at most 35 ticks |
| RoundRobin.WaitIsTight | task.h:6-8 | 35 ticks are reached |
| RoundRobin.DeadAreReaped | task.c:74-82 | in every run a dead task's slot is given up within six ticks, on the next one when it is not current, and until then the task is dead and does not come back to the processor |
| RoundRobin.KilledAreGone | task.c:134-140 | in every run that begins with the kill of a task and has six ticks, its slot is given up, and from the kill on it is dead and does not come back to the processor |
| TaskRuns.ResumesExactly | task.c:95-109 | over any run of ticks, yields, spawns, kills and exits of others, memory operations and work of whoever runs: a ready task next becomes current with the registers parked on its stack, and its stack and stack pointer have not changed |
| TaskRuns.TicksAndYields | task.c:95-123 | a tick or yield that does not switch moves no register and no stack; one that does parks the slot left, gives the processor what the slot entered was parked with, and leaves all others but the dead ones given up |
| TaskRuns.PreemptedGoesOn | switch.asm:10-24 | a task that leaves the processor with some registers has exactly these when it next runs, stack pointer included, at the return address of the call that took the processor away; of its stack only the ten words below the stack pointer have changed |
| TaskRuns.ResumesInTime | task.c:84-123 | and that comes to pass before as many ticks as its rank, at most 35, unless the scheduler is switched off |
| TaskRuns.NewTaskStarts | task.c:52-61 | a new task enters its entry point with interrupts on and registers 0, and at its stack pointer is the address of `task_exit` |
| TaskRuns.ViewsAreARun | task.c:95-123 | the views between operations, each of which moves them as it is specified to, are those of one run, to which the theorems above apply |
| Stacks.StacksApart | task.c:49-50 | stacks in different live blocks share no word |
| Stacks.PushedFrame | switch.asm:10-19 | the pushes of a switch leave the ten words of the context and change nothing else |
| Stacks.FrameSlots | switch.asm:22-24 | the pops find the flags, registers and return address of that context |
| Stacks.StackRewritten | switch.asm:11-12 | words written to a stack in the heap keep headers genuine if and only if they are sparing, the words below them and the one behind the stack considered |
| Stacks.StackCrafted | task.c:52-61 | what `task_create` writes there does so if and only if the word below it is not the magic word, nor the address of `task_exit`, nor the entry unless the word behind the stack is not zero |
| TaskTable.Allocated | task.c:49-50 | a heap allocation moves no stack and takes no word of one |
| TaskTable.OtherFreed | task.c:77 | freeing any other block moves no stack |
| TaskTable.TaskLeft | switch.asm:16-19 | leaving a task parks it and touches no other task |
| Tasks.Scheduler.Store | switch.asm:11-12 | a store to the stack the processor is on, through the page tables, is seen there and on no other stack |
| Tasks.Scheduler.SaveContext | switch.asm:11-12 | the call, `pusha` and `pushfd` store flags, eight registers and return address; the heap stays trusted if and only if these words on the stack spare its headers |
| Tasks.Scheduler.RestoreContext | switch.asm:22-24 | `popfd`, `popa` and `ret` load exactly the saved context and skip the stored stack pointer |
| Tasks.Scheduler.ContextSwitch | switch.asm:10-24 | the task left is parked with its registers; the one entered has its own context and its stack as it left it; the heap's trust as for `SaveContext` |
| Tasks.Scheduler.SchedulerInit | task.c:24-40 | task 0 runs on the boot stack, with id 0 and one slice, and all other slots are unused |
| Tasks.Scheduler.TaskCreate | task.c:42-70 | the first unused slot gets a stack of its own that will enter `entry` with interrupts on, registers 0, and `task_exit` to return to; no other slot, stack or register changes; it fails exactly when no slot or no memory is left; the heap stays trusted if and only if `SpawnSpares` holds of the new stack; the table gets the entry `id`, ready, with no slices, and keeps all others |
| Tasks.Scheduler.ReapOne | task.c:76-80 | a dead task's stack was a live block and is freed, once, while nobody runs on it |
| Tasks.Scheduler.Reap | task.c:74-82 | all dead tasks but the current one |
| Tasks.Scheduler.PickNext | task.c:84-91 | the circular scan |
| Tasks.Scheduler.SwitchTo | task.c:95-109 | the slot left holds the registers, the stack pointer 40 bytes lower, and its stack; the processor has what the slot entered held; all other slots are as they were; of the table only states, stack pointers and the slices of the task entered change |
| Tasks.Scheduler.SchedulerTick | task.c:111-118 | reap, then count down or switch: registers and all slots after it are those of `Apply` |
| Tasks.Scheduler.TaskYield | task.c:120-123 | a switch to the next runnable task, likewise |
| Tasks.Scheduler.TaskExit | task.c:125-132 | the current slot is dead, and nothing else in the table changes, nor any register or stack |
| Tasks.Scheduler.TaskKill | task.c:134-140 | refuses the kernel and unused slots and then changes nothing; otherwise that slot is dead and nothing else in the table changes |
| Tasks.Scheduler.SetEnabled | task.c:154 | the scheduler's switch and nothing else |
| System.BootStackSafe | boot.asm:20-24 | the boot stack lies in reserved frames below the identity end, out of reach of paging and heap |
| System.RunningKernel.Tick | timer.c:22-25 | a timer tick keeps the whole invariant of memory and tasks, and moves scheduler, registers and slots as `TaskRuns.Apply` says; a trusted heap stays so if and only if no switch happens or what is pushed spares its headers |
| System.RunningKernel.Yield | task.c:120-123 | so does a yield, with the same condition |
| System.RunningKernel.Exit | task.c:125-132 | so does the end of a task; its slot is dead and no other changes |
| System.RunningKernel.Kill | task.c:134-140 | and killing one: accepted exactly for a used slot other than the kernel's, which is then dead, and no other changes |
| System.RunningKernel.Spawn | shell.c:375-391 | so does a new task, whose stack may make the heap grow; no other task notices, and the frames lost are exactly those overgrown; the exact condition for a trusted heap to stay so, and exactly when no task is created |
| System.RunningKernel.Kmalloc | shell.c:198-215 | so does an allocation by anybody, which no task notices; the frames lost are exactly those overgrown; a trusted heap stays so |
| System.RunningKernel.Kfree | shell.c:217-228 | a `kfree` of any word-aligned pointer keeps the invariant if and only if the pointer is no task's stack and no forgery that cuts the list or marks another task's stack; in a trusted heap it accepts exactly the live pointers, and the heap stays so |
| System.RunningKernel.WriteHeap | shell.c:206 | any store of a client to its memory keeps it, and no task notices; a trusted heap stays so if and only if the store spares its headers |
| System.RunningKernel.Map | shell.c:263-292 | so does a page mapped by the shell anywhere |
| System.RunningKernel.Unmap | shell.c:294-309 | and one unmapped, if and only if it is no page of the heap; a trusted heap then stays so if and only if the frame does not hold the magic word |
| System.RunningKernel.FreeFrame | shell.c:164-176 | and a frame freed, if and only if it was raw, lost, free, or does not exist; a trusted heap stays so if and only if that frame does not hold the magic word |
| System.RunningKernel.Work | task.c:8-10 | and any store of the running task to its own stack; a trusted heap stays so if and only if the store spares its headers or the stack is the boot stack |
| System.RunningKernel.Compute | task.c:8-10 | and any change of its registers |
| System.RunningKernel.SetEnabled | task.c:154 | and switching the scheduler on or off |
| System.RunningKernel.RunsFromHere | task.c:95-118 | every state of the kernel meets the premises of the theorems on runs |
| System.KernelMain | kernel.c:23-60 | from the loader's map to the first task: succeeds exactly when frames suffice, and then the invariant holds, every address below the identity end, 16 MB or the last whole page of a smaller memory, translates to itself, the stack pointer is at the top of the boot stack, and the heap is trusted if the free frames do not hold the magic word |
| Sessions.LoseFrame | shell.c:150-215 | from any kernel just booted with two free frames or more: `alloc` until one is left, `kmalloc` of 1 MB, `free` of the last, `kmalloc` of 1 MB again, and a frame that was free has no owner |
| Sessions.StaleStack | shell.c:198-228 | from any kernel just booted: `kmalloc 8144`, `kmalloc 8`, `kfree` of both, `spawn`, and `kfree` accepts 0xC0001FF0, which was freed, and would then write into the new task's saved registers |
| Editing.LinesAreEditedPieces | shell.c:511-534 | the lines executed are the pieces between newlines, each edited by itself |
| Editing.PiecesAreTheInput | shell.c:520-525 | those pieces with their newlines are the whole input |
| Editing.PlainText | shell.c:528-533 | up to 127 characters between 0x20 and 0x7E are kept as typed |
| Editing.KeyByKey | shell.c:511-534 | at any point of a line: such a character is added unless 127 are there, a backspace takes the last one if there is one, and every other character but a newline does nothing |
| Editing.BackspaceUndoes | shell.c:512-518 | a backspace undoes a character exactly when the line had room for it |
| Console.Pushed | shell.c:496-501 | the ring is full at 255 characters; a push appends to the queue and overwrites none that waits |
| Console.Popped | shell.c:505-506 | advancing the tail takes the oldest character |
| Console.Terminal.PushChar | shell.c:496-501 | at any moment between the consumer's accesses: dropped exactly when 255 wait, otherwise appended |
| Console.Terminal.ConsumerStep | shell.c:503-509 | what the consumer has taken and what waits is what was accepted, in order, after every single access |
| Console.Terminal.InputChar | shell.c:511-534 | the line buffer and the lines executed follow the editor; every write is in bounds |
| Console.Terminal.ExecutedLines | shell.c:503-534 | the executed lines are, one by one, the reference edits of what was accepted between two newlines, at most 127 long |
| Screen.ColourKept | vga.c:14-16 | a cell shows its character, in the colour asked for exactly when the character has 7 bits or that colour byte is all ones |
| Screen.TextIsKept | vga.c:33-48 | wrapping neither loses nor repeats a character |
| Screen.TypescriptIsLayout | vga.c:33-48 | what is typed on an empty screen are its lines, each broken into rows of 80 characters |
| Screen.EraseUndoes | vga.c:71-76 | a backspace undoes a character exactly when it did not fill the row |
| Screen.EraseTakesOne | vga.c:71-76 | a backspace takes the last character of the row being typed and nothing else, and on an empty row does nothing |
| Screen.Display.WindowShown | vga.c:25-48 | at any time the 25 rows are the last of the typescript, each cell shows its character or a blank, and the cursor is behind the last character |
| Screen.Display.ClearScreen | vga.c:18-23 | an empty typescript |
| Screen.Display.Scroll | vga.c:25-31 | the shift in place shows the typescript one row on |
| Screen.Display.PutChar | vga.c:33-48 | for any byte the 2000 cells are the last 25 rows of the unbounded typescript, the cursor where typing goes on |
| Screen.Display.Backspace | vga.c:71-76 | the same after a backspace |

## Left out

- Port I/O, device setup, the serial mirror of the screen, interrupt tables and stubs: hardware effects without state of their own here.
- TLB flushing and the writes to CR0 and CR3: translation reads the current tables directly.
- The check of the loader's magic number: without it the kernel halts.
- Command parsing, help text, printing of numbers, `calc`, uptime, task names and the demo counter: easy.
- Races between the reaper in the timer path and a preempted `kmalloc`: see the first assumption.
- What the kernel does after `paging_init` or `heap_init` has failed: it goes on without paging or heap; `KernelMain` stops there.
- The bitmap is an array of its own here and not words of physical memory; the frames it occupies are reserved by the model as by the code (`BootFreeExactly`).
- Frames are cleared, and words read and written, by the 32-bit word: byte-wise access and unaligned pointers are not modelled.
- The arguments that a C call pushes and the stack frames of the callers of a switch are part of what a task does to its own stack; the model begins a switch with the push of the return address.
- Termination of the console's polling loop against an endless producer, and stack overrun: not guaranteed by the code.
- The linker script, the build, the host tools and the agent are not part of this model.
- Paging.AddressSpace.Init: does not model the switch of the processor to paged mode; `enabled` only records it.
- Pmm.FrameAllocator.constructor: requires the kernel to end below 0xF0000000, so that the end of the bitmap does not wrap.
- Tasks.Scheduler.TaskExit: models `task_exit` up to its endless wait for the next tick.
- MemoryMap.MemoryInfo.Init: requires the map to begin and end at word boundaries, because memory is read by the word.
- Heap.KernelHeap.Accepts: requires a pointer that is a multiple of 4, because byte-wise access is not modelled; the code looks for a header behind any pointer.
- Heap.KernelHeap.Kfree: the same.
- System.RunningKernel.Kfree: the same.
- Acceptance.SparingIsSafe: for a magic word in the last eight words of the heap only one direction, because no header finds room behind it before the heap grows, and whether it can grow is up to frames and window.
- Heap.KernelHeap.Kmalloc: does not model requests above 0xFFFFEFF0 bytes, because for most of them the code writes a header to an unmapped address; `RequestRanges` says what each range leads to. Nor one whose ceiling test wraps while about 1 GB of frames are free, because growth then leaves the top of the address space and remaps page 0.
- Heap.KernelHeap.ExtendHeap: the same two bounds.
- Heap.KernelHeap.GrowMapping: the second of them.
- System.RunningKernel.Kmalloc: the same two bounds.
