/** Sessions with the shell that end badly: short programs of the kernel's own
    operations, from a kernel that has just booted. */
module Sessions {
  import opened Words
  import opened Pmm
  import opened PageTables
  import opened Leaves
  import opened Paging
  import opened Blocks
  import opened HeapWords
  import opened HeapSteps
  import opened Forgery
  import opened Acceptance
  import opened Heap
  import opened HeapUse
  import opened Ownership
  import opened Kernel
  import opened Stacks
  import opened TaskRuns
  import opened TaskTable
  import opened RoundRobin
  import opened Tasks
  import opened System

  // ---- a frame that nobody owns any more ----

  lemma OneTaken(free: set<nat>, addr: nat)
    requires free != {} && addr == 4096 * Least(free)
    ensures addr / 4096 == Least(free) && |Without(free, addr / 4096)| == |free| - 1
    ensures Without(free, addr / 4096) <= free
  {
  }

  /** `alloc` when there is a free frame. */
  method TakeOne(stack: MemoryStack) returns (addr: u32)
    requires stack.Valid() && stack.pmm.Free() != {}
    modifies stack`others, stack.pmm, stack.pmm.bitmap
    ensures stack.Valid() && |stack.pmm.Free()| == old(|stack.pmm.Free()|) - 1
    ensures stack.pmm.Free() <= old(stack.pmm.Free())
    ensures addr != 0 && addr / 4096 in stack.others.raw && stack.others.lost == old(stack.others.lost)
    ensures stack.space.ram[..] == old(stack.space.ram[..])
  {
    hide MemoryStack.Valid, Least, Without, FrameAllocator.Free, KernelHeap.Flat;
    FramesCounted(stack);
    OneTaken(stack.pmm.Free(), 4096 * Least(stack.pmm.Free()));
    addr := stack.CmdAlloc();
  }

  /** `alloc` until one frame is free. */
  method DrainFrames(stack: MemoryStack) returns (last: u32)
    requires stack.Valid() && |stack.pmm.Free()| >= 2
    modifies stack`others, stack.pmm, stack.pmm.bitmap
    ensures stack.Valid() && |stack.pmm.Free()| == 1 && last / 4096 in stack.others.raw && last != 0
    ensures stack.pmm.Free() <= old(stack.pmm.Free())
    ensures stack.others.lost == old(stack.others.lost) && stack.space.ram[..] == old(stack.space.ram[..])
  {
    hide MemoryStack.Valid, FrameAllocator.Free;
    FramesCounted(stack);
    last := TakeOne(stack);
    FramesCounted(stack);
    while stack.pmm.total - stack.pmm.used > 1
      invariant stack.Valid() && stack.pmm.total - stack.pmm.used == |stack.pmm.Free()| >= 1
      invariant last / 4096 in stack.others.raw && last != 0 && stack.pmm.Free() <= old(stack.pmm.Free())
      invariant stack.others.lost == old(stack.others.lost) && stack.space.ram[..] == old(stack.space.ram[..])
      decreases |stack.pmm.Free()|
    {
      last := TakeOne(stack);
      FramesCounted(stack);
    }
  }

  lemma FramesCounted(stack: MemoryStack)
    requires stack.Valid()
    ensures stack.pmm.total - stack.pmm.used == |stack.pmm.Free()|
    ensures stack.pmm.Free() != {} ==> 0 != Least(stack.pmm.Free()) < 0x10_0000
  {
    hide Partition, NothingAbove, KernelHeap.Valid, FreeSet;
  }

  /** A first heap asked for `n` words when there are fewer free frames than that takes. */
  ghost predicate TooMuch(stack: MemoryStack, n: nat)
    reads stack.heap, stack.pmm, stack.pmm.bitmap
  {
    && stack.heap.blocks == [Block(16380, true)] && stack.heap.brk == 0xC001_0000
    && 16380 < n && 0xC001_0000 + 4096 * GrowthPages(n) <= 0xC040_0000
    && 0 < |stack.pmm.Free()| < GrowthPages(n)
  }

  lemma BelowCeiling(brk: u32, free: set<nat>, p: nat)
    requires brk == 0xC001_0000 && brk + 4096 * p <= 0xC040_0000
    ensures PassesCeiling(brk, p) && StopsInTime(brk, free, p)
  {
  }

  lemma CannotExtend(stack: MemoryStack, n: nat)
    requires stack.Valid() && TooMuch(stack, n)
    ensures !HasFit(stack.heap.blocks, n) && !stack.heap.CanExtend(n) && PassesCeiling(stack.heap.brk, GrowthPages(n))
    ensures StopsInTime(stack.heap.brk, stack.space.View().free, GrowthPages(n))
    ensures stack.heap.space == stack.space && stack.space.pmm == stack.pmm && stack.heap.Valid()
    ensures stack.space.Dir() < stack.space.Lim() && stack.heap.brk % 4096 == 0 && 0 in stack.others.reserved
    ensures Partition(stack.space.View(), stack.space.Dir(), stack.space.Lim(), stack.pmm.total, stack.others)
    ensures !stack.stranded ==> stack.others.lost == {} && NothingAbove(stack.space.View().pages, stack.heap.brk)
  {
    hide Partition, NothingAbove, KernelHeap.Valid, KernelHeap.CanExtend, GrowthPages, AddressSpace.View,
      FrameAllocator.Free, PassesCeiling, StopsInTime;
    BelowCeiling(stack.heap.brk, stack.space.View().free, GrowthPages(n));
    stack.heap.CanExtendPages(n);
    assert stack.heap.blocks[1..] == [];
  }

  /** `kmalloc` then fails, and leaves the pages mapped that it had frames for. */
  method FailToGrow(stack: MemoryStack, size: u32, ghost n: nat)
    requires stack.Valid() && size <= 0xFFFF_EFF0 && n == stack.heap.RequestWords(size) && TooMuch(stack, n)
    modifies stack`others, stack`stranded, stack.heap`brk, stack.heap`blocks, stack.space`tableCount,
      stack.space`mappedPages, stack.space.ram, stack.pmm, stack.pmm.bitmap
    ensures stack.Valid() && stack.heap.brk == old(stack.heap.brk) && stack.heap.blocks == old(stack.heap.blocks)
    ensures stack.space.View() == GrownBy(old(stack.space.View()), 0xC001_0000, n, stack.space.Lim())
    ensures stack.others == LoseAll(old(stack.others),
                                    if stack.space.View() == old(stack.space.View()) then {}
                                    else Overgrown(old(stack.space.View()), 0xC001_0000, n, stack.space.Lim()))
  {
    hide MemoryStack.Valid, Partition, NothingAbove, KernelHeap.Valid, KernelHeap.CanExtend, GrowthPages,
      AddressSpace.View, Overgrown, GrownBy, KernelHeap.Flat, KernelHeap.Trusted, KernelHeap.Clean, PassesCeiling,
      StopsInTime, HasFit, FrameAllocator.Free, Granted, Owned;
    CannotExtend(stack, n);
    ghost var a, brk := stack.space.View(), stack.heap.brk;
    stack.heap.Up();
    var ptr := stack.heap.Kmalloc(size);
    stack.NoteGrowth(a, brk, n);
  }

  /** The first failure leaves the page at the break mapped to the one free frame. */
  lemma PageLeftBehind(a: AddressMap, dir: nat, lim: nat, total: nat, brk: u32, n: nat)
    requires Sound(a, dir, lim, total) && lim <= 4096 && 0xC000_0000 <= brk && brk + 4096 * GrowthPages(n) <= 0xC040_0000
    requires 0xC_0000 / 1024 in a.tables && |a.free| == 1 && PassesCeiling(brk, GrowthPages(n))
    ensures var b := GrownBy(a, brk, n, lim);
      && brk / 4096 in b.pages && LeafFrame(b, brk / 4096) == Least(a.free) && 0xC_0000 / 1024 in b.tables
      && Sound(b, dir, lim, total) && b.free == {}
  {
    hide Sound, CanGrow, Least, PassesCeiling;
    var vp, p := brk / 4096, GrowthPages(n);
    hide GrowthPages;
    assert a.free != {};
    WindowCanGrow(a, vp, lim);
    WindowGrowth(a, lim, vp, p);
    StrandedPage(a, dir, lim, total, vp, p);
    GrowPagesTables(a, vp, p, lim, 0xC_0000 / 1024);
  }

  /** The second maps it anew and loses that frame. */
  lemma PageOvergrown(c: AddressMap, dir: nat, lim: nat, total: nat, brk: u32, n: nat)
    requires Sound(c, dir, lim, total) && lim <= 4096 && 0xC000_0000 <= brk && brk + 4096 * GrowthPages(n) <= 0xC040_0000
    requires 0xC_0000 / 1024 in c.tables && c.free != {} && PassesCeiling(brk, GrowthPages(n))
    requires brk / 4096 in c.pages
    ensures GrownBy(c, brk, n, lim) != c && LeafFrame(c, brk / 4096) in Overgrown(c, brk, n, lim)
  {
    var vp, p := brk / 4096, GrowthPages(n);
    assert LeafFrame(c, vp) !in c.free && Least(c.free) in c.free;
    hide Sound, CanGrow, Least, PassesCeiling, GrowthPages;
    WindowCanGrow(c, vp, lim);
    StrandedPage(c, dir, lim, total, vp, p);
  }

  /** A session with the shell in which a frame is lost: `alloc` until one frame is
      free, `kmalloc` of 1 MB, which fails, `free` of the last frame, and `kmalloc`
      again. It begins with any kernel that has just booted and has two frames left. */
  method LoseFrame(stack: MemoryStack) returns (ghost g: nat)
    requires stack.Valid() && !stack.stranded && |stack.pmm.Free()| >= 2
    requires stack.heap.blocks == [Block(16380, true)] && stack.heap.brk == 0xC001_0000
    modifies stack`others, stack`stranded, stack.heap`brk, stack.heap`blocks, stack.space`tableCount,
      stack.space`mappedPages, stack.space.ram, stack.pmm, stack.pmm.bitmap
    ensures stack.Valid() && g in old(stack.pmm.Free()) && g in stack.others.lost
  {
    hide MemoryStack.Valid, GrownBy, Overgrown, Least, AddressSpace.View, FrameAllocator.Free, Sound, KernelHeap.Flat,
      KernelHeap.Clean, Absent, LeafFrame, PassesCeiling, GrowthPages;
    var last := DrainFrames(stack);
    ghost var n := 0x4_0000;
    MegabyteGrowth();
    g := StrandOne(stack, 0x10_0000, n);
    ReturnRaw(stack, last);
    ghost var c := stack.space.View();
    StackSound(stack);
    PageOvergrown(c, stack.space.Dir(), stack.space.Lim(), stack.pmm.total, 0xC001_0000, n);
    FailToGrow(stack, 0x10_0000, n);
  }

  lemma MegabyteGrowth()
    ensures GrowthPages(0x4_0000) == 257 && PassesCeiling(0xC001_0000, 257)
  {
  }

  /** The first failure. */
  method StrandOne(stack: MemoryStack, size: u32, ghost n: nat) returns (ghost g: nat)
    requires stack.Valid() && size <= 0xFFFF_EFF0 && n == stack.heap.RequestWords(size) && TooMuch(stack, n)
    requires |stack.pmm.Free()| == 1 && PassesCeiling(0xC001_0000, GrowthPages(n))
    modifies stack`others, stack`stranded, stack.heap`brk, stack.heap`blocks, stack.space`tableCount,
      stack.space`mappedPages, stack.space.ram, stack.pmm, stack.pmm.bitmap
    ensures stack.Valid() && stack.heap.brk == old(stack.heap.brk) && stack.heap.blocks == old(stack.heap.blocks)
    ensures stack.pmm.Free() == {} && stack.others.raw == old(stack.others.raw) && g in old(stack.pmm.Free())
    ensures 0xC_0010 in stack.space.View().pages && LeafFrame(stack.space.View(), 0xC_0010) == g
  {
    hide MemoryStack.Valid, GrownBy, Overgrown, Least, AddressSpace.View, FrameAllocator.Free, Sound, LeafFrame,
      PassesCeiling, GrowthPages;
    ghost var a := stack.space.View();
    StackSound(stack);
    g := Least(a.free);
    PageLeftBehind(a, stack.space.Dir(), stack.space.Lim(), stack.pmm.total, 0xC001_0000, n);
    FailToGrow(stack, size, n);
    StackSound(stack);
  }

  /** `free` of a raw frame. */
  method ReturnRaw(stack: MemoryStack, addr: u32)
    requires stack.Valid() && addr / 4096 in stack.others.raw && addr != 0 && 0xC_0010 in stack.space.View().pages
    modifies stack`others, stack.pmm, stack.pmm.bitmap
    ensures stack.Valid() && stack.pmm.Free() == With(old(stack.pmm.Free()), addr / 4096)
    ensures stack.space.View().pages == old(stack.space.View()).pages
    ensures LeafFrame(stack.space.View(), 0xC_0010) == LeafFrame(old(stack.space.View()), 0xC_0010)
  {
    hide MemoryStack.Valid, AddressSpace.View, FrameAllocator.Free, LeafFrame, KernelHeap.Flat, KernelHeap.Clean,
      Absent;
    RawExists(stack, addr / 4096);
    SameTables(stack.space);
    ghost var b := stack.space.View();
    stack.CmdFree(addr);
    SameTables(stack.space);
    SameLeaf(b, stack.space.View(), 0xC_0010);
  }

  lemma SameLeaf(b: AddressMap, c: AddressMap, vp: nat)
    requires vp in b.pages && c.pages == b.pages
    ensures LeafFrame(c, vp) == LeafFrame(b, vp)
  {
  }

  lemma StackSound(stack: MemoryStack)
    requires stack.Valid()
    ensures var a := stack.space.View();
      && Sound(a, stack.space.Dir(), stack.space.Lim(), stack.pmm.total) && stack.space.Lim() <= 4096
      && 0xC_0000 / 1024 in a.tables && a.free == stack.pmm.Free()
  {
    hide Sound, Partition, NothingAbove, WindowMapped, ListOk, FreeSet, SpaceOk, TablesOf, PagesOf;
  }

  lemma RawExists(stack: MemoryStack, f: nat)
    requires stack.Valid() && f in stack.others.raw
    ensures f < stack.pmm.total
  {
    hide Sound, NothingAbove, KernelHeap.Valid, FreeSet, SpaceOk, TablesOf, PagesOf, Partition, KernelHeap.Backed;
    RawIsApart(stack.space.View(), stack.space.Dir(), stack.space.Lim(), stack.pmm.total, stack.others, f);
  }

  lemma SameTables(space: AddressSpace)
    ensures space.View().pages == PagesOf(space.ram[..], space.Dir())
    ensures space.View().tables == TablesOf(space.ram[..], space.Dir())
  {
    hide PagesOf, TablesOf, FrameAllocator.Free;
  }

  // ---- a stale header under a new stack ----

  /** A kernel whose heap is one free block runs no task but its own. */
  lemma NoTasks(kernel: RunningKernel)
    requires kernel.Valid() && kernel.heap.blocks == [Block(16380, true)]
    ensures Whole(StateOf(kernel.heap)) && |kernel.heap.Flat()| == 16384
    ensures kernel.tasks.tasks.Length == 8 && forall i | 0 < i < 8 :: kernel.tasks.tasks[i].state == Unused
    ensures FirstUnused(kernel.tasks.Sched().states, 1) == 1
    ensures kernel.heap.brk <= 0xC040_0000
  {
    hide RunningKernel.Valid, Scheduler.Counted, RoundRobin.Ok, Isolated, Leaves.Flat, KernelHeap.Backed, Owned,
      Clear, Partition, NothingAbove, BootWords, AddressSpace.View;
    kernel.Parts();
    Single(kernel.heap.blocks[0], 0);
    NoStacks(kernel.tasks.M(), kernel.tasks.current);
    NothingUsed(kernel.tasks.Sched().states);
  }

  /** Without a live block there is no stack. */
  lemma NoStacks(m: Machine, on: nat)
    requires Isolated(m, on) && Live(m.bs, 0) == {}
    ensures |m.ts| == 8 && forall i | 0 < i < 8 :: m.ts[i].state == Unused
  {
    hide ListOk, Parked;
    assert forall w: nat :: !StackOk(m.bs, w);
  }

  lemma NothingUsed(states: seq<State>)
    requires |states| == 8 && states[1] == Unused
    ensures FirstUnused(states, 1) == 1
  {
  }

  lemma SmallRequest(brk: u32, free: set<nat>, size: u32)
    requires brk <= 0xC040_0000 && size <= 0x3FBF_EFF0
    ensures StopsInTime(brk, free, GrowthPages((size + 7) / 8 * 2))
  {
  }

  /** `kfree` of a live pointer while there are no stacks. */
  method FreeLive(kernel: RunningKernel, ptr: u32)
    requires kernel.Valid() && ptr % 4 == 0 && kernel.heap.IsLive(ptr)
    requires kernel.tasks.tasks.Length == 8 && forall i | 0 < i < 8 :: kernel.tasks.tasks[i].state == Unused
    modifies kernel.heap`blocks, kernel.space.ram
    ensures kernel.Valid() && kernel.tasks.View() == old(kernel.tasks.View())
    ensures StateOf(kernel.heap) == After(old(StateOf(kernel.heap)), Give(HeaderWord(ptr)))
  {
    hide Scheduler.Valid, MemoryStack.Valid, BootReserved, Live, FreedWords, Free, KernelHeap.Flat,
      KernelHeap.Trusted, Scheduler.View, LooksLive;
    var r := kernel.Kfree(ptr);
  }

  /** `kmalloc` that finds a block. */
  method TakeSmall(kernel: RunningKernel, size: u32, ghost n: nat) returns (ptr: u32)
    requires kernel.Valid() && 0 < size <= 0x3FBF_EFF0 && n == (size + 7) / 8 * 2 && kernel.heap.brk <= 0xC040_0000
    requires HasFit(kernel.heap.blocks, n)
    modifies kernel.stack`others, kernel.stack`stranded, kernel.heap`brk, kernel.heap`blocks, kernel.space`tableCount,
      kernel.space`mappedPages, kernel.space.ram, kernel.pmm, kernel.pmm.bitmap
    ensures kernel.Valid() && kernel.tasks.View() == old(kernel.tasks.View())
    ensures StateOf(kernel.heap) == After(old(StateOf(kernel.heap)), Take(n))
    ensures ptr == Addr(AllocAt(old(kernel.heap.blocks), 0, n)) + 16 && kernel.heap.IsLive(ptr)
    ensures kernel.heap.brk <= 0xC040_0000
  {
    hide RunningKernel.Valid, HandedWords, Alloc, AllocAt, HasFit, KernelHeap.Flat, KernelHeap.Trusted,
      Scheduler.View, StopsInTime, KernelHeap.IsLive, GrowthPages;
    SmallRequest(kernel.heap.brk, kernel.space.View().free, size);
    ptr := kernel.Kmalloc(size);
    BreakBound(kernel);
  }

  lemma BreakBound(kernel: RunningKernel)
    requires kernel.Valid()
    ensures kernel.heap.brk <= 0xC040_0000
  {
    hide RunningKernel.Valid;
    kernel.Parts();
  }

  /** `kmalloc 8144`, `kmalloc 8`, and `kfree` of both. */
  method RecycleBlocks(kernel: RunningKernel)
    requires kernel.Valid() && kernel.heap.blocks == [Block(16380, true)]
    modifies kernel.stack`others, kernel.stack`stranded, kernel.heap`brk, kernel.heap`blocks, kernel.space`tableCount,
      kernel.space`mappedPages, kernel.space.ram, kernel.pmm, kernel.pmm.bitmap
    ensures kernel.Valid() && kernel.tasks.View() == old(kernel.tasks.View())
    ensures StateOf(kernel.heap) == Recycled(old(StateOf(kernel.heap)), 2036, 2)
  {
    hide RunningKernel.Valid, KernelHeap.Flat, Scheduler.View, HasFit, Alloc, AllocAt, HandedWords, FreedWords, Live,
      Free, TwoWritten;
    ghost var s := StateOf(kernel.heap);
    NoTasks(kernel);
    TwoTaken(s, 2036, 2);
    var p := TakeSmall(kernel, 8144, 2036);
    var q := TakeSmall(kernel, 8, 2);
    TwoLive(kernel.heap.blocks, 2036, 2, 14334);
    FreeLive(kernel, p);
    FirstFreed(TwoWritten(s.h, 2036, 2), 2036, 2, 14334);
    FreeLive(kernel, q);
  }

  lemma TwoLive(bs: seq<Block>, a: nat, b: nat, c: nat)
    requires bs == [Block(a, false), Block(b, false), Block(c, true)]
    ensures Live(bs, 0) == {0, a + 4} && Live(bs[0 := Block(a, true)], 0) == {a + 4}
  {
    Single(Block(c, true), a + b + 8);
    assert bs[1..] == [bs[1], bs[2]] && bs[0 := Block(a, true)][1..] == [bs[1], bs[2]];
    assert [bs[1], bs[2]][1..] == [bs[2]];
  }

  /** The zeros on the new stack make the stale header look live. */
  lemma HeaderUnderStack(t: HeapState, h: seq<u32>, bs: seq<Block>, w: nat)
    requires Whole(t) && |t.h| == 16384 && t.h[2040] == BLOCK_MAGIC
    requires FirstFitStack(t.h, t.bs, h, bs, w) && |StackWords(h, w)| == 2048 && StackWords(h, w)[2039] == 0
    ensures w == 4 && |h| == 16384 && LooksLive(h, 2040) && 2040 !in Live(bs, 0)
  {
    hide ListOk, Coalesced, Alloc, AllocAt, HasFit, CutsEnd, Live, HandedWords;
    OneBlock(t.bs, 16380, 2048);
    FirstHeader(t.h, t.bs);
    HandedKeeps(t.h, 2040);
    assert HandedWords(t.h, 0, 2048)[2040] == h[2040];
    assert StackWords(h, w)[2039] == h[2043];
  }

  lemma HandedKeeps(h: seq<u32>, k: nat)
    requires 4 <= k < 2052 && |h| == 16384
    ensures HandedWords(h, 0, 2048)[k] == h[k]
  {
  }

  /** A new task's stack is at its block, with 0 for the register `esi`. */
  lemma SeatIsStack(tasks: Scheduler, slot: nat, entry: u32)
    requires tasks.Valid() && 0 < slot < 8 && NewSeat(tasks.Seats()[slot], entry, tasks.taskExit)
    ensures tasks.tasks.Length == 8 && tasks.tasks[slot].state != Unused
    ensures var s := StackWords(tasks.heap.Flat(), StackAt(tasks.tasks[slot])); |s| == 2048 && s[2039] == 0
  {
    hide Isolated, Scheduler.BootSafe, KernelHeap.Valid, KernelHeap.Flat, StackAt, StackWords, Base, BootWords;
    tasks.MachineSize(tasks.current);
    var s := tasks.Seats()[slot].stack;
    assert s[2037..2047][2] == s[2039] == Frame(Fresh(entry))[2];
  }

  lemma ForgedThere(heap: KernelHeap, ptr: u32)
    requires |heap.Flat()| == 16384 && 0xC000_0000 <= heap.brk && ptr == 0xC000_1FF0
    requires LooksLive(heap.Flat(), 2040) && 2040 !in Live(heap.blocks, 0)
    ensures heap.Forged(ptr)
  {
    hide Leaves.Flat, LooksLive, Live, AddressSpace.View;
    assert heap.N() == 16384;
    assert (ptr - 0xC000_0010) / 4 == 2040;
  }

  /** What the last command leaves. */
  lemma StackUnderFree(kernel: RunningKernel, slot: nat)
    requires kernel.Valid() && 0 < slot < 8 && kernel.tasks.current == 0 && kernel.tasks.tasks.Length == 8
    requires kernel.tasks.tasks[slot].state != Unused && StackAt(kernel.tasks.tasks[slot]) == 4
    requires |kernel.heap.Flat()| == 16384 && LooksLive(kernel.heap.Flat(), 2040) && 2040 !in Live(kernel.heap.blocks, 0)
    ensures kernel.heap.Forged(0xC000_1FF0) && !kernel.tasks.FreeIsHarmless(0xC000_1FF0)
  {
    hide Scheduler.Valid, MemoryStack.Valid, BootReserved, KernelHeap.Flat, LooksLive, Live, AddressSpace.View,
      KernelHeap.Forged;
    kernel.Parts();
    ForgedThere(kernel.heap, 0xC000_1FF0);
    assert OnStack(kernel.tasks.tasks[..], slot, 2043);
  }

  /** Five commands after boot, and `kfree 0xC0001FF0` is accepted although that block
      was freed: `kmalloc 8144`, `kmalloc 8`, `kfree` of both, `spawn`. No client has
      written anything. It is the zeros that `task_create` lays on the new stack
      that clear the flag of the header swallowed under it, and a `kfree` of it
      writes into the registers saved there. */
  method StaleStack(kernel: RunningKernel, entry: u32) returns (slot: int)
    requires kernel.Valid() && kernel.heap.blocks == [Block(16380, true)]
    modifies kernel.stack`others, kernel.stack`stranded, kernel.tasks, kernel.tasks.tasks, kernel.heap`brk,
      kernel.heap`blocks, kernel.space`tableCount, kernel.space`mappedPages, kernel.space.ram, kernel.pmm,
      kernel.pmm.bitmap
    ensures kernel.Valid() && 0 < slot < 8
    ensures kernel.heap.Forged(0xC000_1FF0) && !kernel.tasks.FreeIsHarmless(0xC000_1FF0)
  {
    hide RunningKernel.Valid, KernelHeap.Flat, Scheduler.View, KernelHeap.Trusted, FirstFitStack, NewSeat, Recycled,
      HasFit, Kept, StackAt, StackWords, LooksLive, Live, KernelHeap.Forged, Scheduler.FreeIsHarmless,
      Scheduler.Seats, SpawnSpares, Overgrown, Apply, FirstUnused, KernelHeap.CanExtend;
    ghost var s := StateOf(kernel.heap);
    NoTasks(kernel);
    OnlyKernelRuns(kernel);
    RecycleBlocks(kernel);
    ghost var t := StateOf(kernel.heap);
    RecycledRun(s, 2036, 2);
    RecycledWords(s, 2036, 2);
    RoomForStack(t.bs);
    assert kernel.tasks.tasks[..][1].state == Unused;
    slot := kernel.Spawn(entry);
    TasksValid(kernel);
    SeatIsStack(kernel.tasks, slot, entry);
    HeaderUnderStack(t, kernel.heap.Flat(), kernel.heap.blocks, StackAt(kernel.tasks.tasks[slot]));
    StackUnderFree(kernel, slot);
  }

  lemma RoomForStack(bs: seq<Block>)
    requires bs == [Block(16380, true)]
    ensures HasFit(bs, 2048)
  {
  }

  lemma TasksValid(kernel: RunningKernel)
    requires kernel.Valid()
    ensures kernel.tasks.Valid() && kernel.tasks.heap == kernel.heap
  {
    hide Scheduler.Valid, MemoryStack.Valid, BootReserved;
  }

  lemma OnlyKernelRuns(kernel: RunningKernel)
    requires kernel.Valid() && kernel.tasks.tasks.Length == 8
    requires forall i | 0 < i < 8 :: kernel.tasks.tasks[i].state == Unused
    ensures kernel.tasks.current == 0
  {
    hide Scheduler.Valid, MemoryStack.Valid, BootReserved;
    kernel.tasks.CurrentIsUsed();
  }
}
