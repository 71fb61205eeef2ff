/** The kernel put together: memory first, then tasks on top of it. */
module System {
  import opened Words
  import opened MemoryMap
  import opened Pmm
  import opened PageTables
  import opened IdentityMap
  import opened Leaves
  import opened Paging
  import opened Blocks
  import opened HeapWords
  import opened HeapSteps
  import opened Stacks
  import opened TaskRuns
  import opened TaskTable
  import opened Forgery
  import opened Heap
  import opened Ownership
  import opened Kernel
  import opened Boot
  import opened RoundRobin
  import opened Tasks

  /** What boot reserved neither paging nor the heap ever owns. */
  lemma ReservedIsApart(a: AddressMap, dir: nat, lim: nat, total: nat, o: Others, f: nat)
    requires Partition(a, dir, lim, total, o) && f in o.reserved
    ensures f !in Owned(a, dir, lim)
  {
    assert Classes(f, o, Owned(a, dir, lim)) == One(f < total);
  }

  /** Every page table lies above the frames that boot reserved. */
  lemma TableIsAbove(a: AddressMap, dir: nat, lim: nat, total: nat, o: Others, last: nat, di: nat)
    requires Partition(a, dir, lim, total, o) && di in a.tables
    requires forall f: nat | f <= last && f < total :: f in o.reserved
    ensures last < a.tables[di] < lim
  {
    var t := a.tables[di];
    assert t in a.tables.Values && t in Owned(a, dir, lim);
    assert Classes(t, o, Owned(a, dir, lim)) == One(t < total);
  }

  lemma LowReserved(rs: seq<Region>, total: nat, kernelEnd: u32, f: nat)
    requires f <= LastReserved(total, kernelEnd) && f < total
    ensures f in Span(0, total) - BootFree(rs, total, kernelEnd)
  {
    SpanMembers(0, total);
    AboveReserved(rs, total, kernelEnd, f);
  }

  lemma KernelEndReserved(total: nat, kernelEnd: u32)
    requires kernelEnd <= 0xF000_0000
    ensures kernelEnd <= 4096 * (LastReserved(total, kernelEnd) + 1)
  {
  }

  /** The frames of a boot stack below the end of the kernel are reserved. */
  lemma BootStackReserved(rs: seq<Region>, total: nat, kernelEnd: u32, lo: u32, last: nat)
    requires lo % 4 == 0 && lo + 16384 <= kernelEnd <= 0xF000_0000 && last == LastReserved(total, kernelEnd)
    ensures forall j: nat | lo / 4 <= j < lo / 4 + 4096 :: j / 1024 <= last
  {
    hide LastReserved;
    KernelEndReserved(total, kernelEnd);
  }

  /** Every frame of the boot stack is reserved. */
  ghost predicate BootReserved(lo: u32, reserved: set<nat>) {
    forall j: nat | lo / 4 <= j < lo / 4 + 4096 :: j / 1024 in reserved
  }

  /** The boot stack is out of reach of paging and heap, and mapped to itself. */
  lemma BootStackSafe(stack: MemoryStack, rs: seq<Region>, kernelEnd: u32, lo: u32)
    requires stack.Valid() && stack.others.reserved == Span(0, stack.pmm.total) - BootFree(rs, stack.pmm.total, kernelEnd)
    requires lo % 4 == 0 && lo + 16384 <= kernelEnd <= 0xF000_0000
    ensures lo + 16384 <= stack.space.identityEnd && Clear(lo, stack.heap.Area())
    ensures BootReserved(lo, stack.others.reserved)
  {
    hide SpaceOk, TablesOf, PagesOf, Sound, Partition, Owned, BootFree, LastReserved, FrameAllocator.Valid,
      WindowMapped, ListOk;
    var last, total := LastReserved(stack.pmm.total, kernelEnd), stack.pmm.total;
    var a, dir, lim := stack.space.View(), stack.space.Dir(), stack.space.Lim();
    BootStackReserved(rs, total, kernelEnd, lo, last);
    KernelEndReserved(total, kernelEnd);
    forall f: nat | f <= last && f < total ensures f in stack.others.reserved {
      LowReserved(rs, total, kernelEnd, f);
    }
    TableIsAbove(a, dir, lim, total, stack.others, last, 0xC_0000 / 1024);
    LimBelowTotal(a, dir, lim, total, stack.others);
    forall j: nat | lo / 4 <= j < lo / 4 + 4096 ensures j / 1024 !in stack.heap.Area() {
      ReservedIsApart(a, dir, lim, total, stack.others, j / 1024);
    }
  }

  lemma LimBelowTotal(a: AddressMap, dir: nat, lim: nat, total: nat, o: Others)
    requires Partition(a, dir, lim, total, o)
    ensures lim <= total
  {
  }

  /** The scheduler over a heap that is up. */
  method StartTasks(heap: KernelHeap, stackBottom: u32, taskExit: u32) returns (tasks: Scheduler)
    requires heap.Valid() && stackBottom % 4 == 0 && stackBottom + 16384 <= heap.space.identityEnd
    requires Clear(stackBottom, heap.Area())
    ensures fresh(tasks) && tasks.heap == heap && tasks.space == heap.space && tasks.pmm == heap.space.pmm
    ensures tasks.bootLo == stackBottom && tasks.Valid() && tasks.Sched() == INITIAL
    ensures tasks.cpu.esp == stackBottom + 16384 && tasks.Room(4096)
  {
    hide KernelHeap.Valid, Clear, Owned, AddressSpace.View;
    tasks := new Scheduler(heap, stackBottom, taskExit);
    tasks.SchedulerInit();
    tasks.FirstRoom();
  }

  lemma BootClear(a: AddressMap, dir: nat, lim: nat, total: nat, o: Others, lo: u32)
    requires Partition(a, dir, lim, total, o) && BootReserved(lo, o.reserved)
    ensures Clear(lo, Owned(a, dir, lim))
  {
    forall j: nat | lo / 4 <= j < lo / 4 + 4096 ensures j / 1024 !in Owned(a, dir, lim) {
      ReservedIsApart(a, dir, lim, total, o, j / 1024);
    }
  }

  /** Memory and tasks together. Every operation of the kernel on them, in any
      order, keeps the whole invariant. */
  class RunningKernel {
    const stack: MemoryStack
    const tasks: Scheduler
    const heap: KernelHeap
    const space: AddressSpace
    const pmm: FrameAllocator

    constructor (s: MemoryStack, t: Scheduler)
      ensures stack == s && tasks == t && heap == s.heap && space == s.space && pmm == s.pmm
    {
      stack, tasks, heap, space, pmm := s, t, s.heap, s.space, s.pmm;
    }

    ghost predicate Wired()
    {
      && stack.heap == heap && stack.space == space && stack.pmm == pmm
      && tasks.heap == heap && tasks.space == space && tasks.pmm == pmm
      && heap.space == space && space.pmm == pmm
    }

    ghost predicate Valid()
      reads stack, tasks, tasks.tasks, heap, space, space.ram, pmm, pmm.bitmap
    {
      && Wired() && stack.Valid() && tasks.Valid() && BootReserved(tasks.bootLo, stack.others.reserved)
    }

    /** The parts that the operations' contracts speak of. */
    lemma Parts()
      requires Valid()
      ensures heap.Valid() && space.Dir() < space.Lim() && 0xC000_0000 <= heap.brk <= 0xC040_0000 && heap.brk % 4096 == 0
      ensures Partition(space.View(), space.Dir(), space.Lim(), pmm.total, stack.others) && 0 in stack.others.reserved
      ensures !stack.stranded ==> stack.others.lost == {} && NothingAbove(space.View().pages, heap.brk)
      ensures tasks.tasks.Length == 8 && |tasks.image| == 8 && |tasks.saved| == 8 && tasks.current < 8
      ensures tasks.M() == Machine(tasks.tasks[..], heap.Flat(), heap.blocks, BootWords(space.ram[..], tasks.bootLo),
                                   tasks.bootLo, tasks.image, tasks.saved)
      ensures Isolated(tasks.M(), tasks.current) && Clear(tasks.bootLo, heap.Area())
      ensures tasks.bootLo % 4 == 0 && tasks.bootLo + 16384 <= space.identityEnd
      ensures RoundRobin.Ok(tasks.Sched()) && tasks.Counted()
    {
      hide Partition, NothingAbove, Sound, SpaceOk, WindowMapped, ListOk, Coalesced, Leaves.Flat, AddressSpace.View,
        Isolated, Clear, BootWords, Scheduler.M, RoundRobin.Ok, Owned, Scheduler.Counted, States;
      tasks.MachineSize(tasks.current);
      tasks.CurrentIsUsed();
    }

    /** The theorems of `TaskRuns` speak of the view of any state of the kernel: the
        operations below move it as `Apply` says, and here are their premises. */
    lemma RunsFromHere(k: nat)
      requires Valid()
      ensures var v := tasks.View();
        && Shape(v) && RoundRobin.Ok(v.sched) && v.seats[v.sched.current].Seat?
        && (tasks.Room(k) ==>
              Roomy(v.seats[v.sched.current], v.cpu) && v.cpu.esp == v.seats[v.sched.current].base + 4 * k)
    {
      hide KernelHeap.Valid, MemoryStack.Valid, Isolated, StackOf, Base, Scheduler.M, BootReserved,
        Scheduler.BootSafe;
      tasks.CurrentIsUsed();
      TableLength();
      tasks.OwnSeat(tasks.M());
    }

    lemma TableLength()
      requires Valid()
      ensures |tasks.M().ts| == 8
    {
      hide KernelHeap.Valid, MemoryStack.Valid, Isolated, BootReserved, Scheduler.BootSafe;
      tasks.MachineSize(tasks.current);
    }

    /** The timer interrupt. */
    method Tick(ret: u32, ghost k: nat)
      requires Valid() && tasks.Room(k)
      modifies tasks, tasks.tasks, heap`blocks, space.ram
      ensures Valid() && tasks.View() == Apply(old(tasks.View()), TickOp(ret))
      ensures space.View() == old(space.View())
      ensures old(heap.Trusted()) ==>
                (heap.Trusted() <==> tasks.current == old(tasks.current) || old(tasks.LeavesSparing(ret, k)))
    {
      hide KernelHeap.Trusted, Scheduler.LeavesSparing, Scheduler.Valid, MemoryStack.Valid, Partition, NothingAbove,
        KernelHeap.Valid, Isolated, Clear, BootWords, Scheduler.M, Pushed, StackOf, Base, Scheduler.Seats, Apply,
        AddressSpace.View, Leaves.Flat, Owned;
      Parts();
      ghost var a := space.View();
      tasks.SchedulerTick(ret, k);
      HeapStands();
      stack.BooksStand(a);
    }

    /** The running task gives up the processor. */
    method Yield(ret: u32, ghost k: nat)
      requires Valid() && tasks.Room(k)
      modifies tasks, tasks.tasks, space.ram
      ensures Valid() && tasks.View() == Apply(old(tasks.View()), YieldOp(ret))
      ensures space.View() == old(space.View())
      ensures old(heap.Trusted()) ==>
                (heap.Trusted() <==> tasks.current == old(tasks.current) || old(tasks.LeavesSparing(ret, k)))
    {
      hide KernelHeap.Trusted, Scheduler.LeavesSparing, Scheduler.Valid, MemoryStack.Valid, Partition, NothingAbove,
        KernelHeap.Valid, Isolated, Clear, BootWords, Scheduler.M, Pushed, StackOf, Base, Scheduler.Seats, Apply,
        AddressSpace.View, Leaves.Flat, Owned;
      Parts();
      ghost var a := space.View();
      tasks.TaskYield(ret, k);
      HeapStands();
      stack.BooksStand(a);
    }

    /** The running task writes its own stack. */
    method Work(addr: u32, v: u32, ghost k: nat)
      requires Valid() && k < |StackOf(tasks.M(), tasks.current)| && addr == Base(tasks.M(), tasks.current) + 4 * k
      modifies space.ram
      ensures Valid() && tasks.View() == Apply(old(tasks.View()), WorkOp(k, v))
      ensures StackOf(tasks.M(), tasks.current) == old(StackOf(tasks.M(), tasks.current))[k := v]
      ensures space.View() == old(space.View())
      ensures old(heap.Trusted()) ==>
                (heap.Trusted() <==>
                 tasks.current == 0 || Spares(old(heap.Flat()), StackAt(tasks.tasks[tasks.current]) + k, v))
    {
      hide KernelHeap.Trusted, Spares, StackAt, Scheduler.Valid, MemoryStack.Valid, Partition, NothingAbove,
        KernelHeap.Valid, Isolated, Clear, BootWords, Scheduler.M, Pushed, StackOf, Base, Scheduler.Seats, Apply,
        AddressSpace.View, Leaves.Flat, Owned;
      Parts();
      ghost var a := space.View();
      tasks.WriteStack(addr, v, k);
      HeapStands();
      stack.BooksStand(a);
    }

    /** It computes: any change of the registers. */
    method Compute(c: Context)
      requires Valid()
      modifies tasks`cpu
      ensures Valid() && tasks.View() == Apply(old(tasks.View()), ComputeOp(c)) && tasks.cpu == c
      ensures heap.Trusted() == old(heap.Trusted())
    {
      hide KernelHeap.Trusted, Scheduler.Valid, MemoryStack.Valid, BootReserved;
      tasks.SetRegisters(c);
    }

    /** `scheduler_enable` */
    method SetEnabled(on: bool)
      requires Valid()
      modifies tasks`enabled
      ensures Valid() && tasks.View() == Apply(old(tasks.View()), EnableOp(on)) && tasks.enabled == on
      ensures heap.Trusted() == old(heap.Trusted())
    {
      hide KernelHeap.Trusted, Scheduler.Valid, MemoryStack.Valid, BootReserved;
      tasks.SetEnabled(on);
    }

    /** `kill` and `exit`: no memory moves. */
    method Kill(id: u32) returns (ok: bool)
      requires Valid()
      modifies tasks.tasks
      ensures Valid() && tasks.View() == Apply(old(tasks.View()), KillOp(id))
      ensures heap.Trusted() == old(heap.Trusted())
      ensures tasks.tasks.Length == 8 && (ok <==> 0 < id < 8 && old(tasks.tasks[..])[id].state != Unused)
      ensures tasks.tasks[..] == if ok then old(tasks.tasks[..])[id := old(tasks.tasks[..])[id].(state := Dead)]
                                 else old(tasks.tasks[..])
    {
      hide KernelHeap.Trusted, Scheduler.Valid, MemoryStack.Valid, Scheduler.M, Scheduler.Counted, RoundRobin.Ok,
        Isolated, KernelHeap.Valid, Leaves.Flat, AddressSpace.View, Owned, Clear, Partition, NothingAbove,
        BootReserved, BootWords;
      Parts();
      ok := tasks.TaskKill(id);
    }

    method Exit()
      requires Valid() && tasks.current != 0
      modifies tasks.tasks
      ensures Valid() && tasks.View() == Apply(old(tasks.View()), ExitOp)
      ensures tasks.current < tasks.tasks.Length
      ensures tasks.tasks[..] ==
              old(tasks.tasks[..])[tasks.current := old(tasks.tasks[..])[tasks.current].(state := Dead)]
      ensures heap.Trusted() == old(heap.Trusted())
    {
      hide KernelHeap.Trusted, Scheduler.Valid, MemoryStack.Valid, Scheduler.M, Scheduler.Counted, RoundRobin.Ok,
        Isolated, KernelHeap.Valid, Leaves.Flat, AddressSpace.View, Owned, Clear, Partition, NothingAbove,
        BootReserved, BootWords;
      Parts();
      tasks.TaskExit();
    }

    /** `spawn` */
    method Spawn(entry: u32) returns (slot: int)
      requires Valid()
      modifies stack`others, stack`stranded, tasks, tasks.tasks, heap`brk, heap`blocks, space`tableCount,
        space`mappedPages, space.ram, pmm, pmm.bitmap
      ensures Valid()
      ensures tasks.Sched() == Created(old(tasks.Sched()), old(HasFit(heap.blocks, 2048) || heap.CanExtend(2048)))
      ensures tasks.View() == Apply(old(tasks.View()), SpawnOp(if 0 < slot < 8 then tasks.Seats()[slot] else Vacant))
      ensures old(heap.Trusted()) ==>
                (heap.Trusted() <==>
                 !(0 < slot < 8) || SpawnSpares(heap.Flat(), StackAt(tasks.tasks[slot]), entry, tasks.taskExit))
      ensures 0 < slot < 8 && old(HasFit(heap.blocks, 2048)) ==>
                FirstFitStack(old(heap.Flat()), old(heap.blocks), heap.Flat(), heap.blocks, StackAt(tasks.tasks[slot]))
      ensures tasks.tasks.Length == 8
      ensures slot == -1 <==>
              (forall i | 0 < i < 8 :: old(tasks.tasks[..])[i].state != Unused)
              || (!old(HasFit(heap.blocks, 2048)) && !old(heap.CanExtend(2048)))
      ensures slot != -1 ==> 0 < slot < 8 && NewSeat(tasks.Seats()[slot], entry, tasks.taskExit)
      ensures slot != -1 ==>
                && old(tasks.tasks[..])[slot].state == Unused
                && (forall i | 0 < i < slot :: old(tasks.tasks[..])[i].state != Unused)
                && tasks.tasks[..] ==
                   old(tasks.tasks[..])[slot := Task(tasks.tasks[slot].esp, tasks.tasks[slot].stackBase, slot as u32,
                                                     Ready, 0, 0)]
      ensures stack.others == LoseAll(old(stack.others), if space.View() == old(space.View()) then {}
                                                         else old(Overgrown(space.View(), heap.brk, 2048, space.Lim())))
      ensures !old(stack.stranded) ==> stack.others == old(stack.others)
      ensures stack.stranded <==> old(stack.stranded) || (heap.brk == old(heap.brk) && space.View() != old(space.View()))
    {
      hide KernelHeap.Trusted, SpawnSpares, FirstFitStack, StackAt, Scheduler.Valid, MemoryStack.Valid, Partition,
        NothingAbove, KernelHeap.Valid, Isolated, Clear, BootWords, Scheduler.M, AddressSpace.View, Leaves.Flat,
        Owned, Overgrown, GrowthStep, HasFit, KernelHeap.CanExtend, StackOf;
      Parts();
      ghost var a, brk := space.View(), heap.brk;
      slot := tasks.TaskCreate(entry);
      HeapStands();
      StackPages(brk);
      stack.NoteGrowth(a, brk, 2048);
    }

    /** `kmalloc` by anybody. */
    method Kmalloc(size: u32) returns (ptr: u32)
      requires Valid() && size <= 0xFFFF_EFF0
      requires StopsInTime(heap.brk, space.View().free, GrowthPages(heap.RequestWords(size)))
      modifies stack`others, stack`stranded, heap`brk, heap`blocks, space`tableCount, space`mappedPages, space.ram,
        pmm, pmm.bitmap
      ensures Valid() && tasks.View() == old(tasks.View())
      ensures ptr == 0 <==>
              size == 0 || (!old(HasFit(heap.blocks, heap.RequestWords(size)))
                            && !old(heap.CanExtend(heap.RequestWords(size))))
      ensures old(heap.Trusted()) ==> heap.Trusted()
      ensures ptr != 0 && old(HasFit(heap.blocks, heap.RequestWords(size))) ==> var n := heap.RequestWords(size);
        var i := AllocAt(old(heap.blocks), 0, n);
        && ptr == Addr(i) + 16 && heap.blocks == Alloc(old(heap.blocks), n)
        && heap.Flat() == HandedWords(old(heap.Flat()), i, n)
      ensures ptr != 0 ==> heap.IsLive(ptr) && !old(heap.IsLive(ptr))
      ensures stack.others ==
              LoseAll(old(stack.others),
                      if space.View() == old(space.View()) then {}
                      else old(Overgrown(space.View(), heap.brk, heap.RequestWords(size), space.Lim())))
      ensures !old(stack.stranded) && old(heap.brk) + 4096 * GrowthPages(heap.RequestWords(size)) < 0x1_0000_0000 ==>
                stack.others == old(stack.others)
      ensures stack.stranded <==> old(stack.stranded) || (heap.brk == old(heap.brk) && space.View() != old(space.View()))
    {
      hide KernelHeap.Trusted, HandedWords, AllocAt, Alloc, Scheduler.Valid, MemoryStack.Valid, Partition,
        NothingAbove, KernelHeap.Valid, Isolated, Clear, BootWords, Scheduler.M, AddressSpace.View, Leaves.Flat,
        Owned, Overgrown, GrowthStep, HasFit, KernelHeap.CanExtend, StackOf, Base, KernelHeap.IsLive;
      Parts();
      ghost var a, brk := space.View(), heap.brk;
      ptr := tasks.HeapAlloc(size);
      HeapStands();
      stack.NoteGrowth(a, brk, heap.RequestWords(size));
    }

    /** `kfree` by anybody, of any word-aligned pointer: the kernel is in order after
        it exactly when the pointer was harmless. */
    method Kfree(ptr: u32) returns (r: FreeResult)
      requires Valid() && ptr % 4 == 0
      modifies heap`blocks, space.ram
      ensures Valid() <==> old(tasks.FreeIsHarmless(ptr))
      ensures r.Rejected? <==> !old(heap.InHeap(ptr) && LooksLive(heap.Flat(), HeaderWord(ptr)))
      ensures r.Lost? <==> old(heap.Forged(ptr)) && CutsEnd(old(heap.blocks), HeaderWord(ptr))
      ensures space.View() == old(space.View())
      ensures old(heap.Trusted()) ==> (r.Taken? <==> old(heap.IsLive(ptr))) && heap.Trusted()
      ensures old(heap.IsLive(ptr)) ==>
                && heap.blocks == Free(old(heap.blocks), HeaderWord(ptr))
                && heap.Flat() == FreedWords(old(heap.Flat()), old(heap.blocks), HeaderWord(ptr))
      ensures Valid() ==>
                tasks.View() == Apply(old(tasks.View()), old(FreeOp(ptr)))
    {
      hide KernelHeap.Trusted, FreedWords, Free, KernelHeap.IsLive, Scheduler.Valid, MemoryStack.Valid, Partition,
        NothingAbove, KernelHeap.Valid, Isolated, Clear, BootWords, Scheduler.M, Scheduler.Seats,
        Scheduler.FreeIsHarmless, LooksLive, OnStack, CutsEnd, AddressSpace.View, Leaves.Flat, Owned,
        KernelHeap.Forged, StackOf, Base, Live;
      Parts();
      ghost var a, harmless := space.View(), tasks.FreeIsHarmless(ptr);
      r := tasks.HeapFree(ptr);
      if harmless {
        HeapStands();
        stack.BooksStand(a);
      }
    }

    /** What the tasks notice of a `kfree`: nothing, unless a forged header makes it
        write on the running task's stack. */
    ghost function FreeOp(ptr: u32): Op
      reads tasks`current, tasks.tasks, heap`brk, heap`blocks, heap.space, heap.space.ram, heap.space.pmm,
        heap.space.pmm.bitmap
    {
      if heap.Forged(ptr) && OnStack(tasks.tasks[..], tasks.current, HeaderWord(ptr) + 3)
      then WorkOp(HeaderWord(ptr) + 3 - StackAt(tasks.tasks[tasks.current]), 1) else Other
    }

    /** A client of `kmalloc` writes its memory. */
    method WriteHeap(addr: u32, v: u32, ghost k: nat)
      requires Valid() && addr == Addr(k) && InPayload(heap.blocks, 0, k) && OffStacks(tasks.tasks[..], k)
      modifies space.ram
      ensures Valid() && tasks.View() == old(tasks.View()) && space.View() == old(space.View())
      ensures old(heap.Trusted()) ==> (heap.Trusted() <==> Spares(old(heap.Flat()), k, v))
      ensures k < |old(heap.Flat())| && heap.Flat() == old(heap.Flat())[k := v]
    {
      hide KernelHeap.Trusted, Spares, Scheduler.Valid, MemoryStack.Valid, Partition, NothingAbove, KernelHeap.Valid,
        Isolated, Clear, BootWords, Scheduler.M, Scheduler.Seats, InPayload, OffStacks, AddressSpace.View,
        Leaves.Flat, Owned, StackOf, Base;
      Parts();
      ghost var a := space.View();
      tasks.WriteHeap(addr, v, k);
      HeapStands();
      stack.BooksStand(a);
    }

    /** The shell's `map`: no task notices. */
    method Map(arg: u32) returns (r: MapResult)
      requires Valid()
      modifies stack`stranded, space`tableCount, space`mappedPages, space.ram, pmm, pmm.bitmap
      ensures Valid() && tasks.View() == old(tasks.View())
      ensures r.MappedAt? <==> arg / 4096 != 0 && arg / 4096 !in old(space.View()).pages
                               && CanGrow(old(space.View()), arg / 4096, space.Lim())
      ensures r.MappedAt? ==> old(space.View()).free != {} && space.View() == Grown(old(space.View()), arg / 4096)
      ensures !r.MappedAt? ==> space.View() == old(space.View())
      ensures old(heap.Trusted()) ==> heap.Trusted()
      ensures stack.stranded <==> old(stack.stranded) || (r.MappedAt? && AtBreak(arg / 4096, heap.brk))
    {
      hide Genuine, KernelHeap.Clean, Scheduler.Valid, MemoryStack.Valid, Partition, NothingAbove, KernelHeap.Valid,
        Isolated, Clear, BootWords, Scheduler.M, SeatsOf, AddressSpace.View, Leaves.Flat, Owned, SameOutside, Grown,
        Unmapped, CanGrow, Scheduler.Counted, RoundRobin.Ok;
      Parts();
      ghost var m, ram, area := tasks.M(), space.ram[..], heap.Area();
      r := stack.CmdMap(arg);
      TasksStay(m, ram, area);
    }

    /** `unmap`: nor does any of this, unless it takes a page of the heap. */
    method Unmap(arg: u32) returns (r: UnmapResult)
      requires Valid()
      modifies space`mappedPages, space.ram, pmm, pmm.bitmap
      ensures Valid() <==> !r.Removed? || OutsideHeap(arg / 4096, heap.N())
      ensures Valid() ==> tasks.View() == old(tasks.View())
      ensures r.Removed? <==> arg / 4096 in old(space.View()).pages && space.Lim() <= arg / 4096
      ensures r.Removed? ==> arg / 4096 in old(space.View()).pages
                             && space.View() == Unmapped(old(space.View()), arg / 4096)
      ensures !r.Removed? ==> space.View() == old(space.View())
      ensures Valid() && old(heap.Trusted()) ==>
                (heap.Trusted() <==>
                 !r.Removed? || NoMagic(old(space.ram[..]), LeafFrame(old(space.View()), arg / 4096)))
    {
      hide Genuine, KernelHeap.Clean, NoMagic, Scheduler.Valid, MemoryStack.Valid, Partition, NothingAbove,
        KernelHeap.Valid, Isolated, Clear, BootWords, Scheduler.M, SeatsOf, AddressSpace.View, Leaves.Flat, Owned,
        SameOutside, Grown, Unmapped, CanGrow, Scheduler.Counted, RoundRobin.Ok;
      Parts();
      ghost var m, ram, area := tasks.M(), space.ram[..], heap.Area();
      r := stack.CmdUnmap(arg);
      if !r.Removed? || OutsideHeap(arg / 4096, heap.N()) {
        TasksStay(m, ram, area);
      }
    }

    /** `alloc` */
    method AllocFrame() returns (addr: u32)
      requires Valid()
      modifies stack`others, pmm, pmm.bitmap
      ensures Valid() && tasks.View() == old(tasks.View())
      ensures old(heap.Trusted()) ==> heap.Trusted()
      ensures addr == 4096 * Least(old(pmm.Free())) && pmm.Free() == Without(old(pmm.Free()), addr / 4096)
    {
      hide Genuine, KernelHeap.Clean, Scheduler.Valid, MemoryStack.Valid, Partition, NothingAbove, KernelHeap.Valid,
        Isolated, Clear, BootWords, Scheduler.M, SeatsOf, AddressSpace.View, Leaves.Flat, Owned, SameOutside, Grown,
        Unmapped, CanGrow, Scheduler.Counted, RoundRobin.Ok;
      Parts();
      ghost var m, ram, area := tasks.M(), space.ram[..], heap.Area();
      SameOutsideRefl(ram, area);
      addr := stack.CmdAlloc();
      TasksStay(m, ram, area);
    }

    /** `free`: harmless exactly when the frame was handed out, lost, or free, or is none. */
    method FreeFrame(addr: u32)
      requires Valid()
      modifies stack`others, pmm, pmm.bitmap
      ensures Valid() <==> addr == 0 || addr / 4096 >= pmm.total
                           || addr / 4096 in old(stack.others).raw + old(stack.others).lost + old(pmm.Free())
      ensures Valid() ==> tasks.View() == old(tasks.View())
      ensures old(heap.Trusted()) ==>
                (heap.Trusted() <==>
                 addr == 0 || addr / 4096 >= pmm.total || NoMagic(space.ram[..], addr / 4096))
      ensures pmm.Free() == if addr == 0 || addr / 4096 >= pmm.total then old(pmm.Free())
                            else With(old(pmm.Free()), addr / 4096)
    {
      hide Genuine, KernelHeap.Clean, NoMagic, Scheduler.Valid, MemoryStack.Valid, Partition, NothingAbove,
        KernelHeap.Valid, Isolated, Clear, BootWords, Scheduler.M, SeatsOf, AddressSpace.View, Leaves.Flat, Owned,
        SameOutside, Grown, Unmapped, CanGrow, Scheduler.Counted, RoundRobin.Ok;
      Parts();
      ghost var m, ram, area := tasks.M(), space.ram[..], heap.Area();
      SameOutsideRefl(ram, area);
      stack.CmdFree(addr);
      if addr == 0 || addr / 4096 >= pmm.total
         || addr / 4096 in old(stack.others).raw + old(stack.others).lost + old(pmm.Free()) {
        TasksStay(m, ram, area);
      }
    }

    /** Memory operations that respect the heap's words and the reserved frames
        respect the tasks. */
    lemma TasksStay(m: Machine, ram: seq<u32>, area: set<nat>)
      requires Wired() && stack.Valid() && BootReserved(tasks.bootLo, stack.others.reserved)
      requires tasks.tasks.Length == 8 && tasks.bootLo % 4 == 0 && tasks.bootLo + 16384 <= space.identityEnd
      requires Clear(tasks.bootLo, area) && SameOutside(ram, space.ram[..], area)
      requires m == Machine(tasks.tasks[..], heap.Flat(), heap.blocks, BootWords(ram, tasks.bootLo), tasks.bootLo,
                            tasks.image, tasks.saved)
      requires Isolated(m, tasks.current) && RoundRobin.Ok(tasks.Sched()) && tasks.Counted()
      ensures Valid() && tasks.Seats() == SeatsOf(m)
    {
      hide Scheduler.Valid, MemoryStack.Valid, Partition, KernelHeap.Valid, Isolated, Clear, BootWords, Scheduler.M,
        AddressSpace.View, Leaves.Flat, Owned, SameOutside, BootReserved, RoundRobin.Ok, Scheduler.Counted;
      StackParts(stack);
      StackPartition(stack);
      BootClear(space.View(), space.Dir(), space.Lim(), pmm.total, stack.others, tasks.bootLo);
      tasks.TasksStand(m, ram, area);
    }

    lemma HeapStands()
      requires Wired() && tasks.Valid()
      ensures heap.Valid()
    {
      hide KernelHeap.Valid, Isolated, Clear, RoundRobin.Ok, Owned, Scheduler.Counted;
    }
  }

  lemma StackPartition(stack: MemoryStack)
    requires stack.Valid()
    ensures Partition(stack.space.View(), stack.space.Dir(), stack.space.Lim(), stack.pmm.total, stack.others)
  {
    hide SpaceOk, TablesOf, PagesOf, Sound, Partition, Owned, FrameAllocator.Valid, WindowMapped, ListOk;
  }

  /** `kernel_main` up to the first interrupt: from the loader's memory map to a
      scheduler whose one task runs on the boot stack. Devices are left out. */
  method KernelMain(ram: array<u32>, hasMap: bool, mmapAddr: u32, mmapLength: u32, ghost es: seq<Entry>,
                    kernelEnd: u32, stackBottom: u32, taskExit: u32)
    returns (kernel: RunningKernel?)
    requires stackBottom % 4 == 0 && stackBottom + 16384 <= kernelEnd <= 0xF000_0000
    requires ram.Length == 1024 * (Tallied(hasMap, es).highest / 4096)
    requires hasMap ==> mmapAddr % 4 == 0 && mmapLength % 4 == 0 && (mmapAddr + mmapLength) / 4 <= ram.Length
    requires hasMap ==> ram[mmapAddr / 4..(mmapAddr + mmapLength) / 4] == Encode(es)
    modifies ram
    ensures var t := Tallied(hasMap, es);
      kernel != null <==> EnoughFrames(BootFree(t.regions, t.highest / 4096, kernelEnd), IdentityEnd(t.highest) / 4096)
    ensures kernel != null ==> kernel.Valid() && !kernel.stack.stranded && kernel.tasks.Sched() == INITIAL
    ensures kernel != null ==> var high, end := Tallied(hasMap, es).highest, kernel.space.identityEnd;
      && (high == 0 || high >= 0x100_0000 ==> end == 0x100_0000)
      && (0 < high < 0x100_0000 ==> end % 4096 == 0 && end <= high < end + 4096)
    ensures kernel != null ==>
              forall addr: u32 | addr < kernel.space.identityEnd ::
                Translation(kernel.space.View().pages, addr) == addr
    ensures kernel != null ==> kernel.heap.blocks == [Block(16380, true)] && kernel.heap.brk == 0xC001_0000
    ensures kernel != null ==> kernel.tasks.cpu.esp == stackBottom + 16384 && kernel.tasks.Room(4096)
    ensures var t := Tallied(hasMap, es); var free := BootFree(t.regions, t.highest / 4096, kernelEnd);
      kernel != null && Absent(old(ram[..]), free, BLOCK_MAGIC) ==> kernel.heap.Trusted()
  {
    hide EnoughFrames, BootFree, CountAll, Encode, KernelHeap.Valid, MemoryStack.Valid, Clear, IdentityEnd,
      Scheduler.Valid, Owned, BootReserved, Absent, KernelHeap.Trusted;
    var ok, stack := StartMemory(ram, hasMap, mmapAddr, mmapLength, es, kernelEnd);
    kernel := null;
    if ok {
      StackParts(stack);
      BootStackSafe(stack, Tallied(hasMap, es).regions, kernelEnd, stackBottom);
      IdentityStands(stack);
      var tasks := StartTasks(stack.heap, stackBottom, taskExit);
      kernel := new RunningKernel(stack, tasks);
    }
  }

  lemma IdentityStands(stack: MemoryStack)
    requires stack.Valid()
    ensures forall addr: u32 | addr < stack.space.identityEnd ::
              Translation(stack.space.View().pages, addr) == addr
  {
    hide MemoryStack.Valid, AddressSpace.View, Translation;
    forall addr: u32 | addr < stack.space.identityEnd
      ensures Translation(stack.space.View().pages, addr) == addr
    {
      stack.SelfHosted(addr);
    }
  }

  lemma StackParts(stack: MemoryStack)
    requires stack.Valid()
    ensures stack.heap.Valid() && stack.heap.space == stack.space && stack.space.pmm == stack.pmm
  {
    hide SpaceOk, TablesOf, PagesOf, Sound, Partition, Owned, FrameAllocator.Valid, WindowMapped, ListOk;
  }
}
