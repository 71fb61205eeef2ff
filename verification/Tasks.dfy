/** Tasks: `task.c` and the context switch of `switch.asm`, on stacks that are
    words of the same memory the heap and the page tables live in. */
module Tasks {
  import opened Words
  import opened Pmm
  import opened PageTables
  import opened Leaves
  import opened Paging
  import opened Blocks
  import opened HeapWords
  import opened HeapSteps
  import opened Forgery
  import opened Heap
  import opened RoundRobin
  import opened Stacks
  import opened TaskRuns
  import opened TaskTable

  /** The 16 KB boot stack at address `lo` of physical memory. */
  ghost function BootWords(m: seq<u32>, lo: u32): seq<u32> {
    if lo / 4 + 4096 <= |m| then m[lo / 4..lo / 4 + 4096] else []
  }

  /** The boot stack shares no frame with the heap or with paging. */
  ghost predicate Clear(lo: u32, fs: set<nat>) {
    forall j: nat | lo / 4 <= j < lo / 4 + 4096 :: j / 1024 !in fs
  }

  lemma BootKept(m: seq<u32>, m': seq<u32>, fs: set<nat>, gs: set<nat>, lo: u32)
    requires SameOutside(m, m', fs) && Clear(lo, gs) && fs <= gs
    ensures BootWords(m', lo) == BootWords(m, lo)
  {
  }

  lemma ClearStays(lo: u32, fs: set<nat>, gs: set<nat>)
    requires Clear(lo, fs) && gs <= fs
    ensures Clear(lo, gs)
  {
  }

  /** A store below the identity end, outside the frames of heap and paging. */
  lemma LowStore(m: seq<u32>, a: AddressMap, dir: nat, lim: nat, total: nat, n: nat, addr: u32, v: u32)
    requires Sound(a, dir, lim, total) && lim <= 4096 && lim <= total && |m| == 1024 * total
    requires addr % 4 == 0 && addr / 4096 < lim && addr / 4096 !in Owned(a, dir, lim)
    requires n <= 0x10_0000 && WindowMapped(a.pages, n)
    ensures Translation(a.pages, addr) == addr && addr / 4 < |m| && addr / 4 / 1024 == addr / 4096
    ensures SameOutside(m, m[addr / 4 := v], {addr / 4096})
    ensures addr / 4096 !in a.free + a.tables.Values + {dir}
    ensures Leaves.Flat(m[addr / 4 := v], a.pages, n) == Leaves.Flat(m, a.pages, n)
  {
    assert a.pages[addr / 4096] == 4096 * (addr / 4096) + 3;
    var f := addr / 4096;
    forall i: nat | i < n ensures LeafFrameOf(a.pages, i) !in {f} {
      assert i / 1024 < n / 1024;
      var vp := 0xC_0000 + i / 1024;
      assert vp in a.pages && LeafFrame(a, vp) == LeafFrameOf(a.pages, i);
      assert LeafFrame(a, vp) in LeafFrames(a, lim);
    }
    assert SameWindow(a.pages, a.pages, n);
    FlatSame(m, m[addr / 4 := v], a, a, dir, lim, total, n, {f});
  }

  lemma BootWordAt(m: seq<u32>, lo: u32, k: nat, addr: u32, v: u32)
    requires lo % 4 == 0 && addr == lo + 4 * k && k < 4096 && lo / 4 + 4096 <= |m|
    ensures addr % 4 == 0 && addr / 4 == lo / 4 + k && |BootWords(m, lo)| == 4096
    ensures m[addr / 4] == BootWords(m, lo)[k]
    ensures BootWords(m[addr / 4 := v], lo) == BootWords(m, lo)[k := v]
  {
  }

  /** Stack word `k` of a task with a heap stack. */
  lemma StackWordAt(m: Machine, on: nat, k: nat)
    requires Isolated(m, on) && Used(m, on) && on != 0 && k < |StackOf(m, on)|
    ensures StackOk(m.bs, StackAt(m.ts[on])) && |StackOf(m, on)| == 2048
    ensures InPayload(m.bs, 0, StackAt(m.ts[on]) + k) && StackAt(m.ts[on]) + k < |m.h|
    ensures StackOf(m, on)[k] == m.h[StackAt(m.ts[on]) + k]
    ensures Base(m, on) + 4 * k == Addr(StackAt(m.ts[on]) + k)
    ensures forall i | 0 < i < 8 && Used(m, i) && i != on :: StackAt(m.ts[i]) != StackAt(m.ts[on])
  {
    StackInHeap(m.h, m.bs, StackAt(m.ts[on]));
  }

  class Scheduler {
    const heap: KernelHeap
    const space: AddressSpace
    const pmm: FrameAllocator
    const tasks: array<Task>
    /** Where the boot stack starts, and the address of `task_exit`. */
    const bootLo: u32
    const taskExit: u32
    var current: nat
    var enabled: bool
    var switches: u32
    var quantumLeft: nat
    /** The registers of the processor; `esp` is the real stack pointer. */
    var cpu: Context
    ghost var image: seq<seq<u32>>
    ghost var saved: seq<Context>
    /** How often the counters have wrapped, and the slices of tasks long gone. */
    ghost var laps: int
    ghost var retired: nat

    /** The static data of the scheduler, and the stack pointer that `_start` loads. */
    constructor (h: KernelHeap, lo: u32, exit: u32)
      ensures heap == h && space == h.space && pmm == h.space.pmm && bootLo == lo && taskExit == exit
      ensures fresh(tasks) && tasks.Length == 8 && forall i | 0 <= i < 8 :: tasks[i] == NO_TASK
      ensures current == 0 && !enabled && switches == 0 && quantumLeft == TASK_QUANTUM
      ensures cpu == Fresh(0).(esp := Add32(lo, 16384))
      ensures |image| == 8 && |saved| == 8 && laps == 0 && retired == 0
    {
      heap, space, pmm, bootLo, taskExit := h, h.space, h.space.pmm, lo, exit;
      tasks := new Task[8](i => NO_TASK);
      current, enabled, switches, quantumLeft := 0, false, 0, TASK_QUANTUM;
      cpu := Fresh(0).(esp := Add32(lo, 16384));
      laps, retired := 0, 0;
      image, saved := [[], [], [], [], [], [], [], []], [cpu, cpu, cpu, cpu, cpu, cpu, cpu, cpu];
    }

    ghost function M(): Machine
      reads this`image, this`saved, tasks, heap`brk, heap`blocks, space, space.ram, pmm, pmm.bitmap
    {
      if heap.space == space && space.pmm == pmm then
        Machine(tasks[..], heap.Flat(), heap.blocks, BootWords(space.ram[..], bootLo), bootLo, image, saved)
      else Machine([], [], [], [], 0, [], [])
    }

    ghost predicate BootSafe()
      reads space, space.ram, pmm, pmm.bitmap
    {
      && heap.space == space && space.pmm == pmm
      && bootLo % 4 == 0 && bootLo + 16384 <= space.identityEnd && Clear(bootLo, heap.Area())
    }

    /** The memory is sound and the tasks are isolated; the processor is on the
        stack of task `on`. */
    ghost predicate Memory(on: nat)
      reads this`image, this`saved, tasks, heap, space, space.ram, pmm, pmm.bitmap
    {
      BootSafe() && heap.Valid() && tasks.Length == 8 && Isolated(M(), on)
    }

    ghost function Sched(): Sched
      reads this`current, this`quantumLeft, this`enabled, tasks
    {
      RoundRobin.Sched.Sched(States(tasks[..]), current, quantumLeft, enabled)
    }

    /** One more switch than tasks were switched to since the start: task 0 began
        without one. */
    ghost predicate Counted()
      reads this`switches, this`laps, this`retired, tasks
    {
      switches + 1 + 0x1_0000_0000 * laps == SliceSum(tasks[..]) + retired
    }

    ghost predicate Valid()
      reads this, tasks, heap, space, space.ram, pmm, pmm.bitmap
    {
      Memory(current) && RoundRobin.Ok(Sched()) && Counted()
    }

    /** No task has its stack at heap word `w`. */
    ghost predicate Spare(w: nat)
      reads tasks
    {
      forall i | 0 < i < 8 && i < tasks.Length && tasks[i].state != Unused :: StackAt(tasks[i]) != w
    }

    /** The stack pointer is on the current stack with room for a context below
        it: no stack has overrun. */
    ghost predicate Room(k: nat)
      reads this`cpu, this`current, this`image, this`saved, tasks, heap`brk, heap`blocks, space, space.ram, pmm,
        pmm.bitmap
    {
      10 <= k <= |StackOf(M(), current)| && cpu.esp == Base(M(), current) + 4 * k
    }

    ghost function Seats(): (ss: seq<Seat>)
      reads this`image, this`saved, tasks, heap`brk, heap`blocks, space, space.ram, pmm, pmm.bitmap
      ensures |ss| == 8
    {
      SeatsOf(M())
    }

    /** What the tasks see. */
    ghost function View(): TaskView
      reads this`cpu, this`current, this`quantumLeft, this`enabled, this`image, this`saved
      reads tasks, heap`brk, heap`blocks, space, space.ram, pmm, pmm.bitmap
    {
      TaskView(Sched(), cpu, Seats())
    }

    lemma BootFits()
      requires BootSafe() && heap.Valid()
      ensures bootLo / 4 + 4096 <= space.ram.Length && space.Lim() <= pmm.total && space.ram.Length == 1024 * pmm.total
      ensures forall k: nat | k < 4096 :: (bootLo + 4 * k) / 4096 < space.Lim() && (bootLo + 4 * k) / 4096 !in heap.Area()
    {
      hide Sound, WindowMapped, TablesOf, PagesOf, ListOk, Owned, Leaves.Flat;
      forall k: nat | k < 4096 ensures (bootLo + 4 * k) / 4096 < space.Lim() && (bootLo + 4 * k) / 4096 !in heap.Area() {
        assert (bootLo / 4 + k) / 1024 == (bootLo + 4 * k) / 4096;
      }
    }

    lemma MachineSize(on: nat)
      requires Memory(on)
      ensures heap.space == space && space.pmm == pmm
      ensures tasks.Length == 8 && |image| == 8 && |saved| == 8 && bootLo < 0x100_0000
      ensures M() == Machine(tasks[..], heap.Flat(), heap.blocks, BootWords(space.ram[..], bootLo), bootLo, image, saved)
    {
      hide SpaceOk, TablesOf, PagesOf, Sound, ListOk, Leaves.Flat, Coalesced, WindowMapped, Owned, BootWords,
        StackWords, StackOk, Clear;
    }

    lemma CurrentIsUsed()
      requires Valid()
      ensures current < 8 && tasks.Length == 8 && Used(M(), current) && tasks[current].state != Unused
    {
      hide BootSafe, KernelHeap.Valid, Isolated;
      MachineSize(current);
    }

    /** The boot stack lies below the heap window, every other stack in it. */
    lemma StackRegion(on: nat, k: nat)
      requires Memory(on) && Used(M(), on) && k < |StackOf(M(), on)|
      ensures on == 0 <==> Base(M(), on) + 4 * k < 0xC000_0000
      ensures on == 0 ==> k < 4096 && Base(M(), on) == bootLo
      ensures ListOk(heap.Flat(), heap.blocks)
    {
      hide SpaceOk, TablesOf, PagesOf, Sound, ListOk, Leaves.Flat, Coalesced, WindowMapped, Owned, BootWords,
        StackWords, StackOk, Clear;
    }

    /** A store to memory that is mapped to itself. */
    method StoreLow(addr: u32, v: u32)
      requires heap.space == space && space.pmm == pmm && heap.Valid()
      requires addr % 4 == 0 && addr / 4096 < space.Lim() <= pmm.total && addr / 4096 !in heap.Area()
      modifies space.ram
      ensures heap.Valid() && heap.Flat() == old(heap.Flat()) && space.View() == old(space.View())
      ensures addr / 4 < space.ram.Length && space.ram[..] == old(space.ram[..])[addr / 4 := v]
      ensures old(heap.Clean()) ==> heap.Clean()
    {
      hide SpaceOk, TablesOf, PagesOf, FrameAllocator.Valid, FreeSet, Sound, ListOk, Leaves.Flat, Coalesced,
        WindowMapped, SameOutside, Translation, Owned, Absent;
      ghost var m, a := space.ram[..], space.View();
      LowStore(m, a, space.Dir(), space.Lim(), pmm.total, heap.N(), addr, v);
      SpaceSame(m, m[addr / 4 := v], space.Dir(), space.Lim(), pmm.Free(), space.tableCount, space.mappedPages,
        {addr / 4096});
      StillAbsent(m, m[addr / 4 := v], a.free, {addr / 4096}, BLOCK_MAGIC);
      var phys := space.Translate(addr);
      Paging.Store(space.ram, phys / 4, v);
    }

    /** Since the heap's words were `h0` only those on the stack of task `on` have
        changed, and free frames that were clean still are. */
    ghost predicate Tends(h0: seq<u32>, clean: bool, on: nat)
      reads tasks, heap`brk, heap.space, heap.space.ram, heap.space.pmm, heap.space.pmm.bitmap
    {
      OwnOnly(h0, heap.Flat(), tasks[..], on) && (clean ==> heap.Clean())
    }

    /** A store to word `k` of the stack of task `on`. */
    method Store(addr: u32, v: u32, ghost on: nat, ghost k: nat, ghost h0: seq<u32>, ghost clean: bool)
      requires Memory(on) && Used(M(), on) && k < |StackOf(M(), on)| && addr == Base(M(), on) + 4 * k
      requires Tends(h0, clean, on)
      modifies space.ram
      ensures Memory(on) && space.View() == old(space.View())
      ensures Used(M(), on) && Base(M(), on) == old(Base(M(), on))
      ensures StackOf(M(), on) == old(StackOf(M(), on))[k := v]
      ensures Tends(h0, clean, on)
    {
      hide SpaceOk, TablesOf, PagesOf, FrameAllocator.Valid, FreeSet, Sound, ListOk, Leaves.Flat, Coalesced,
        WindowMapped, SameOutside, Isolated, Owned, KernelHeap.Backed, BootWords, StackOk, StackWords, Clear, OwnOnly,
        KernelHeap.Clean;
      ghost var m, ram := M(), space.ram[..];
      BootFits();
      StackRegion(on, k);
      if addr >= 0xC000_0000 {
        StackWordAt(m, on, k);
        HeapStackPoked(m, on, StackAt(m.ts[on]), k, v);
        OwnStore(h0, heap.Flat(), m.ts, on, k, v);
        heap.Poke(addr, v, StackAt(m.ts[on]) + k);
        BootKept(ram, space.ram[..], heap.LeafArea(), heap.Area(), bootLo);
      } else {
        BootWordAt(ram, bootLo, k, addr, v);
        BootStackPoked(m, k, v);
        StoreLow(addr, v);
      }
    }

    /** A load from it. */
    method Load(addr: u32, ghost on: nat, ghost k: nat) returns (v: u32)
      requires Memory(on) && Used(M(), on) && k < |StackOf(M(), on)| && addr == Base(M(), on) + 4 * k
      ensures v == StackOf(M(), on)[k]
    {
      hide SpaceOk, TablesOf, PagesOf, FrameAllocator.Valid, FreeSet, Sound, ListOk, Leaves.Flat, Coalesced,
        WindowMapped, SameOutside, Isolated, Owned, KernelHeap.Backed, BootWords, StackOk, StackWords, Clear,
        Translation;
      ghost var m := M();
      BootFits();
      StackRegion(on, k);
      if addr >= 0xC000_0000 {
        StackWordAt(m, on, k);
        v := heap.Peek(addr, StackAt(m.ts[on]) + k);
      } else {
        BootWordAt(space.ram[..], bootLo, k, addr, 0);
        LowAddress(addr);
        var phys := space.Translate(addr);
        v := space.ram[phys / 4];
      }
    }

    lemma LowAddress(addr: u32)
      requires heap.space == space && space.pmm == pmm && heap.Valid()
      requires addr % 4 == 0 && addr / 4096 < space.Lim() <= pmm.total && addr / 4096 !in heap.Area()
      ensures Translation(space.View().pages, addr) == addr && space.Valid()
    {
      hide SpaceOk, TablesOf, PagesOf, Sound, ListOk, Leaves.Flat, Coalesced, WindowMapped, SameOutside, Owned;
      LowStore(space.ram[..], space.View(), space.Dir(), space.Lim(), pmm.total, heap.N(), addr, 0);
    }

    // ---- the context switch ----

    /** `push` */
    method Push(v: u32, ghost on: nat, ghost k: nat, ghost h0: seq<u32>, ghost clean: bool)
      requires Memory(on) && Used(M(), on) && 0 < k <= |StackOf(M(), on)| && cpu.esp == Base(M(), on) + 4 * k
      requires Tends(h0, clean, on)
      modifies this`cpu, space.ram
      ensures Memory(on) && space.View() == old(space.View())
      ensures cpu == old(cpu).(esp := old(cpu).esp - 4)
      ensures Used(M(), on) && Base(M(), on) == old(Base(M(), on))
      ensures StackOf(M(), on) == old(StackOf(M(), on))[k - 1 := v]
      ensures Tends(h0, clean, on)
    {
      hide Memory, StackOf, Base, Used, Tends;
      cpu := cpu.(esp := cpu.esp - 4);
      Store(cpu.esp, v, on, k - 1, h0, clean);
    }

    /** `pop` */
    method Pop(ghost on: nat, ghost k: nat) returns (v: u32)
      requires Memory(on) && Used(M(), on) && k < |StackOf(M(), on)| && cpu.esp == Base(M(), on) + 4 * k
      requires cpu.esp < 0xFFFF_FFFC
      modifies this`cpu
      ensures v == StackOf(M(), on)[k] && cpu == old(cpu).(esp := old(cpu).esp + 4)
    {
      hide Memory, StackOf, Base, Used;
      v := Load(cpu.esp, on, k);
      cpu := cpu.(esp := cpu.esp + 4);
    }

    /** `pusha` */
    method PushAll(ghost on: nat, ghost k: nat, ghost h0: seq<u32>, ghost clean: bool)
      requires Memory(on) && Used(M(), on) && 8 <= k <= |StackOf(M(), on)| && cpu.esp == Base(M(), on) + 4 * k
      requires Tends(h0, clean, on)
      modifies this`cpu, space.ram
      ensures Memory(on) && space.View() == old(space.View())
      ensures Used(M(), on) && Base(M(), on) == old(Base(M(), on))
      ensures cpu == old(cpu).(esp := old(cpu).esp - 32)
      ensures StackOf(M(), on) == PushedRegisters(old(StackOf(M(), on)), k, old(cpu))
      ensures Tends(h0, clean, on)
    {
      hide M, AddressSpace.View, Memory, StackOf, Base, Used, Tends;
      var sp := cpu.esp;
      Push(cpu.eax, on, k, h0, clean);
      Push(cpu.ecx, on, k - 1, h0, clean);
      Push(cpu.edx, on, k - 2, h0, clean);
      Push(cpu.ebx, on, k - 3, h0, clean);
      Push(sp, on, k - 4, h0, clean);
      Push(cpu.ebp, on, k - 5, h0, clean);
      Push(cpu.esi, on, k - 6, h0, clean);
      Push(cpu.edi, on, k - 7, h0, clean);
    }

    method PushContext(ret: u32, ghost on: nat, ghost k: nat, ghost h0: seq<u32>, ghost clean: bool)
      requires Memory(on) && Used(M(), on) && 10 <= k <= |StackOf(M(), on)| && cpu.esp == Base(M(), on) + 4 * k
      requires Tends(h0, clean, on)
      modifies this`cpu, space.ram
      ensures Memory(on) && space.View() == old(space.View())
      ensures Used(M(), on) && Base(M(), on) == old(Base(M(), on))
      ensures cpu.esp == old(cpu).esp - 40
      ensures StackOf(M(), on) == Pushed(old(StackOf(M(), on)), k, Leaving(old(cpu), ret))
      ensures Tends(h0, clean, on)
    {
      hide M, AddressSpace.View, Memory, StackOf, Base, Used, PushedRegisters, Tends;
      Push(ret, on, k, h0, clean);
      PushAll(on, k - 1, h0, clean);
      OtherRegisters(old(StackOf(M(), on))[k - 1 := ret], k - 1, old(cpu).(esp := old(cpu).esp - 4),
        old(cpu).(esp := old(cpu).esp - 4, eip := ret));
      Push(cpu.eflags, on, k - 9, h0, clean);
    }

    /** The `call`, `pusha` and `pushfd` of a switch away from task `on`. */
    method SaveContext(ret: u32, ghost on: nat, ghost k: nat)
      requires Memory(on) && Used(M(), on) && 10 <= k <= |StackOf(M(), on)| && cpu.esp == Base(M(), on) + 4 * k
      requires tasks.Length == 8 && on < 8
      modifies this`cpu, space.ram
      ensures Memory(on) && space.View() == old(space.View())
      ensures Used(M(), on) && Base(M(), on) == old(Base(M(), on))
      ensures cpu.esp == old(cpu).esp - 40
      ensures StackOf(M(), on) == Pushed(old(StackOf(M(), on)), k, Leaving(old(cpu), ret))
      ensures old(heap.Trusted()) ==>
                (heap.Trusted() <==>
                 on == 0 || old(SwitchSpares(heap.Flat(), StackAt(tasks[on]), StackOf(M(), on), k, Leaving(cpu, ret))))
    {
      hide BootSafe, KernelHeap.Valid, Isolated, StackOf, Base, AddressSpace.View, Pushed, Leaves.Flat, BootWords, M,
        Tends, KernelHeap.Clean, OwnOnly, Genuine, Live, SwitchSpares;
      ghost var m, h, clean := M(), heap.Flat(), heap.Clean();
      MachineSize(on);
      Untouched(on);
      PushContext(ret, on, k, h, clean);
      Tended(h, clean, on);
      MachineSize(on);
      if on != 0 {
        StackIs(M(), on);
      }
      if Genuine(h, Live(heap.blocks, 0)) {
        OwnPushed(m, heap.Flat(), on, k, Leaving(old(cpu), ret));
      }
    }

    /** `popa`: the stored stack pointer is skipped. */
    method PopAll(ghost on: nat, ghost k: nat, ghost c: Context)
      requires Memory(on) && Used(M(), on) && RegistersAt(StackOf(M(), on), k, c) && cpu.esp == Base(M(), on) + 4 * k
      requires cpu.esp < 0xF000_0000
      modifies this`cpu
      ensures cpu == c.(esp := old(cpu).esp + 32, eflags := old(cpu).eflags, eip := old(cpu).eip)
    {
      hide M, AddressSpace.View, Memory, StackOf, Base, Used;
      var edi := Pop(on, k);
      var esi := Pop(on, k + 1);
      var ebp := Pop(on, k + 2);
      cpu := cpu.(esp := cpu.esp + 4);
      var ebx := Pop(on, k + 4);
      var edx := Pop(on, k + 5);
      var ecx := Pop(on, k + 6);
      var eax := Pop(on, k + 7);
      cpu := cpu.(edi := edi, esi := esi, ebp := ebp, ebx := ebx, edx := edx, ecx := ecx, eax := eax);
    }

    /** The `popfd`, `popa` and `ret` of a switch to task `on`. */
    method RestoreContext(ghost on: nat, ghost k: nat, ghost c: Context)
      requires Memory(on) && Used(M(), on) && FrameAt(StackOf(M(), on), k, c) && cpu.esp == Base(M(), on) + 4 * k
      requires cpu.esp < 0xE000_0000
      modifies this`cpu
      ensures cpu == c.(esp := old(cpu).esp + 40)
    {
      hide M, AddressSpace.View, Memory, StackOf, Base, Used, FrameAt, RegistersAt;
      FrameSlots(StackOf(M(), on), k, c);
      var eflags := Pop(on, k);
      PopAll(on, k + 1, c);
      var eip := Pop(on, k + 9);
      cpu := cpu.(eflags := eflags, eip := eip);
    }

    method SetTask(i: nat, t: Task)
      requires i < tasks.Length
      modifies tasks
      ensures tasks[..] == old(tasks[..])[i := t]
    {
      tasks[i] := t;
    }

    /** `context_switch`, called by `switch_to` with return address `ret`. */
    method ContextSwitch(prev: nat, next: nat, newEsp: u32, ret: u32, ghost k: nat)
      requires tasks.Length == 8 && |image| == 8 && |saved| == 8 && prev < 8 && next < 8 && prev != next
      requires Memory(prev) && tasks[prev].state != Unused && tasks[next].state != Unused && newEsp == tasks[next].esp
      requires 10 <= k <= |StackOf(M(), prev)| && cpu.esp == Base(M(), prev) + 4 * k
      modifies this`cpu, this`image, this`saved, tasks, space.ram
      ensures Memory(next) && space.View() == old(space.View())
      ensures tasks[..] == old(tasks[..])[prev := old(tasks[prev]).(esp := Sub32(old(cpu).esp, 40))]
      ensures saved == old(saved)[prev := Leaving(old(cpu), ret)]
      ensures image == old(image)[prev := Pushed(old(StackOf(M(), prev)), k, Leaving(old(cpu), ret))]
      ensures Seats() == old(Seats())[prev := Left(old(Seats())[prev], old(cpu), ret)]
      ensures cpu == Entered(old(Seats())[next])
      ensures States(tasks[..]) == States(old(tasks[..])) && SliceSum(tasks[..]) == SliceSum(old(tasks[..]))
      ensures old(heap.Trusted()) ==>
                (heap.Trusted() <==>
                 prev == 0
                 || old(SwitchSpares(heap.Flat(), StackAt(tasks[prev]), StackOf(M(), prev), k, Leaving(cpu, ret))))
    {
      hide BootSafe, KernelHeap.Valid, Isolated, StackOf, Base, AddressSpace.View, FrameAt, Pushed, Leaves.Flat,
        BootWords, M, KernelHeap.Trusted, SwitchSpares, States, SliceSum, Left, Entered, SeatsOf, Resumed;
      ghost var m0, c0, c := M(), cpu, Leaving(cpu, ret);
      StatesSet(tasks[..], prev, tasks[prev].(esp := Sub32(cpu.esp, 40)));
      SliceSumSet(tasks[..], prev, tasks[prev].(esp := Sub32(cpu.esp, 40)));
      SameState(tasks[..], prev);
      MachineSize(prev);
      PushedFrame(StackOf(M(), prev), k, c);
      SaveContext(ret, prev, k);
      MachineSize(prev);
      ghost var m := M();
      ghost var s := StackOf(m, prev);
      ParkedNow(m, prev, cpu.esp, k - 10, c);
      TaskLeft(m, prev, cpu.esp, c, next);
      ghost var j := ParkedSpot(m, prev, next);
      SetTask(prev, tasks[prev].(esp := cpu.esp));
      image, saved := image[prev := s], saved[prev := c];
      cpu := cpu.(esp := newEsp);
      SameMachine();
      assert M() == m.(ts := tasks[..], image := image, saved := saved);
      RestoreContext(next, j, m.saved[next]);
      ResumedAt(m.saved[next], newEsp);
      Swapped(m0, M(), prev, next, c0, ret, k);
    }

    lemma StackIs(m: Machine, on: nat)
      requires |m.ts| == 8 && 0 < on < 8
      ensures StackOf(m, on) == StackWords(m.h, StackAt(m.ts[on]))
    {
    }

    lemma Untouched(on: nat)
      ensures Tends(heap.Flat(), heap.Clean(), on)
    {
    }

    lemma Tended(h0: seq<u32>, clean: bool, on: nat)
      requires Tends(h0, clean, on)
      ensures OwnOnly(h0, heap.Flat(), tasks[..], on) && (clean ==> heap.Clean())
    {
    }

    lemma ResumedAt(c: Context, esp: u32)
      requires esp < 0xE000_0000
      ensures Resumed(c, esp) == c.(esp := esp + 40)
    {
    }

    lemma SameMachine()
      requires heap.space == space && space.pmm == pmm
      ensures M() == Machine(tasks[..], heap.Flat(), heap.blocks, BootWords(space.ram[..], bootLo), bootLo, image, saved)
    {
    }

    /** A used slot's state, counters or, for the task on the processor, stack
        pointer rewritten. */
    method Relabel(i: nat, t: Task, ghost on: nat)
      requires tasks.Length == 8 && i < 8
      requires Memory(on) && tasks[i].state != Unused && t.state != Unused
      requires t.stackBase == tasks[i].stackBase && t.esp == tasks[i].esp
      modifies tasks
      ensures Memory(on) && tasks[..] == old(tasks[..])[i := t]
      ensures StackOf(M(), on) == old(StackOf(M(), on)) && Base(M(), on) == old(Base(M(), on))
      ensures Seats() == old(Seats())
      ensures States(tasks[..]) == States(old(tasks[..]))[i := t.state]
      ensures SliceSum(tasks[..]) == SliceSum(old(tasks[..])) - old(tasks[i]).slices + t.slices
    {
      hide BootSafe, KernelHeap.Valid, Isolated, StackOf, Base, AddressSpace.View, Leaves.Flat, BootWords, M, States,
        SliceSum, SeatsOf;
      MachineSize(on);
      ghost var m := M();
      Relabelled(m, on, i, t);
      StatesSet(tasks[..], i, t);
      SliceSumSet(tasks[..], i, t);
      SetTask(i, t);
      SameMachine();
      assert M() == m.(ts := tasks[..]);
      SeatsKept(m, M(), on);
    }

    /** The task left is ready, unless it is dead. */
    method StopRunning()
      requires tasks.Length == 8 && current < 8 && Memory(current) && tasks[current].state != Unused
      modifies tasks
      ensures Memory(current)
      ensures tasks[..] ==
              old(tasks[..])[current := old(tasks[current]).(state := if old(tasks[current]).state == Running then Ready
                                                                     else old(tasks[current]).state)]
      ensures StackOf(M(), current) == old(StackOf(M(), current)) && Base(M(), current) == old(Base(M(), current))
      ensures Seats() == old(Seats())
      ensures States(tasks[..]) == States(old(tasks[..]))[current := tasks[current].state]
      ensures SliceSum(tasks[..]) == SliceSum(old(tasks[..]))
    {
      hide StackOf, Base, M, Memory, SliceSum, Seats;
      if tasks[current].state == Running {
        Relabel(current, tasks[current].(state := Ready), current);
      }
    }

    /** `switch_to` up to the change of stacks: the table already says that `next`
        runs, while the processor is still on the stack of the task before. */
    method Claim(next: nat)
      requires tasks.Length == 8 && current < 8 && next < 8 && next != current
      requires Valid() && Runnable(tasks[next].state)
      modifies this`current, this`switches, this`quantumLeft, this`laps, tasks
      ensures tasks.Length == 8 && Memory(old(current)) && current == next
      ensures tasks[old(current)].state != Unused && tasks[next].state != Unused
      ensures tasks[next].esp == old(tasks[next]).esp
      ensures StackOf(M(), old(current)) == old(StackOf(M(), current))
      ensures Base(M(), old(current)) == old(Base(M(), current))
      ensures Seats() == old(Seats())
      ensures tasks[old(current)].stackBase == old(tasks[current].stackBase)
      ensures Sched() == SwitchedTo(old(Sched()), next) && Counted() && switches == Add32(old(switches), 1)
      ensures tasks[next] == old(tasks[next]).(state := Running, slices := Add32(old(tasks[next]).slices, 1))
      ensures forall i | 0 <= i < 8 && i != next :: tasks[i] == old(tasks[i]).(state := tasks[i].state)
    {
      hide StackOf, Base, M, Memory, SliceSum, Seats;
      var prev := current;
      StopRunning();
      current := next;
      var slices := tasks[next].slices;
      Relabel(next, tasks[next].(state := Running, slices := Add32(slices, 1)), prev);
      laps := laps + (if switches == 0xFFFF_FFFF then 1 else 0) - if slices == 0xFFFF_FFFF then 1 else 0;
      switches := Add32(switches, 1);
      quantumLeft := TASK_QUANTUM;
    }

    /** What the running task leaves on its stack when it is switched out spares the
        heap's headers; task 0 is on a stack outside the heap. */
    ghost predicate LeavesSparing(ret: u32, k: nat)
      reads this, tasks, heap`brk, heap`blocks, space, space.ram, pmm, pmm.bitmap, heap.space, heap.space.ram,
        heap.space.pmm, heap.space.pmm.bitmap
    {
      current == 0
      || (current < tasks.Length
          && SwitchSpares(heap.Flat(), StackAt(tasks[current]), StackOf(M(), current), k, Leaving(cpu, ret)))
    }

    /** `switch_to`: the task left is parked with its registers, and the one
        switched to goes on with those it was parked with, on its own stack. */
    method SwitchTo(next: int, ret: u32, ghost k: nat)
      requires tasks.Length == 8 && |image| == 8 && |saved| == 8 && current < 8 && -1 <= next < 8
      requires Valid() && Room(k) && (next >= 0 ==> Runnable(tasks[next].state))
      modifies this, tasks, space.ram
      ensures Valid() && Sched() == SwitchedTo(old(Sched()), next)
      ensures space.View() == old(space.View())
      ensures switches == Add32(old(switches), if next >= 0 && next != old(current) then 1 else 0)
      ensures forall i | 0 <= i < 8 ::
                tasks[i] == old(tasks[i]).(state := tasks[i].state, esp := tasks[i].esp,
                                           slices := Add32(old(tasks[i]).slices,
                                                           if i == next != old(current) then 1 else 0))
      ensures Shape(old(View())) && View() == SwitchView(old(View()), next, ret)
      ensures old(heap.Trusted()) ==>
                (heap.Trusted() <==> current == old(current) || old(LeavesSparing(ret, k)))
    {
      hide StackOf, Base, M, Memory, SliceSum, Pushed, Seats, Left, Entered, SwitchSpares, KernelHeap.Trusted;
      if next < 0 || next == current {
        return;
      }
      SwitchKeeps(Sched(), next);
      var prev := current;
      Claim(next);
      ContextSwitch(prev, next, tasks[next].esp, ret, k);
    }

    /** `pick_next` */
    method PickNext() returns (i: int)
      requires tasks.Length == 8 && current < 8
      ensures i == Pick(States(tasks[..]), current, 1)
    {
      for step := 1 to 9
        invariant Pick(States(tasks[..]), current, 1) == Pick(States(tasks[..]), current, step)
      {
        i := (current + step) % 8;
        if tasks[i].state == Ready || tasks[i].state == Running {
          return;
        }
      }
      return -1;
    }

    /** `reap` of one slot: its stack goes back to the heap, which takes it. */
    method ReapOne(i: nat)
      requires tasks.Length == 8 && 0 < i < 8 && i != current
      requires Valid() && tasks[i].state == Dead
      modifies tasks, heap`blocks, space.ram
      ensures Valid() && Sched() == old(Sched()).(states := old(Sched()).states[i := Unused])
      ensures space.View() == old(space.View())
      ensures tasks[..] == old(tasks[..])[i := old(tasks[i]).(stackBase := 0, state := Unused)]
      ensures Seats() == old(Seats())[i := Vacant]
      ensures old(heap.Trusted()) ==> heap.Trusted()
      ensures 0 < current ==>
                (BehindStack(heap.Flat(), StackAt(tasks[current]))
                 <==> old(BehindStack(heap.Flat(), StackAt(tasks[current]))))
      ensures old(heap.IsLive(tasks[i].stackBase)) && !heap.IsLive(old(tasks[i].stackBase))
      ensures StackOf(M(), current) == old(StackOf(M(), current)) && Base(M(), current) == old(Base(M(), current))
    {
      hide StackOf, Base, M, Isolated, SliceSum, States, KernelHeap.Valid, BootWords, AddressSpace.View, Leaves.Flat,
        SeatsOf, SameOutside, Clear, Owned, LeafFrames, Freed, Free, Live, ListOk, LooksLive, RoundRobin.Ok,
        BehindStack, KernelHeap.Trusted;
      MachineSize(current);
      ghost var m, ram := M(), space.ram[..];
      var base := tasks[i].stackBase;
      var t := tasks[i].(stackBase := 0, state := Unused);
      LiveStack(m, current, i);
      CurrentIsUsed();
      GoneOk(Sched(), i);
      Removed(m, current, i, t);
      StatesSet(tasks[..], i, t);
      SliceSumSet(tasks[..], i, t);
      if base != 0 {
        var freed := heap.Kfree(base);
        FreedFacts(m.h, heap.Flat(), m.bs, StackAt(m.ts[i]) - 4);
        if 0 < current {
          BehindOther(m, heap.Flat(), current, i);
        }
        OtherFreed(m.(ts := m.ts[i := t]), current, heap.Flat(), StackAt(m.ts[i]) - 4);
        BootKept(ram, space.ram[..], heap.LeafArea(), heap.Area(), bootLo);
      }
      SetTask(i, t);
      SameMachine();
      assert M() == m.(ts := m.ts[i := t]).(h := heap.Flat(), bs := heap.blocks);
      SameBase(m.(ts := m.ts[i := t]), M(), current);
      SeatChanged(m, M(), current, current, i);
    }

    /** `reap` */
    method Reap()
      requires tasks.Length == 8 && Valid()
      modifies tasks, heap`blocks, space.ram
      ensures Valid() && Sched() == Reaped(old(Sched()))
      ensures StackOf(M(), current) == old(StackOf(M(), current)) && Base(M(), current) == old(Base(M(), current))
      ensures space.View() == old(space.View())
      ensures Shape(old(View())) && Seats() == ReapSeats(old(View()), 8)
      ensures old(heap.Trusted()) ==> heap.Trusted()
      ensures forall ret, k :: LeavesSparing(ret, k) <==> old(LeavesSparing(ret, k))
    {
      hide LeavesSparing, StackOf, Base, M, Memory, Counted, ReapedBelow, RoundRobin.Ok, Seats, ReapSeats, Used,
        KernelHeap.Trusted, BehindStack;
      CurrentIsUsed();
      ghost var h, w, on := heap.Flat(), StackAt(tasks[current]), StackOf(M(), current);
      SparingReaped(h, w, on);
      ghost var s, v := Sched(), View();
      ReapSeatStep(v, 1);
      ReapStep(s, 1);
      for i := 1 to 8
        invariant Valid() && Sched() == ReapedBelow(s, i) && |s.states| == 8
        invariant StackOf(M(), current) == old(StackOf(M(), current)) && Base(M(), current) == old(Base(M(), current))
        invariant space.View() == old(space.View())
        invariant Seats() == ReapSeats(v, i)
        invariant old(heap.Trusted()) ==> heap.Trusted()
        invariant 0 < current ==>
                    (BehindStack(heap.Flat(), StackAt(tasks[current]))
                     <==> old(BehindStack(heap.Flat(), StackAt(tasks[current]))))
        invariant tasks[current].stackBase == old(tasks[current].stackBase)
      {
        ReapStep(s, i);
        ReapSeatStep(v, i);
        if tasks[i].state == Dead && i != current {
          ReapOne(i);
        }
      }
      SparingReaped(h, w, on);
    }

    /** `scheduler_tick`, entered with return address `ret`. */
    method SchedulerTick(ret: u32, ghost k: nat)
      requires tasks.Length == 8 && |image| == 8 && |saved| == 8 && current < 8
      requires Valid() && Room(k)
      modifies this, tasks, heap`blocks, space.ram
      ensures Valid() && Sched() == Ticked(old(Sched())) && current < 8
      ensures space.View() == old(space.View())
      ensures View() == Apply(old(View()), TickOp(ret))
      ensures old(heap.Trusted()) ==>
                (heap.Trusted() <==> current == old(current) || old(LeavesSparing(ret, k)))
    {
      hide StackOf, Base, M, Memory, Counted, ReapedBelow, RoundRobin.Ok, Pick, Pushed, Seats, ReapSeats, Left,
        Entered, KernelHeap.Trusted, BehindStack, SwitchSpares, LeavesSparing;
      if !enabled {
        return;
      }
      ReapedOk(Sched(), 0);
      Reap();
      if quantumLeft > 1 {
        LessQuantum(Sched());
        quantumLeft := quantumLeft - 1;
        return;
      }
      PickAlive(Sched());
      var next := PickNext();
      SwitchTo(next, ret, k);
    }

    lemma SparingReaped(h: seq<u32>, w: nat, s: seq<u32>)
      requires 0 < current < tasks.Length ==> StackAt(tasks[current]) == w && StackOf(M(), current) == s
      requires 0 < current ==> (BehindStack(h, w) <==> BehindStack(heap.Flat(), w))
      ensures forall ret, k :: LeavesSparing(ret, k) <==>
                current == 0 || (current < tasks.Length && SwitchSpares(h, w, s, k, Leaving(cpu, ret)))
    {
      hide BehindStack, SwitchSpares, StackOf, M;
      forall ret, k | 0 < current
        ensures SwitchSpares(h, w, s, k, Leaving(cpu, ret))
                <==> SwitchSpares(heap.Flat(), w, s, k, Leaving(cpu, ret))
      {
        SparingSame(h, heap.Flat(), w, s, k, Leaving(cpu, ret));
      }
    }

    /** `task_yield` */
    method TaskYield(ret: u32, ghost k: nat)
      requires tasks.Length == 8 && |image| == 8 && |saved| == 8 && current < 8
      requires Valid() && Room(k)
      modifies this, tasks, space.ram
      ensures Valid() && Sched() == Yielded(old(Sched())) && current < 8
      ensures space.View() == old(space.View())
      ensures View() == Apply(old(View()), YieldOp(ret))
      ensures old(heap.Trusted()) ==>
                (heap.Trusted() <==> current == old(current) || old(LeavesSparing(ret, k)))
    {
      hide StackOf, Base, M, Memory, Counted, RoundRobin.Ok, Pick, Pushed, Seats, Left, Entered, KernelHeap.Trusted,
        SwitchSpares, LeavesSparing;
      if !enabled {
        return;
      }
      PickAlive(Sched());
      var next := PickNext();
      SwitchTo(next, ret, k);
    }

    /** `task_exit`, up to the loop that waits for the next tick. */
    method TaskExit()
      requires tasks.Length == 8 && Valid() && current != 0
      modifies tasks
      ensures Valid() && View() == Apply(old(View()), ExitOp)
      ensures tasks[..] == old(tasks[..])[current := old(tasks[current]).(state := Dead)]
    {
      hide StackOf, Base, M, Memory, SliceSum, Seats;
      StepKeeps(Sched(), Exit);
      Relabel(current, tasks[current].(state := Dead), current);
    }

    /** `task_kill` */
    method TaskKill(id: u32) returns (ok: bool)
      requires tasks.Length == 8 && Valid()
      modifies tasks
      ensures Valid() && View() == Apply(old(View()), KillOp(id))
      ensures ok <==> 0 < id < 8 && old(tasks[..])[id].state != Unused
      ensures ok ==> tasks[..] == old(tasks[..])[id := old(tasks[..])[id].(state := Dead)]
      ensures !ok ==> tasks[..] == old(tasks[..])
    {
      hide StackOf, Base, M, Memory, SliceSum, Seats;
      if id == 0 || id >= 8 {
        return false;
      }
      if tasks[id].state == Unused {
        return false;
      }
      StepKeeps(Sched(), Kill(id));
      Relabel(id, tasks[id].(state := Dead), current);
      return true;
    }

    /** `scheduler_enable` */
    method SetEnabled(on: bool)
      requires Valid()
      modifies this`enabled
      ensures Valid() && View() == Apply(old(View()), EnableOp(on)) && enabled == on
    {
      hide M, Memory, RoundRobin.Ok, Seats, Used;
      CurrentIsUsed();
      EnabledOk(Sched(), on);
      enabled := on;
    }

    /** The running task writes its own stack ... */
    method WriteStack(addr: u32, v: u32, ghost k: nat)
      requires Valid() && k < |StackOf(M(), current)| && addr == Base(M(), current) + 4 * k
      modifies space.ram
      ensures space.View() == old(space.View())
      ensures Valid() && View() == Apply(old(View()), WorkOp(k, v))
      ensures StackOf(M(), current) == old(StackOf(M(), current))[k := v]
      ensures old(heap.Trusted()) ==>
                (heap.Trusted() <==> current == 0 || Spares(old(heap.Flat()), StackAt(tasks[current]) + k, v))
    {
      hide StackOf, M, BootSafe, KernelHeap.Valid, Isolated, RoundRobin.Ok, SeatsOf, BootWords, Leaves.Flat, Tends,
        KernelHeap.Clean, OwnOnly, Genuine, Live, Spares;
      MachineSize(current);
      CurrentIsUsed();
      ghost var m := M();
      ghost var h0, clean := heap.Flat(), heap.Clean();
      Untouched(current);
      Store(addr, v, current, k, h0, clean);
      MachineSize(current);
      SeatChanged(m, M(), current, current, current);
      OwnSeat(m);
      OwnSeat(M());
      Tended(h0, clean, current);
      if current != 0 {
        StackIs(M(), current);
      }
      if Genuine(h0, Live(heap.blocks, 0)) {
        OwnStored(m, heap.Flat(), current, k, v);
      }
    }

    lemma OwnSeat(m: Machine)
      requires Used(m, current) && |m.ts| == 8
      ensures SeatsOf(m)[current] == Seat(m.ts[current].esp, Base(m, current), StackOf(m, current))
    {
      hide StackOf, Base;
    }

    /** ... and its registers, in any way at all. */
    method SetRegisters(c: Context)
      requires Valid()
      modifies this`cpu
      ensures Valid() && View() == Apply(old(View()), ComputeOp(c)) && cpu == c
    {
      hide M, Memory, RoundRobin.Ok, Seats, Used;
      CurrentIsUsed();
      cpu := c;
    }

    /** What leaves the heap's words and the boot stack alone leaves the tasks alone. */
    lemma TasksStand(m: Machine, ram: seq<u32>, area: set<nat>)
      requires heap.space == space && space.pmm == pmm && heap.Valid() && tasks.Length == 8
      requires bootLo % 4 == 0 && bootLo + 16384 <= space.identityEnd && Clear(bootLo, area) && Clear(bootLo, heap.Area())
      requires SameOutside(ram, space.ram[..], area)
      requires m == Machine(tasks[..], heap.Flat(), heap.blocks, BootWords(ram, bootLo), bootLo, image, saved)
      requires Isolated(m, current) && RoundRobin.Ok(Sched()) && Counted()
      ensures Valid() && M() == m && Seats() == SeatsOf(m)
    {
      hide M, Isolated, KernelHeap.Valid, BootWords, AddressSpace.View, Leaves.Flat, SameOutside, Clear, Owned,
        RoundRobin.Ok, Counted;
      BootKept(ram, space.ram[..], area, area, bootLo);
      SameMachine();
    }

    // ---- new tasks ----

    /** A heap operation that hands out or takes no stack in use keeps the memory
        in order, whatever it does to the frames it owns. */
    lemma HeapMoved(m: Machine, ram: seq<u32>, area: set<nat>, on: nat)
      requires heap.space == space && space.pmm == pmm && heap.Valid() && tasks.Length == 8
      requires bootLo % 4 == 0 && bootLo + 16384 <= space.identityEnd && Clear(bootLo, area)
      requires heap.Area() <= area && SameOutside(ram, space.ram[..], area) && m.boot == BootWords(ram, bootLo)
      requires M() == m.(h := heap.Flat(), bs := heap.blocks, boot := BootWords(space.ram[..], bootLo))
      requires Isolated(m.(h := heap.Flat(), bs := heap.blocks), on)
      ensures Memory(on) && M() == m.(h := heap.Flat(), bs := heap.blocks)
    {
      hide M, Isolated, KernelHeap.Valid, BootWords, AddressSpace.View, Leaves.Flat, SameOutside, Clear, Owned;
      BootKept(ram, space.ram[..], area, area, bootLo);
      ClearStays(bootLo, area, heap.Area());
    }

    /** `kmalloc` by anybody. */
    method HeapAlloc(size: u32) returns (ptr: u32)
      requires tasks.Length == 8 && Valid() && size <= 0xFFFF_EFF0
      requires StopsInTime(heap.brk, space.View().free, GrowthPages(heap.RequestWords(size)))
      modifies heap`brk, heap`blocks, space`tableCount, space`mappedPages, space.ram, pmm, pmm.bitmap
      ensures Valid() && Sched() == old(Sched())
      ensures GrowthStep(old(space.View()), space.View(), old(heap.brk), heap.brk, heap.RequestWords(size), space.Lim())
      ensures heap.Area() <= old(heap.Area())
      ensures Seats() == old(Seats())
      ensures StackOf(M(), current) == old(StackOf(M(), current)) && Base(M(), current) == old(Base(M(), current))
      ensures ptr == 0 <==>
              size == 0 || (!old(HasFit(heap.blocks, heap.RequestWords(size)))
                            && !old(heap.CanExtend(heap.RequestWords(size))))
      ensures ptr == 0 ==> heap.blocks == old(heap.blocks)
      ensures old(heap.Trusted()) ==> heap.Trusted()
      ensures ptr != 0 && old(HasFit(heap.blocks, heap.RequestWords(size))) ==> var n := heap.RequestWords(size);
        var i := AllocAt(old(heap.blocks), 0, n);
        && ptr == Addr(i) + 16 && heap.blocks == Alloc(old(heap.blocks), n)
        && heap.Flat() == HandedWords(old(heap.Flat()), i, n)
      ensures ptr != 0 ==> ptr >= 0xC000_0010 && ptr % 4 == 0 && heap.IsLive(ptr) && !old(heap.IsLive(ptr))
      ensures ptr != 0 ==> Spare(WordAt(ptr))
      ensures ptr != 0 && heap.RequestWords(size) >= 2048 ==> StackOk(heap.blocks, WordAt(ptr))
    {
      hide Base, M, Isolated, StackOf, StackOk, SliceSum, States, KernelHeap.Valid, KernelHeap.CanExtend, BootWords,
        AddressSpace.View, Leaves.Flat, SameOutside, Clear, Owned, LeafFrames, Granted, Alloc, AllocAt, Extend,
        HasFit, Live, ListOk, RoundRobin.Ok, GrownBy, GrowthPages, SeatsOf, KernelHeap.Trusted, HandedWords;
      MachineSize(current);
      CurrentIsUsed();
      ghost var m, ram, area := M(), space.ram[..], heap.Area();
      heap.Up();
      ptr := heap.Kmalloc(size);
      heap.Up();
      SameMachine();
      if ptr != 0 {
        ghost var i := (ptr - 0xC000_0010) / 4;
        PointerTo(ptr, i);
        Allocated(m, current, heap.Flat(), heap.blocks, heap.RequestWords(size), i, old(heap.Clean()));
        GrantedLive(m.h, heap.Flat(), m.bs, heap.blocks, heap.RequestWords(size), i, old(heap.Clean()));
      }
      HeapMoved(m, ram, area, current);
      SameBase(m, M(), current);
      SeatsKept(m, M(), current);
    }

    /** What `kfree` may be given: no stack of a task, and no forged pointer by which
        it would write on the stack of another one or cut the heap's list. */
    ghost predicate FreeIsHarmless(ptr: u32)
      reads this`current, tasks, heap`brk, heap`blocks, heap.space, heap.space.ram, heap.space.pmm,
        heap.space.pmm.bitmap
    {
      && (forall i | 0 < i < 8 && i < tasks.Length && tasks[i].state != Unused :: tasks[i].stackBase != ptr)
      && (heap.Forged(ptr) ==>
            && !CutsEnd(heap.blocks, HeaderWord(ptr))
            && (OnStack(tasks[..], current, HeaderWord(ptr) + 3) || OffStacks(tasks[..], HeaderWord(ptr) + 3)))
    }

    /** `kfree` by anybody, of any word-aligned pointer: exactly the harmless ones
        leave everything in order, and a forged one may be felt by the running task
        as a store to its own stack. */
    method HeapFree(ptr: u32) returns (r: FreeResult)
      requires tasks.Length == 8 && Valid() && ptr % 4 == 0
      modifies heap`blocks, space.ram
      ensures Valid() <==> old(FreeIsHarmless(ptr))
      ensures r.Rejected? <==> !old(heap.InHeap(ptr) && LooksLive(heap.Flat(), HeaderWord(ptr)))
      ensures r.Lost? <==> old(heap.Forged(ptr)) && CutsEnd(old(heap.blocks), HeaderWord(ptr))
      ensures space.View() == old(space.View())
      ensures old(heap.Trusted()) ==> (r.Taken? <==> old(heap.IsLive(ptr))) && heap.Trusted()
      ensures old(heap.IsLive(ptr)) ==>
                && heap.blocks == Free(old(heap.blocks), HeaderWord(ptr))
                && heap.Flat() == FreedWords(old(heap.Flat()), old(heap.blocks), HeaderWord(ptr))
      ensures Valid() ==>
                View() == Apply(old(View()), if old(heap.Forged(ptr)) && OnStack(tasks[..], current, HeaderWord(ptr) + 3)
                                             then WorkOp(HeaderWord(ptr) + 3 - StackAt(tasks[current]), 1) else Other)
    {
      hide Base, M, Isolated, StackOf, SliceSum, States, KernelHeap.Valid, BootWords, AddressSpace.View, Freed, Free,
        Leaves.Flat, SameOutside, Clear, Owned, LeafFrames, Live, ListOk, RoundRobin.Ok, SeatsOf, CutsEnd, LooksLive,
        NoList, OffStacks, Counted, KernelHeap.Trusted, FreedWords;
      MachineSize(current);
      CurrentIsUsed();
      ghost var m, ram, area, i := M(), space.ram[..], heap.Area(), HeaderWord(ptr);
      ghost var live, forged, harmless := heap.IsLive(ptr), heap.Forged(ptr), FreeIsHarmless(ptr);
      StackIsLive(ptr);
      r := heap.Kfree(ptr);
      SameMachine();
      SmallerArea(ram, space.ram[..], heap.LeafArea(), area);
      if !harmless {
        BootKept(ram, space.ram[..], area, area, bootLo);
        Harmed(m, M(), current, ptr, i, live);
      } else {
        if live {
          NoStackThere(m, current, ptr, i);
          OtherFreed(m, current, heap.Flat(), i);
        } else if forged {
          HeapIsList();
          OwnOrNone(m, current, i + 3, 1);
        }
        HeapMoved(m, ram, area, current);
        SameBase(m, M(), current);
        if forged && OnStack(m.ts, current, i + 3) {
          SeatChanged(m, M(), current, current, current);
          OwnSeat(m);
          OwnSeat(M());
        } else {
          SeatsKept(m, M(), current);
        }
      }
    }

    /** The stack of a task is a live block. */
    lemma StackIsLive(ptr: u32)
      requires Valid()
      ensures !heap.IsLive(ptr) ==>
                forall i | 0 < i < 8 && i < tasks.Length && tasks[i].state != Unused :: tasks[i].stackBase != ptr
    {
      hide KernelHeap.Valid, BootSafe, ListOk, Parked, Live, KernelHeap.Flat;
      MachineSize(current);
    }

    lemma HeapIsList()
      requires heap.Valid()
      ensures ListOk(heap.Flat(), heap.blocks)
    {
      hide KernelHeap.Backed, ListOk, Leaves.Flat, AddressSpace.View, Coalesced;
    }

    /** A client writes a word of a payload that is handed out and no task's stack. */
    method WriteHeap(addr: u32, v: u32, ghost k: nat)
      requires tasks.Length == 8 && Valid() && addr == Addr(k) && InPayload(heap.blocks, 0, k) && OffStacks(tasks[..], k)
      modifies space.ram
      ensures Valid() && space.View() == old(space.View()) && Seats() == old(Seats())
      ensures old(heap.Trusted()) ==> (heap.Trusted() <==> Spares(old(heap.Flat()), k, v))
      ensures k < |old(heap.Flat())| && heap.Flat() == old(heap.Flat())[k := v]
    {
      hide Base, M, Isolated, StackOf, SliceSum, States, KernelHeap.Valid, BootWords, AddressSpace.View, Leaves.Flat,
        SameOutside, Clear, Owned, LeafFrames, Live, ListOk, RoundRobin.Ok, SeatsOf, OffStacks, KernelHeap.Trusted,
        Spares, InPayload;
      MachineSize(current);
      CurrentIsUsed();
      ghost var m, ram, area := M(), space.ram[..], heap.Area();
      heap.Poke(addr, v, k);
      SameMachine();
      HeapIsList();
      WordPoked(m, current, k, v);
      SmallerArea(ram, space.ram[..], heap.LeafArea(), area);
      HeapMoved(m, ram, area, current);
      SeatsKept(m, M(), current);
    }

    /** The same of a block that is to become a stack. */
    ghost predicate TendsNew(h0: seq<u32>, clean: bool, w: nat)
      reads heap`brk, heap.space, heap.space.ram, heap.space.pmm, heap.space.pmm.bitmap
    {
      StackOnly(h0, heap.Flat(), w) && (clean ==> heap.Clean())
    }

    /** A store into a block that is to become a stack. */
    method StoreNew(addr: u32, v: u32, ghost w: nat, ghost k: nat, ghost h0: seq<u32>, ghost clean: bool)
      requires tasks.Length == 8 && Valid() && StackOk(heap.blocks, w) && k < 2048 && addr == Addr(w + k)
      requires Spare(w) && |StackWords(heap.Flat(), w)| == 2048
      requires TendsNew(h0, clean, w)
      modifies space.ram
      ensures Valid() && space.View() == old(space.View())
      ensures StackWords(heap.Flat(), w) == old(StackWords(heap.Flat(), w))[k := v]
      ensures Seats() == old(Seats()) && TendsNew(h0, clean, w)
      ensures StackOf(M(), current) == old(StackOf(M(), current))
    {
      hide Base, Isolated, StackOf, SliceSum, States, KernelHeap.Backed, BootWords, AddressSpace.View, StackOk,
        StackWords, Leaves.Flat, SameOutside, Clear, Owned, LeafFrames, Live, ListOk, RoundRobin.Ok, Coalesced,
        SeatsOf, KernelHeap.Clean, Genuine, Spares;
      MachineSize(current);
      CurrentIsUsed();
      ghost var m, ram, area := M(), space.ram[..], heap.Area();
      NewStackWord(m, current, w, k, v);
      heap.Poke(addr, v, w + k);
      SmallerArea(ram, space.ram[..], heap.LeafArea(), area);
      HeapMoved(m, ram, area, current);
      SeatsKept(m, M(), current);
    }

    /** The stack that `task_create` builds: as if `context_switch` had just left a
        task that is to return into `entry`, and from there into `task_exit`. */
    method CraftStack(stack: u32, entry: u32, ghost w: nat) returns (sp: u32)
      requires tasks.Length == 8 && Valid() && StackOk(heap.blocks, w) && stack == Addr(w) && stack < 0xC040_0000
      requires Spare(w)
      requires |StackWords(heap.Flat(), w)| == 2048
      modifies space.ram
      ensures space.View() == old(space.View())
      ensures Valid() && sp == Addr(w + 2037)
      ensures |StackWords(heap.Flat(), w)| == 2048 && StackWords(heap.Flat(), w)[2047] == taskExit
      ensures FrameAt(StackWords(heap.Flat(), w), 2037, Fresh(entry))
      ensures Seats() == old(Seats())
      ensures SameBut(old(heap.Flat()), heap.Flat(), w + 2037, w + 2048)
      ensures old(heap.Trusted()) ==> (heap.Trusted() <==> SpawnSpares(heap.Flat(), w, entry, taskExit))
      ensures StackOf(M(), current) == old(StackOf(M(), current))
    {
      hide Valid, StackOf, StackOk, StackWords, M, Leaves.Flat, Spare, Seats, TendsNew, Genuine, KernelHeap.Clean,
        SpawnSpares, Live, SameBut, ListOk, StackOnly;
      ghost var h0, clean, s0 := heap.Flat(), heap.Clean(), StackWords(heap.Flat(), w);
      NewStackBounds(w);
      UntouchedNew(w);
      sp := stack + 8192;
      sp := sp - 4;
      StoreNew(sp, taskExit, w, 2047, h0, clean);
      sp := sp - 4;
      StoreNew(sp, entry, w, 2046, h0, clean);
      for i := 0 to 8
        invariant Valid() && sp == Addr(w + 2046 - i) && |StackWords(heap.Flat(), w)| == 2048
        invariant StackWords(heap.Flat(), w)[2047] == taskExit && StackWords(heap.Flat(), w)[2046] == entry
        invariant forall j | 2046 - i <= j < 2046 :: StackWords(heap.Flat(), w)[j] == 0
        invariant space.View() == old(space.View())
        invariant Seats() == old(Seats()) && TendsNew(h0, clean, w)
        invariant forall j | 0 <= j < 2037 :: StackWords(heap.Flat(), w)[j] == s0[j]
        invariant StackOf(M(), current) == old(StackOf(M(), current))
      {
        sp := sp - 4;
        StoreNew(sp, 0, w, 2045 - i, h0, clean);
      }
      sp := sp - 4;
      StoreNew(sp, 0x202, w, 2037, h0, clean);
      TendedNew(h0, clean, w);
      CraftedOnly(h0, heap.Flat(), heap.blocks, w, entry, taskExit);
    }

    lemma UntouchedNew(w: nat)
      ensures TendsNew(heap.Flat(), heap.Clean(), w)
    {
    }

    lemma TendedNew(h0: seq<u32>, clean: bool, w: nat)
      requires TendsNew(h0, clean, w)
      ensures StackOnly(h0, heap.Flat(), w) && (clean ==> heap.Clean())
    {
    }

    lemma NewStackBounds(w: nat)
      requires Valid() && StackOk(heap.blocks, w)
      ensures ListOk(heap.Flat(), heap.blocks) && w + 2048 <= |heap.Flat()|
    {
      hide KernelHeap.Backed, Leaves.Flat, AddressSpace.View, StackOk, StackWords, Clear, Owned, ListOk;
      StackInHeap(heap.Flat(), heap.blocks, w);
    }

    /** The scan for an unused slot; 8 when there is none. */
    method FindSlot() returns (slot: nat)
      requires tasks.Length == 8
      ensures slot == FirstUnused(States(tasks[..]), 1)
      ensures 0 < slot <= 8 && (slot < 8 ==> tasks[slot].state == Unused)
      ensures forall i | 0 < i < slot :: tasks[..][i].state != Unused
    {
      for i := 1 to 8
        invariant FirstUnused(States(tasks[..]), 1) == FirstUnused(States(tasks[..]), i)
        invariant forall j | 0 < j < i :: tasks[..][j].state != Unused
      {
        if tasks[i].state == Unused {
          return i;
        }
      }
      return 8;
    }

    /** The slot filled in, once its stack is ready. */
    method Enlist(slot: nat, t: Task, c: Context, ghost w: nat)
      requires tasks.Length == 8 && |image| == 8 && |saved| == 8 && 0 < slot < 8
      requires Valid() && tasks[slot].state == Unused && t.state == Ready && t.slices == 0
      requires StackOk(heap.blocks, w) && Spare(w) && t.stackBase == Addr(w)
      requires ParkedAt(t.esp, t.stackBase, StackWords(heap.Flat(), w), c)
      modifies this`image, this`saved, this`retired, tasks
      ensures Valid() && tasks[..] == old(tasks[..])[slot := t]
      ensures Sched() == old(Sched()).(states := old(Sched()).states[slot := Ready])
      ensures saved == old(saved)[slot := c] && image == old(image)[slot := StackWords(heap.Flat(), w)]
      ensures Seats() == old(Seats())[slot := Seat(t.esp, t.stackBase, StackWords(heap.Flat(), w))]
      ensures StackOf(M(), current) == old(StackOf(M(), current))
    {
      hide BootSafe, Base, M, Isolated, StackOf, StackOk, StackWords, SliceSum, KernelHeap.Valid, BootWords,
        AddressSpace.View, Leaves.Flat, RoundRobin.Ok, ParkedAt, SeatsOf, Entered;
      MachineSize(current);
      CurrentIsUsed();
      ghost var m := M();
      Added(m, current, slot, t, c, w);
      StatesSet(tasks[..], slot, t);
      SliceSumSet(tasks[..], slot, t);
      EnlistedOk(Sched(), slot);
      retired := retired + tasks[slot].slices;
      SetTask(slot, t);
      image, saved := image[slot := StackWords(heap.Flat(), w)], saved[slot := c];
      SameMachine();
      assert M() == m.(ts := tasks[..], image := image, saved := saved);
      SeatChanged(m, M(), current, current, slot);
      ParkedContext(M(), current, slot);
      BaseIs(M(), slot);
    }

    /** A spare block at heap word `w` that looks like the stack of a task just left. */
    ghost predicate Crafted(stack: u32, sp: u32, entry: u32, w: nat)
      reads tasks, heap`brk, heap`blocks, heap.space, heap.space.ram, heap.space.pmm, heap.space.pmm.bitmap
    {
      && stack == Addr(w) && StackOk(heap.blocks, w) && Spare(w)
      && ParkedAt(sp, stack, StackWords(heap.Flat(), w), Fresh(entry))
      && NewSeat(Seat(sp, stack, StackWords(heap.Flat(), w)), entry, taskExit)
    }

    /** The half of `task_create` that gets and fills a stack; 0 when there is no memory. */
    method MakeStack(entry: u32) returns (stack: u32, sp: u32)
      requires tasks.Length == 8 && Valid()
      modifies heap`brk, heap`blocks, space`tableCount, space`mappedPages, space.ram, pmm, pmm.bitmap
      ensures Valid() && Sched() == old(Sched()) && heap.Area() <= old(heap.Area())
      ensures GrowthStep(old(space.View()), space.View(), old(heap.brk), heap.brk, 2048, space.Lim())
      ensures Seats() == old(Seats())
      ensures StackOf(M(), current) == old(StackOf(M(), current))
      ensures old(heap.Trusted()) ==>
                (heap.Trusted() <==> stack == 0 || SpawnSpares(heap.Flat(), WordAt(stack), entry, taskExit))
      ensures stack == 0 <==> !old(HasFit(heap.blocks, 2048)) && !old(heap.CanExtend(2048))
      ensures stack != 0 ==> stack >= 0xC000_0000 && sp >= stack && Crafted(stack, sp, entry, WordAt(stack))
      ensures stack != 0 && old(HasFit(heap.blocks, 2048)) ==>
                FirstFitStack(old(heap.Flat()), old(heap.blocks), heap.Flat(), heap.blocks, WordAt(stack))
    {
      hide GrownBy, GrowthPages, Owned, BootSafe, Base, M, Memory, StackOf, StackOk, StackWords, Counted,
        KernelHeap.CanExtend, HasFit, AddressSpace.View, Leaves.Flat, RoundRobin.Ok, Spare, ParkedAt, Seats,
        KernelHeap.Trusted, SpawnSpares, FirstFitStack, SameBut, HandedWords, AllocAt, Alloc;
      MachineSize(current);
      HeapBreak();
      StackPages(heap.brk);
      sp := 0;
      ghost var h, bs, fits := heap.Flat(), heap.blocks, HasFit(heap.blocks, 2048);
      stack := HeapAlloc(8192);
      if stack == 0 {
        return;
      }
      ghost var w := WordAt(stack);
      NewStack(w);
      sp := CraftStack(stack, entry, w);
      ParkedFresh(sp, stack, StackWords(heap.Flat(), w), Fresh(entry), w);
      if fits {
        FitStack(h, bs, heap.Flat(), heap.blocks, stack, AllocAt(bs, 0, 2048));
      }
    }

    lemma HeapBreak()
      requires Valid()
      ensures heap.brk <= 0xC040_0000
    {
      hide Isolated, Clear, RoundRobin.Ok, Counted, Owned;
      heap.Up();
    }

    /** `task_create`: a ready task that will enter `entry` with interrupts on, all
        registers 0, and `task_exit` as the address it returns to. */
    method TaskCreate(entry: u32) returns (slot: int)
      requires tasks.Length == 8 && |image| == 8 && |saved| == 8 && Valid()
      modifies this`image, this`saved, this`retired, tasks, heap`brk, heap`blocks, space`tableCount,
        space`mappedPages, space.ram, pmm, pmm.bitmap
      ensures Valid() && Sched() == Created(old(Sched()), old(HasFit(heap.blocks, 2048) || heap.CanExtend(2048)))
      ensures GrowthStep(old(space.View()), space.View(), old(heap.brk), heap.brk, 2048, space.Lim())
      ensures heap.Area() <= old(heap.Area())
      ensures StackOf(M(), current) == old(StackOf(M(), current))
      ensures View() == Apply(old(View()), SpawnOp(if 0 < slot < 8 then Seats()[slot] else Vacant))
      ensures old(heap.Trusted()) ==>
                (heap.Trusted() <==>
                 !(0 < slot < 8) || SpawnSpares(heap.Flat(), StackAt(tasks[slot]), entry, taskExit))
      ensures slot == -1 <==>
              (forall i | 0 < i < 8 :: old(tasks[..])[i].state != Unused)
              || (!old(HasFit(heap.blocks, 2048)) && !old(heap.CanExtend(2048)))
      ensures slot != -1 ==> 0 < slot < 8 && NewSeat(Seats()[slot], entry, taskExit)
      ensures slot != -1 ==>
                && old(tasks[..])[slot].state == Unused && (forall i | 0 < i < slot :: old(tasks[..])[i].state != Unused)
                && tasks[..] ==
                   old(tasks[..])[slot := Task(tasks[slot].esp, tasks[slot].stackBase, slot as u32, Ready, 0, 0)]
      ensures slot == -1 ==> tasks[..] == old(tasks[..])
      ensures 0 < slot < 8 && old(HasFit(heap.blocks, 2048)) ==>
                FirstFitStack(old(heap.Flat()), old(heap.blocks), heap.Flat(), heap.blocks, StackAt(tasks[slot]))
    {
      hide GrownBy, GrowthPages, Owned, BootSafe, Base, M, Memory, StackOf, StackOk, StackWords, Counted,
        KernelHeap.CanExtend, HasFit, AddressSpace.View, Leaves.Flat, RoundRobin.Ok, Spare, Seats, Used, NewSeat,
        ParkedAt, FirstUnused, States, KernelHeap.Trusted, SpawnSpares, FirstFitStack, SameBut, HandedWords, AllocAt,
        Alloc;
      CurrentIsUsed();
      var free := FindSlot();
      if free == 8 {
        return -1;
      }
      var stack, sp := MakeStack(entry);
      if stack == 0 {
        return -1;
      }
      Enlist(free, Task(sp, stack, free, Ready, 0, 0), Fresh(entry), WordAt(stack));
      return free;
    }

    lemma NewStack(w: nat)
      requires Valid() && StackOk(heap.blocks, w)
      ensures |StackWords(heap.Flat(), w)| == 2048 && Addr(w) + 8192 <= 0xC040_0000
    {
      hide KernelHeap.Backed, Leaves.Flat, AddressSpace.View, StackOk, StackWords, Clear, Owned;
      StackInHeap(heap.Flat(), heap.blocks, w);
      HeapExtent(heap.Flat(), heap.blocks);
    }

    /** `scheduler_init`: the running code becomes task 0, on the boot stack. */
    method SchedulerInit()
      requires BootSafe() && heap.Valid() && tasks.Length == 8 && |image| == 8 && |saved| == 8
      requires switches == 0 && quantumLeft == TASK_QUANTUM && laps == 0 && retired == 0
      requires forall i | 0 <= i < 8 :: tasks[i].slices == 0
      modifies this`current, this`enabled, tasks
      ensures Valid() && Sched() == INITIAL
      ensures tasks[0] == Task(0, 0, 0, Running, 1, 0) && forall i | 0 < i < 8 :: tasks[i].state == Unused
    {
      hide KernelHeap.Valid, Leaves.Flat, Isolated, AddressSpace.View, Clear, Owned, BootWords;
      for i := 0 to 8
        invariant forall j | 0 <= j < i :: tasks[j].state == Unused
        invariant forall j | 0 <= j < 8 :: tasks[j].slices == 0
      {
        tasks[i] := tasks[i].(state := Unused);
      }
      tasks[0] := tasks[0].(id := 0, state := Running, stackBase := 0, esp := 0, slices := 1, counter := 0);
      current, enabled := 0, true;
      FirstCount(tasks[..]);
      StartMachine();
    }

    /** There is room on the boot stack. */
    lemma FirstRoom()
      requires Valid() && current == 0 && cpu.esp == Add32(bootLo, 16384)
      ensures cpu.esp == bootLo + 16384 && Room(4096)
    {
      hide SpaceOk, TablesOf, PagesOf, Sound, ListOk, Leaves.Flat, Coalesced, WindowMapped, Owned, StackOk,
        StackWords, Clear, KernelHeap.Valid, BootWords;
      MachineSize(0);
      BootFits();
      BootSize();
    }

    lemma BootSize()
      requires bootLo / 4 + 4096 <= space.ram.Length
      ensures |BootWords(space.ram[..], bootLo)| == 4096
    {
    }

    lemma StartMachine()
      requires BootSafe() && heap.Valid() && tasks.Length == 8 && |image| == 8 && |saved| == 8
      requires forall i | 0 < i < 8 :: tasks[i].state == Unused
      ensures Isolated(M(), 0)
    {
      hide SpaceOk, TablesOf, PagesOf, Sound, ListOk, Leaves.Flat, Coalesced, WindowMapped, Owned, Isolated, Clear;
      BootFits();
      FirstMachine(M());
    }
  }

  lemma HeapExtent(h: seq<u32>, bs: seq<Block>)
    requires ListOk(h, bs)
    ensures |h| <= 0x10_0000
  {
  }

  lemma FirstCount(ts: seq<Task>)
    requires |ts| == 8 && ts[0].slices == 1 && forall i | 0 < i < 8 :: ts[i].slices == 0
    ensures SliceSum(ts) == 1
  {
    NoSlices(ts[1..]);
  }

  lemma {:induction false} NoSlices(ts: seq<Task>)
    requires forall i | 0 <= i < |ts| :: ts[i].slices == 0
    ensures SliceSum(ts) == 0
  {
    if ts != [] {
      NoSlices(ts[1..]);
    }
  }

  lemma ParkedFresh(sp: u32, base: u32, stack: seq<u32>, c: Context, w: nat)
    requires sp == Addr(w + 2037) && base == Addr(w) && FrameAt(stack, 2037, c)
    ensures ParkedAt(sp, base, stack, c)
  {
  }

  /** What a `kfree` harms: it has freed a stack, cut the list, or set a flag on the
      stack of a task that is not running. */
  lemma Harmed(m: Machine, m': Machine, on: nat, ptr: u32, i: nat, live: bool)
    requires Isolated(m, on) && |m.ts| == 8 && i == HeaderWord(ptr) && m' == m.(h := m'.h, bs := m'.bs)
    requires live ==> m'.bs == Free(m.bs, i) && Freed(m.h, m'.h, m.bs, i) && ptr >= 0xC000_0010
    requires live ==> exists k | 0 < k < 8 && m.ts[k].state != Unused :: m.ts[k].stackBase == ptr
    requires !live ==> m'.bs == m.bs && i + 4 <= |m.h| && m'.h == m.h[i + 3 := 1] && LooksLive(m.h, i)
    requires !live ==> NoList(m'.h) || (!OnStack(m.ts, on, i + 3) && !OffStacks(m.ts, i + 3))
    ensures !Isolated(m', on)
  {
    hide Isolated, Freed, Free, NoList, StackAt;
    if live {
      var k :| 0 < k < 8 && m.ts[k].state != Unused && m.ts[k].stackBase == ptr;
      StackAddress(m, on, k);
      StackTaken(m, on, m'.h, i, k);
    } else if NoList(m'.h) {
      ListGone(m', on);
    } else {
      var k :| 0 < k < 8 && m.ts[k].state != Unused && OnStack(m.ts, k, i + 3);
      StackSpoilt(m, on, i + 3, 1, k);
    }
  }

  /** A stack never makes the sum in the ceiling test wrap. */
  lemma StackPages(brk: u32)
    requires brk <= 0xC040_0000
    ensures brk + 4096 * GrowthPages(2048) < 0x1_0000_0000
  {
  }

  /** A stack freed does not change what is behind another. */
  lemma BehindOther(m: Machine, h': seq<u32>, on: nat, i: nat)
    requires Isolated(m, on) && 0 < on < 8 && 0 < i < 8 && i != on && Used(m, on) && Used(m, i)
    requires StackAt(m.ts[i]) >= 4 && StackAt(m.ts[i]) - 4 in Live(m.bs, 0)
    requires Freed(m.h, h', m.bs, StackAt(m.ts[i]) - 4)
    ensures BehindStack(h', StackAt(m.ts[on])) <==> BehindStack(m.h, StackAt(m.ts[on]))
  {
    hide ListOk, Parked, StackOk, Live, Freed, BehindStack, StackAt;
    BehindFreed(m.h, h', m.bs, StackAt(m.ts[i]) - 4, StackAt(m.ts[on]));
  }

  lemma FitStack(h: seq<u32>, bs: seq<Block>, h': seq<u32>, bs': seq<Block>, stack: u32, i: nat)
    requires i == AllocAt(bs, 0, 2048) && stack == Addr(i) + 16 && bs' == Alloc(bs, 2048)
    requires SameBut(HandedWords(h, i, 2048), h', WordAt(stack) + 2037, WordAt(stack) + 2048)
    ensures FirstFitStack(h, bs, h', bs', WordAt(stack))
  {
    hide HandedWords, Alloc, AllocAt, SameBut;
    PointerTo(stack, i);
  }

  lemma EnabledOk(s: Sched, on: bool)
    requires RoundRobin.Ok(s)
    ensures RoundRobin.Ok(s.(enabled := on)) && Step(s, Enable(on)) == s.(enabled := on)
  {
  }

  lemma NoStackThere(m: Machine, on: nat, ptr: u32, i: nat)
    requires Isolated(m, on) && ptr % 4 == 0 && ptr >= 0xC000_0010 && i == (ptr - 0xC000_0010) / 4
    requires forall k | 0 < k < 8 && Used(m, k) :: m.ts[k].stackBase != ptr
    ensures forall k | 0 < k < 8 && Used(m, k) :: StackAt(m.ts[k]) != i + 4
  {
    hide ListOk, Parked, StackOk;
  }

  lemma SmallerArea(m: seq<u32>, m': seq<u32>, fs: set<nat>, gs: set<nat>)
    requires SameOutside(m, m', fs) && fs <= gs
    ensures SameOutside(m, m', gs)
  {
  }

  lemma NewStackWord(m: Machine, on: nat, w: nat, k: nat, v: u32)
    requires Isolated(m, on) && Used(m, on) && StackOk(m.bs, w) && k < 2048
    requires forall i | 0 < i < 8 && Used(m, i) :: StackAt(m.ts[i]) != w
    ensures w + k < |m.h| && InPayload(m.bs, 0, w + k) && |StackWords(m.h, w)| == 2048
    ensures StackWords(m.h[w + k := v], w) == StackWords(m.h, w)[k := v]
    ensures ListOk(m.h[w + k := v], m.bs) ==> Isolated(m.(h := m.h[w + k := v]), on)
    ensures StackOf(m.(h := m.h[w + k := v]), on) == StackOf(m, on)
  {
    HeapStackPoked(m, on, w, k, v);
  }

  lemma PointerTo(ptr: u32, i: nat)
    requires ptr >= 0xC000_0010 && i == (ptr - 0xC000_0010) / 4
    ensures (ptr - 0xC000_0000) / 4 == i + 4
  {
  }

  lemma GrantedLive(h: seq<u32>, h': seq<u32>, bs: seq<Block>, cs: seq<Block>, n: nat, i: nat, clean: bool)
    requires Granted(h, h', bs, cs, n, i, clean)
    ensures i in Live(cs, 0) && i !in Live(bs, 0)
  {
  }

  /** The stack of a task that is not on the processor is a live block, and no
      other task's. */
  lemma LiveStack(m: Machine, on: nat, i: nat)
    requires Isolated(m, on) && 0 < i < 8 && Used(m, i)
    ensures m.ts[i].stackBase % 4 == 0 && m.ts[i].stackBase >= 0xC000_0010 && m.ts[i].stackBase == Addr(StackAt(m.ts[i]))
    ensures StackAt(m.ts[i]) >= 4 && (m.ts[i].stackBase - 0xC000_0010) / 4 == StackAt(m.ts[i]) - 4
    ensures StackAt(m.ts[i]) - 4 in Live(m.bs, 0) && ListOk(m.h, m.bs)
    ensures forall k | 0 < k < 8 && Used(m, k) && k != i :: StackAt(m.ts[k]) != StackAt(m.ts[i])
  {
    hide Live, ListOk, Parked;
  }

  lemma BaseIs(m: Machine, i: nat)
    requires 0 < i < |m.ts|
    ensures Base(m, i) == m.ts[i].stackBase
  {
  }

  lemma SameBase(m: Machine, m': Machine, on: nat)
    requires m'.ts == m.ts && m'.lo == m.lo
    ensures Base(m', on) == Base(m, on)
  {
  }

  lemma SameState(ts: seq<Task>, i: nat)
    requires i < |ts|
    ensures States(ts)[i := ts[i].state] == States(ts)
  {
  }

  lemma ParkedNow(m: Machine, on: nat, esp: u32, k: nat, c: Context)
    requires esp == Base(m, on) + 4 * k && FrameAt(StackOf(m, on), k, c)
    ensures ParkedAt(esp, Base(m, on), StackOf(m, on), c)
  {
  }
}
