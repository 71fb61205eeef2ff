/** From the boot loader's memory map to a running heap: which frames are free
    after start-up, and exactly when start-up succeeds. */
module Boot {
  import opened Words
  import opened MemoryMap
  import opened Pmm
  import opened PageTables
  import opened IdentityMap
  import opened Leaves
  import opened Paging
  import opened Blocks
  import opened HeapWords
  import opened Heap
  import opened Ownership
  import opened Kernel

  /** One of the first 32 entries frees frame `f`. */
  ghost predicate FreedByMap(es: seq<Entry>, f: nat) {
    exists i | 0 <= i < |es| && i < MAX_REGIONS :: Frees(Truncate(es[i]), f)
  }

  lemma RecordedEntries(es: seq<Entry>, rs: seq<Region>, f: nat)
    requires |rs| == if |es| <= MAX_REGIONS then |es| else MAX_REGIONS
    requires forall i | 0 <= i < |rs| :: rs[i] == Truncate(es[i])
    ensures SomeFrees(rs, f) <==> FreedByMap(es, f)
  {
    hide Frees, Truncate;
    if SomeFrees(rs, f) {
      var i :| 0 <= i < |rs| && Frees(rs[i], f);
      assert Frees(Truncate(es[i]), f);
    }
    if i :| 0 <= i < |es| && i < MAX_REGIONS && Frees(Truncate(es[i]), f) {
      assert Frees(rs[i], f);
    }
  }

  /** The frames free after `pmm_init`, for any memory map: those that lie, rounded down
      to frames, in one of the first 32 entries that is usable, below the end of
      memory and behind the last byte of kernel and bitmap. The bitmap has `words`
      words, one bit for every frame. */
  lemma BootFreeExactly(es: seq<Entry>, kernelEnd: u32, words: nat, f: nat)
    requires CountAll(NOTHING, es).highest / 4096 <= 32 * words < CountAll(NOTHING, es).highest / 4096 + 32
    ensures var t := CountAll(NOTHING, es); var total := t.highest / 4096;
      f in BootFree(t.regions, total, kernelEnd) <==>
      && f < total && PageUp(kernelEnd) + 4 * words < 4096 * f
      && exists i | 0 <= i < |es| && i < 32 ::
           es[i].kind == USABLE && Wrap(es[i].addr) / 4096 <= f < Wrap(es[i].addr) / 4096 + Wrap(es[i].len) / 4096
  {
    hide BootFree, LastReserved, SomeFrees, PageUp, CountAll, BitmapWords, Wrap;
    var t := CountAll(NOTHING, es);
    BootFreeByMap(es, kernelEnd, f);
    LastReservedByte(t.highest / 4096, kernelEnd, words, f);
    if i :| 0 <= i < |es| && i < MAX_REGIONS && Frees(Truncate(es[i]), f) {
      assert es[i].kind == USABLE
             && Wrap(es[i].addr) / 4096 <= f < Wrap(es[i].addr) / 4096 + Wrap(es[i].len) / 4096;
    }
    if i :| 0 <= i < |es| && i < 32
            && es[i].kind == USABLE
            && Wrap(es[i].addr) / 4096 <= f < Wrap(es[i].addr) / 4096 + Wrap(es[i].len) / 4096 {
      assert Frees(Truncate(es[i]), f);
    }
  }

  lemma BootFreeByMap(es: seq<Entry>, kernelEnd: u32, f: nat)
    ensures var t := CountAll(NOTHING, es); var total := t.highest / 4096;
      f in BootFree(t.regions, total, kernelEnd) <==> LastReserved(total, kernelEnd) < f < total && FreedByMap(es, f)
  {
    hide BootFree, LastReserved, FreedByMap, SomeFrees, Truncate;
    var t := CountAll(NOTHING, es);
    RegionsRecorded(NOTHING, es);
    RecordedEntries(es, t.regions, f);
    AboveReserved(t.regions, t.highest / 4096, kernelEnd, f);
  }

  /** All 4096 bytes of frame `f` lie in the memory that the entry describes. */
  predicate Inside(e: Entry, f: nat) {
    e.addr <= 4096 * f && 4096 * f + 4096 <= e.addr + e.len
  }

  /** The entry survives the 32-bit casts and starts on a frame boundary, or is
      too short to free anything. */
  predicate Fair(e: Entry) {
    Wrap(e.len) < 4096 || (e.addr < 0x1_0000_0000 && e.addr % 4096 == 0)
  }

  /** A usable entry frees only frames inside itself exactly when it is fair: one
      that starts inside a frame also frees the bytes before it, and one above
      4 GB frees frames of low memory. */
  lemma FairEntries(e: Entry)
    requires e.kind == USABLE
    ensures Fair(e) <==> forall f: nat | Frees(Truncate(e), f) :: Inside(e, f)
  {
    var r := Truncate(e);
    if Fair(e) {
      forall f: nat | Frees(r, f) ensures Inside(e, f) {
        assert 4096 * (r.len / 4096) <= r.len <= e.len;
        assert 4096 * (r.base / 4096) == e.addr;
      }
    } else {
      var f := r.base / 4096;
      assert Frees(r, f) && !Inside(e, f);
    }
  }

  /** With fair entries every frame that boot leaves free is usable memory. */
  lemma FreeFramesAreMemory(es: seq<Entry>, kernelEnd: u32, f: nat)
    requires forall i | 0 <= i < |es| && i < MAX_REGIONS && es[i].kind == USABLE :: Fair(es[i])
    requires var t := CountAll(NOTHING, es); f in BootFree(t.regions, t.highest / 4096, kernelEnd)
    ensures exists i | 0 <= i < |es| :: es[i].kind == USABLE && Inside(es[i], f)
  {
    hide Fair, Inside, Frees;
    BootFreeByMap(es, kernelEnd, f);
    var i :| 0 <= i < |es| && i < MAX_REGIONS && Frees(Truncate(es[i]), f);
    UsableFrees(es[i], f);
    FairEntries(es[i]);
  }

  lemma UsableFrees(e: Entry, f: nat)
    requires Frees(Truncate(e), f)
    ensures e.kind == USABLE
  {
  }

  // ---- when boot succeeds ----

  /** The 64 KB of `heap_init`, when the window has no table yet: 16 frames and
      one for the table, which must lie in the identity window. */
  lemma FirstGrowth(a: AddressMap, lim: nat)
    requires 0xC_0000 / 1024 !in a.tables
    ensures AllGrow(a, 0xC_0000, 16, lim) <==> |a.free| >= 17 && |Below(a.free, lim)| >= 2
  {
    if a.free == {} {
      assert Below(a.free, lim) == {};
    } else {
      TwoBelow(a.free, lim);
      if CanGrow(a, 0xC_0000, lim) {
        var f, b := Least(a.free), Grown(a, 0xC_0000);
        assert b.free == a.free - {f} - {Least(a.free - {f})};
        WindowGrowth(b, lim, 0xC_0001, 15);
      }
    }
  }

  /** What the identity map left of the free frames, below `lim` and in all. */
  lemma LeftAfterPaging(a: AddressMap, all: set<nat>, dir: nat, lim: nat)
    requires DistinctTables(a.tables, dir, lim) && dir < lim
    requires a.free + a.tables.Values + {dir} == all && a.free !! a.tables.Values + {dir}
    ensures |a.free| + |a.tables| + 1 == |all|
    ensures |Below(a.free, lim)| + |a.tables| + 1 == |Below(all, lim)|
  {
    TableFrameCount(a.tables, dir, lim);
    TableNotDir(a.tables, dir, lim);
    assert forall f | f in a.tables.Values :: f < lim;
    hide DistinctTables;
    SplitCount(a.free, a.tables.Values, dir, all, lim);
  }

  lemma SplitCount(free: set<nat>, tables: set<nat>, dir: nat, all: set<nat>, lim: nat)
    requires dir < lim && dir !in tables && forall f | f in tables :: f < lim
    requires free + tables + {dir} == all && free !! tables + {dir}
    ensures |free| + |tables| + 1 == |all|
    ensures |Below(free, lim)| + |tables| + 1 == |Below(all, lim)|
  {
    var taken := tables + {dir};
    DisjointCount(tables, {dir});
    DisjointCount(free, taken);
    assert free + taken == all;
    DisjointCount(Below(free, lim), taken);
    assert Below(free, lim) + taken == Below(all, lim);
  }

  /** What the loader's map amounts to. */
  ghost function Tallied(hasMap: bool, es: seq<Entry>): Tally {
    if hasMap then CountAll(NOTHING, es) else NOTHING
  }

  /** The free frames suffice for the directory, the tables of the identity map,
      the table of the heap window and the first 16 pages of the heap; all but
      those pages must lie in the identity window. */
  ghost predicate EnoughFrames(all: set<nat>, lim: nat) {
    |Below(all, lim)| >= TablesFor(lim) + 3 && |all| >= TablesFor(lim) + 18
  }

  /** The first usable frames of a machine with memory from 1 MB to 16 MB. */
  lemma LowFrames(es: seq<Entry>, i: nat, total: nat, kernelEnd: u32, f: nat)
    requires i < |es| && i < MAX_REGIONS && es[i].kind == USABLE && kernelEnd <= 0x80_0000
    requires es[i].addr == 0x10_0000 && 0x100_0000 <= es[i].addr + es[i].len < 0x1_0000_0000
    requires 4096 <= total <= 0xF_FFFF && 2081 <= f < 4096
    ensures LastReserved(total, kernelEnd) < f < total && FreedByMap(es, f)
  {
    assert LastReserved(total, kernelEnd) <= 2080;
    assert Frees(Truncate(es[i]), f);
  }

  lemma EndIsHigh(es: seq<Entry>, i: nat)
    requires i < |es| && es[i].kind == USABLE
    requires es[i].addr == 0x10_0000 && 0x100_0000 <= es[i].addr + es[i].len < 0x1_0000_0000
    ensures CountAll(NOTHING, es).highest >= 0x100_0000
  {
    hide CountAll;
    HighestIsMaximum(NOTHING, es);
    EndFits(es[i]);
  }

  lemma EndFits(e: Entry)
    requires e.addr == 0x10_0000 && e.addr + e.len < 0x1_0000_0000
    ensures End(Truncate(e)) == e.addr + e.len
  {
  }

  /** A machine with usable memory from 1 MB to 16 MB or beyond has enough frames,
      if the kernel ends below 8 MB: the condition of `KernelMain` is met. */
  lemma UsualMachineBoots(es: seq<Entry>, i: nat, kernelEnd: u32)
    requires i < |es| && i < MAX_REGIONS && es[i].kind == USABLE && kernelEnd <= 0x80_0000
    requires es[i].addr == 0x10_0000 && 0x100_0000 <= es[i].addr + es[i].len < 0x1_0000_0000
    ensures var t := CountAll(NOTHING, es);
      && t.highest >= 0x100_0000
      && EnoughFrames(BootFree(t.regions, t.highest / 4096, kernelEnd), IdentityEnd(t.highest) / 4096)
  {
    hide CountAll, BootFree, LastReserved, FreedByMap, Truncate, EnoughFrames;
    var t := CountAll(NOTHING, es);
    EndIsHigh(es, i);
    var all := BootFree(t.regions, t.highest / 4096, kernelEnd);
    forall f: nat | 2081 <= f < 4096 ensures f in all {
      LowFrames(es, i, t.highest / 4096, kernelEnd, f);
      BootFreeByMap(es, kernelEnd, f);
    }
    EnoughLow(all, 2081, 4096);
  }

  lemma TwoEntries(d: Entry, e: Entry)
    requires d == Entry(0x10_0000, 0xF0_0000, USABLE, []) && e == Entry(0x100_0800, 0x10_0000, USABLE, [])
    ensures CountAll(NOTHING, [d, e]).regions == [Truncate(d), Truncate(e)]
    ensures CountAll(NOTHING, [d, e]).highest == 0x110_0800
  {
    var s := Count(NOTHING, Truncate(d));
    assert [d, e][1..] == [e];
    assert CountAll(NOTHING, [d, e]) == CountAll(s, [e]) == Count(s, Truncate(e));
  }

  lemma LaterStarts(d: Entry, e: Entry)
    requires d == Entry(0x10_0000, 0xF0_0000, USABLE, []) && e == Entry(0x100_0800, 0x10_0000, USABLE, [])
    ensures Frees([Truncate(d), Truncate(e)][1], 0x1000) && LastReserved(0x1100, 0x20_0000) == 0x200
    ensures !Inside(d, 0x1000) && !Inside(e, 0x1000)
  {
  }

  /** A map on which the kernel boots and that has an entry which starts inside frame
      0x1000: that frame is free after boot although its first 2048 bytes are not
      usable memory. */
  lemma PartialFrameIsFree(es: seq<Entry>, kernelEnd: u32)
    requires es == [Entry(0x10_0000, 0xF0_0000, USABLE, []), Entry(0x100_0800, 0x10_0000, USABLE, [])]
    requires kernelEnd == 0x20_0000
    ensures var t := CountAll(NOTHING, es);
      && EnoughFrames(BootFree(t.regions, t.highest / 4096, kernelEnd), IdentityEnd(t.highest) / 4096)
      && 0x1000 in BootFree(t.regions, t.highest / 4096, kernelEnd)
    ensures !Inside(es[0], 0x1000) && !Inside(es[1], 0x1000)
  {
    hide EnoughFrames, IdentityEnd, BootFree, Inside, LastReserved, Frees, Truncate;
    UsualMachineBoots(es, 0, kernelEnd);
    TwoEntries(es[0], es[1]);
    assert es == [es[0], es[1]];
    var t := CountAll(NOTHING, es);
    LaterStarts(es[0], es[1]);
    assert t.regions[1] == Truncate(es[1]);
    AboveReserved(t.regions, t.highest / 4096, kernelEnd, 0x1000);
  }

  lemma EnoughLow(all: set<nat>, lo: nat, lim: nat)
    requires lo + TablesFor(lim) + 18 <= lim && forall f: nat | lo <= f < lim :: f in all
    ensures EnoughFrames(all, lim)
  {
    SpanMembers(lo, lim);
    SpanCount(lo, lim);
    Larger(Span(lo, lim), Below(all, lim));
    Larger(Span(lo, lim), all);
  }

  lemma Larger(some: set<nat>, all: set<nat>)
    requires some <= all
    ensures |some| <= |all|
  {
    var rest := all - some;
    assert all == some + rest;
    DisjointCount(some, rest);
  }

  lemma BootFreeBounds(rs: seq<Region>, total: nat, kernelEnd: u32)
    ensures 0 !in BootFree(rs, total, kernelEnd)
    ensures forall f | f in BootFree(rs, total, kernelEnd) :: f < total
  {
    hide BootFree, LastReserved, SomeFrees;
    forall f: nat ensures f in BootFree(rs, total, kernelEnd) ==> 0 < f < total {
      AboveReserved(rs, total, kernelEnd, f);
    }
  }

  /** What holds between `paging_init` and `heap_init`. */
  lemma AfterPaging(m: seq<u32>, dir: nat, lim: nat, free: set<nat>, tc: int, mp: int, total: nat, all: set<nat>)
    requires SpaceOk(m, dir, lim, free, tc, mp) && dir < lim <= total && lim <= 4096 && total <= 0xF_FFFF
    requires PagesOf(m, dir) == IdentityPages(lim) && tc == TablesFor(lim)
    requires forall di: nat :: di in TablesOf(m, dir) <==> di < TablesFor(lim)
    requires free + TablesOf(m, dir).Values + {dir} == all && 0 !in all && forall f | f in all :: f < total
    ensures var a := ViewOf(m, dir, free);
      && Partition(a, dir, lim, total, Others(Span(0, total) - all, {}, {})) && Sound(a, dir, lim, total)
      && (AllGrow(a, 0xC_0000, 16, lim) <==> EnoughFrames(all, lim))
  {
    hide TablesOf, PagesOf, Partition, Sound, AllGrow, Below, IdentityPages, DistinctTables;
    var a := ViewOf(m, dir, free);
    BootPartition(a, dir, lim, total, all);
    PartitionSound(a, dir, lim, total, Others(Span(0, total) - all, {}, {}));
    LeftAfterPaging(a, all, dir, lim);
    FirstGrowth(a, lim);
  }

  lemma AfterHeap(a: AddressMap, b: AddressMap, dir: nat, lim: nat, total: nat, o: Others)
    requires Partition(a, dir, lim, total, o) && lim <= 4096 && a.pages == IdentityPages(lim)
    requires b == GrowPages(a, 0xC_0000, 16, lim)
    requires Sound(b, dir, lim, total) && DistinctTables(b.tables, dir, lim) && 0 !in b.free
    ensures Partition(b, dir, lim, total, o)
    ensures NothingAbove(b.pages, 0xC001_0000)
  {
    PartitionSound(a, dir, lim, total, o);
    hide Partition, Sound, Owned, DistinctTables, GrowPages;
    LosesNothing(a, dir, lim, total, 0xC_0000, 16);
    GivenUp(a, b, dir, lim, total, o);
    assert AddLost(o, Owned(a, dir, lim), Owned(b, dir, lim)) == o;
    forall w: nat | 0xC_0010 <= w < 0xC_0400 ensures w !in b.pages {
      GrowPagesRange(a, lim, 0xC_0000, 16, w);
    }
  }

  lemma ZeroReserved(total: nat, all: set<nat>)
    requires 0 < total && 0 !in all
    ensures 0 in Span(0, total) - all
  {
    SpanMembers(0, total);
  }

  /** `memory_init` and `pmm_init`: the free frames are those of `BootFreeExactly`. */
  method StartFrames(ram: array<u32>, hasMap: bool, mmapAddr: u32, mmapLength: u32, ghost es: seq<Entry>,
          kernelEnd: u32)
    returns (frames: FrameAllocator, highest: u32)
    requires kernelEnd <= 0xF000_0000
    requires hasMap ==> mmapAddr % 4 == 0 && mmapLength % 4 == 0 && (mmapAddr + mmapLength) / 4 <= ram.Length
    requires hasMap ==> ram[mmapAddr / 4..(mmapAddr + mmapLength) / 4] == Encode(es)
    requires ram.Length <= 1024 * 0xF_FFFF
    ensures fresh(frames) && fresh(frames.bitmap) && frames.Valid()
    ensures highest == Tallied(hasMap, es).highest && frames.total == highest / 4096
    ensures frames.Free() == BootFree(Tallied(hasMap, es).regions, highest / 4096, kernelEnd)
  {
    hide BootFree, CountAll, Encode;
    var info := new MemoryInfo();
    var found := info.Init(ram[..], hasMap, mmapAddr, mmapLength, es);
    frames := new FrameAllocator(info, kernelEnd);
    highest := info.highest;
  }

  /** `heap_init` right after `paging_init`. */
  method StartHeap(space: AddressSpace, ghost o: Others) returns (ok: bool, stack: MemoryStack)
    requires space.Valid() && space.Dir() < space.Lim() <= 4096 && space.View().pages == IdentityPages(space.Lim())
    requires Partition(space.View(), space.Dir(), space.Lim(), space.pmm.total, o)
    requires 0 in o.reserved && o.lost == {}
    modifies space`tableCount, space`mappedPages, space.ram, space.pmm, space.pmm.bitmap
    ensures fresh(stack) && fresh(stack.heap) && stack.space == space && stack.pmm == space.pmm
    ensures ok <==> AllGrow(old(space.View()), 0xC_0000, 16, space.Lim())
    ensures ok ==> stack.Valid() && !stack.stranded && stack.others == o && stack.heap.blocks == [Block(16380, true)]
    ensures ok ==> stack.heap.brk == 0xC001_0000
    ensures ok && Absent(old(space.ram[..]), old(space.View()).free, BLOCK_MAGIC) ==> stack.heap.Trusted()
  {
    hide SpaceOk, TablesOf, PagesOf, FrameAllocator.Valid, FreeSet, Sound, Partition, Leaves.Flat, AllGrow, GrowPages,
      IdentityPages, WindowMapped, NothingAbove, SameOutside, Owned, KernelHeap.Holds, Coalesced, Absent, Genuine;
    ghost var a := space.View();
    PartitionSound(a, space.Dir(), space.Lim(), space.pmm.total, o);
    var heap := new KernelHeap(space);
    stack := new MemoryStack(heap);
    ok := heap.Init();
    if ok {
      stack.others := o;
      TablesDistinct(space.ram[..], space.Dir(), space.Lim(), space.pmm.Free(), space.tableCount, space.mappedPages);
      AfterHeap(a, space.View(), space.Dir(), space.Lim(), space.pmm.total, o);
    }
  }

  /** From the loader's map to a running heap: `memory_init`, `pmm_init`,
      `paging_init` and `heap_init` in the order of `kernel_main`. `ram` is all of
      physical memory below the highest usable address. */
  method StartMemory(ram: array<u32>, hasMap: bool, mmapAddr: u32, mmapLength: u32, ghost es: seq<Entry>,
          kernelEnd: u32)
    returns (ok: bool, stack: MemoryStack?)
    requires kernelEnd <= 0xF000_0000
    requires ram.Length == 1024 * (Tallied(hasMap, es).highest / 4096)
    requires hasMap ==> mmapAddr % 4 == 0 && mmapLength % 4 == 0 && (mmapAddr + mmapLength) / 4 <= ram.Length
    requires hasMap ==> ram[mmapAddr / 4..(mmapAddr + mmapLength) / 4] == Encode(es)
    modifies ram
    ensures ok <==> stack != null
    ensures ok ==> fresh(stack) && fresh(stack.heap) && fresh(stack.space) && fresh(stack.pmm) && fresh(stack.pmm.bitmap)
    ensures var t := Tallied(hasMap, es); var all := BootFree(t.regions, t.highest / 4096, kernelEnd);
      && (ok <==> EnoughFrames(all, IdentityEnd(t.highest) / 4096))
      && (ok ==> stack.others == Others(Span(0, t.highest / 4096) - all, {}, {}))
    ensures ok ==> stack.Valid() && !stack.stranded && stack.space.ram == ram && stack.heap.blocks == [Block(16380, true)]
    ensures ok ==> stack.pmm.total == Tallied(hasMap, es).highest / 4096 && stack.heap.brk == 0xC001_0000
    ensures ok ==> var high, end := Tallied(hasMap, es).highest, stack.space.identityEnd;
      && (high == 0 || high >= 0x100_0000 ==> end == 0x100_0000)
      && (0 < high < 0x100_0000 ==> end % 4096 == 0 && end <= high < end + 4096)
    ensures var t := Tallied(hasMap, es);
      ok && Absent(old(ram[..]), BootFree(t.regions, t.highest / 4096, kernelEnd), BLOCK_MAGIC) ==> stack.heap.Trusted()
  {
    hide SpaceOk, TablesOf, PagesOf, FrameAllocator.Valid, FreeSet, Sound, Partition, AllGrow, Below, BootFree,
      IdentityPages, IdentityEnd, CountAll, Encode, MemoryStack.Valid, Absent, KernelHeap.Trusted;
    var frames, highest := StartFrames(ram, hasMap, mmapAddr, mmapLength, es, kernelEnd);
    var space := new AddressSpace(ram, frames);
    ghost var total, all := frames.total, frames.Free();
    BootFreeBounds(Tallied(hasMap, es).regions, total, kernelEnd);
    ok := space.Init(highest, BLOCK_MAGIC);
    if !ok {
      return false, null;
    }
    AfterPaging(ram[..], space.Dir(), space.Lim(), frames.Free(), space.tableCount, space.mappedPages, total, all);
    ZeroReserved(total, all);
    ok, stack := StartHeap(space, Others(Span(0, total) - all, {}, {}));
    if !ok {
      stack := null;
    }
  }
}
