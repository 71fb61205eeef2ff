/** The memory stack as a whole: the boot sequence, the shell commands that act on
    it, and what they keep. */
module Kernel {
  import opened Words
  import opened Pmm
  import opened PageTables
  import opened IdentityMap
  import opened Leaves
  import opened Paging
  import opened Blocks
  import opened HeapWords
  import opened HeapSteps
  import opened Heap
  import opened Ownership

  /** No page of the heap window is mapped at or above the break. */
  ghost predicate NothingAbove(pages: map<nat, u32>, brk: u32) {
    forall vp: nat | brk / 4096 <= vp < 0xC_0400 :: vp !in pages
  }

  /** A page of the heap window at or above the break. */
  predicate AtBreak(vp: nat, brk: u32) { brk / 4096 <= vp < 0xC_0400 }

  /** Frame `f` holds the magic word nowhere. */
  ghost predicate NoMagic(m: seq<u32>, f: nat) { Absent(m, {f}, BLOCK_MAGIC) }

  datatype MapResult = Usage | AlreadyMapped | OutOfMemory | NoTable | MappedAt(frame: u32, readBack: u32)

  datatype UnmapResult = NotMapped | Refused | Removed

  class MemoryStack {
    const heap: KernelHeap
    const space: AddressSpace
    const pmm: FrameAllocator
    ghost var others: Others
    /** Pages of the heap window may be mapped above the break: a growth has failed
        midway at some time, or `map` was used there. */
    ghost var stranded: bool

    ghost predicate Owns()
      reads this, heap`brk, space, space.ram, pmm, pmm.bitmap
    {
      && heap.space == space && space.pmm == pmm
      && heap.Backed() && space.Dir() < space.Lim()
      && Partition(space.View(), space.Dir(), space.Lim(), pmm.total, others) && 0 in others.reserved
    }

    /** The heap is up, every frame has one owner, and none is lost unless pages were
        mapped above the break. */
    ghost predicate Valid()
      reads this, heap, space, space.ram, pmm, pmm.bitmap
    {
      && Owns() && heap.Valid()
      && (!stranded ==> others.lost == {} && NothingAbove(space.View().pages, heap.brk))
    }

    constructor (h: KernelHeap)
      ensures heap == h && space == h.space && pmm == h.space.pmm
      ensures others == Others({}, {}, {}) && !stranded
    {
      heap, space, pmm := h, h.space, h.space.pmm;
      others, stranded := Others({}, {}, {}), false;
    }

    /** Below the identity end translation is the identity, and the directory and
        the tables lie there: with the MMU on, the kernel reaches them at their
        physical addresses. */
    lemma SelfHosted(addr: u32)
      requires Valid()
      ensures addr < space.identityEnd ==> Translation(space.View().pages, addr) == addr
      ensures space.Dir() < space.Lim()
      ensures forall di | di in space.View().tables :: space.View().tables[di] < space.Lim()
    {
      hide AddressSpace.View, SpaceOk;
      if addr < space.identityEnd {
        assert addr / 4096 in space.View().pages;
      }
    }

    /** The counters shown by `frames` and `paging`. */
    lemma CountersAgree()
      requires Valid()
      ensures pmm.used == |others.reserved| + 1 + space.tableCount + (space.mappedPages - space.Lim())
                          + |others.raw| + |others.lost|
    {
      hide Partition, TablesOf, PagesOf;
      UsedFramesAddUp(space.View(), space.Dir(), space.Lim(), pmm.total, others);
    }

    /** The `alloc` command. */
    method CmdAlloc() returns (addr: u32)
      requires Valid()
      modifies this`others, pmm, pmm.bitmap
      ensures Valid()
      ensures addr == 4096 * Least(old(pmm.Free()))
      ensures pmm.Free() == Without(old(pmm.Free()), addr / 4096)
      ensures others == if addr != 0 then AddRaw(old(others), addr / 4096) else old(others)
      ensures heap.Flat() == old(heap.Flat()) && space.ram[..] == old(space.ram[..])
      ensures old(heap.Clean()) ==> heap.Clean()
    {
      hide SpaceOk, TablesOf, PagesOf, FrameAllocator.Valid, FreeSet, Sound, Partition, ListOk, Leaves.Flat, Least,
        Coalesced, WindowMapped, NothingAbove, Absent;
      ghost var free := pmm.Free();
      if free != {} {
        RawTaken(space.ram[..], space.Dir(), space.Lim(), free, space.tableCount, space.mappedPages, pmm.total,
          others, Least(free));
      }
      AbsentWithout(space.ram[..], free, Least(free), BLOCK_MAGIC);
      addr := pmm.AllocFrame();
      if addr == 0 {
        assert pmm.Free() == free;
      } else {
        others := AddRaw(others, addr / 4096);
      }
    }

    /** The `free` command. It checks nothing: the books stay right exactly when the
        frame was handed out by `alloc`, was lost, is free already, or is none. */
    method CmdFree(addr: u32)
      requires Valid()
      modifies this`others, pmm, pmm.bitmap
      ensures Valid() <==> addr == 0 || addr / 4096 >= pmm.total
                           || addr / 4096 in old(others).raw + old(others).lost + old(pmm.Free())
      ensures pmm.Free() == if addr == 0 || addr / 4096 >= pmm.total then old(pmm.Free())
                            else With(old(pmm.Free()), addr / 4096)
      ensures others == DropRaw(old(others), addr / 4096)
      ensures heap.Flat() == old(heap.Flat()) && space.ram[..] == old(space.ram[..])
      ensures old(heap.Clean()) ==>
                (heap.Clean() <==>
                 addr == 0 || addr / 4096 >= pmm.total || NoMagic(space.ram[..], addr / 4096))
    {
      hide SpaceOk, TablesOf, PagesOf, FrameAllocator.Valid, FreeSet, Sound, Partition, ListOk, Leaves.Flat,
        Coalesced, WindowMapped, NothingAbove, DropRaw, Pmm.Release, Owned, Absent;
      ghost var f := addr / 4096;
      OthersExist(space.View(), space.Dir(), space.Lim(), pmm.total, others, f);
      if addr == 0 {
        return;
      }
      AbsentWith(space.ram[..], pmm.Free(), f, BLOCK_MAGIC);
      if f < pmm.total {
        Freeing(space.ram[..], space.Dir(), space.Lim(), pmm.Free(), space.tableCount, space.mappedPages, pmm.total,
          others, f);
      }
      pmm.FreeFrame(addr);
      others := DropRaw(others, f);
    }

    /** A word written through the page of `virt` and read back. */
    method Probe(virt: u32) returns (readBack: u32)
      requires Valid() && virt % 4 == 0 && OutsideHeap(virt / 4096, heap.N())
      requires virt / 4096 in space.View().pages && space.Lim() <= virt / 4096
      modifies space.ram
      ensures Valid() && space.View() == old(space.View()) && heap.Flat() == old(heap.Flat())
      ensures readBack == 0x1234_ABCD
      ensures old(heap.Clean()) ==> heap.Clean()
      ensures SameOutside(old(space.ram[..]), space.ram[..], heap.Area())
    {
      hide SpaceOk, TablesOf, PagesOf, FrameAllocator.Valid, FreeSet, Sound, Partition, ListOk, Leaves.Flat,
        Coalesced, WindowMapped, NothingAbove, SameOutside, Translation, LeafFrames, Absent;
      ghost var m, a, vp := space.ram[..], space.View(), virt / 4096;
      ThroughPage(m, a, space.Dir(), space.Lim(), space.pmm.total, virt, heap.N(), 0x1234_ABCD);
      ghost var w := Translation(a.pages, virt) / 4;
      SpaceSame(m, m[w := 0x1234_ABCD], space.Dir(), space.Lim(), pmm.Free(), space.tableCount, space.mappedPages,
        {w / 1024});
      StillAbsent(m, m[w := 0x1234_ABCD], a.free, {w / 1024}, BLOCK_MAGIC);
      SameOutsideRefl(m, heap.Area());
      SameOutsideStep(m, m, m[w := 0x1234_ABCD], heap.Area(), {w / 1024});
      var phys := space.Translate(virt);
      Paging.Store(space.ram, phys / 4, 0x1234_ABCD);
      phys := space.Translate(virt);
      readBack := space.ram[phys / 4];
    }

    /** The allocating half of the `map` command. */
    method MapPage(virt: u32) returns (ok: bool, frame: u32)
      requires Valid() && virt / 4096 !in space.View().pages
      modifies this`stranded, space`tableCount, space`mappedPages, space.ram, pmm, pmm.bitmap
      ensures Valid() && heap.Flat() == old(heap.Flat())
      ensures SameOutside(old(space.ram[..]), space.ram[..], old(heap.Area())) && heap.Area() == old(heap.Area())
      ensures frame == 0 <==> old(pmm.Free()) == {}
      ensures ok <==> CanGrow(old(space.View()), virt / 4096, space.Lim())
      ensures ok ==> frame == 4096 * Least(old(pmm.Free())) != 0
      ensures ok ==> virt / 4096 in space.View().pages && space.Lim() <= virt / 4096
      ensures space.View() == if ok then Grown(old(space.View()), virt / 4096) else old(space.View())
      ensures !ok ==> space.ram[..] == old(space.ram[..]) && pmm.bitmap[..] == old(pmm.bitmap[..])
      ensures !ok ==> space.tableCount == old(space.tableCount) && space.mappedPages == old(space.mappedPages)
      ensures stranded <==> old(stranded) || (ok && AtBreak(virt / 4096, heap.brk))
      ensures OutsideHeap(virt / 4096, heap.N())
      ensures old(heap.Clean()) ==> heap.Clean()
    {
      hide SpaceOk, TablesOf, PagesOf, FrameAllocator.Valid, FreeSet, Sound, Partition, ListOk, Leaves.Flat,
        Coalesced, WindowMapped, NothingAbove, Grown, CanGrow, SameOutside, Owned, Absent;
      ghost var a, m, vp := space.View(), space.ram[..], virt / 4096;
      SameOutsideRefl(m, heap.Area());
      NotInHeap(a.pages, vp, heap.N());
      ok, frame := space.MapFresh(virt);
      if ok {
        TablesDistinct(space.ram[..], space.Dir(), space.Lim(), pmm.Free(), space.tableCount, space.mappedPages);
        MappedOutside(m, space.ram[..], a, space.Dir(), space.Lim(), pmm.total, vp, heap.N(), heap.brk, others);
        SameOutsideStep(m, m, space.ram[..], old(heap.Area()), Metadata(space.ram[..], space.Dir()));
        if Absent(m, a.free, BLOCK_MAGIC) {
          MappedClean(m, space.ram[..], a, space.Dir(), space.Lim(), pmm.total, vp, BLOCK_MAGIC);
        }
        stranded := stranded || AtBreak(vp, heap.brk);
      }
    }

    /** The `map` command. A failure leaves bitmap, counters and tables exactly as
        they were; on success the word written through the new page is read back. */
    method CmdMap(arg: u32) returns (r: MapResult)
      requires Valid()
      modifies this`stranded, space`tableCount, space`mappedPages, space.ram, pmm, pmm.bitmap
      ensures Valid()
      ensures r.Usage? <==> arg / 4096 == 0
      ensures r.AlreadyMapped? <==> arg / 4096 != 0 && arg / 4096 in old(space.View()).pages
      ensures r.OutOfMemory? <==> arg / 4096 != 0 && arg / 4096 !in old(space.View()).pages && old(pmm.Free()) == {}
      ensures r.NoTable? <==> arg / 4096 != 0 && arg / 4096 !in old(space.View()).pages && old(pmm.Free()) != {}
                              && !CanGrow(old(space.View()), arg / 4096, space.Lim())
      ensures r.MappedAt? <==> arg / 4096 != 0 && arg / 4096 !in old(space.View()).pages
                               && CanGrow(old(space.View()), arg / 4096, space.Lim())
      ensures r.MappedAt? ==> old(space.View()).free != {} && space.View() == Grown(old(space.View()), arg / 4096)
      ensures r.MappedAt? ==> r.readBack == 0x1234_ABCD && r.frame == 4096 * Least(old(pmm.Free()))
      ensures !r.MappedAt? ==> space.ram[..] == old(space.ram[..]) && pmm.bitmap[..] == old(pmm.bitmap[..])
      ensures !r.MappedAt? ==> space.View() == old(space.View()) && space.tableCount == old(space.tableCount)
                               && space.mappedPages == old(space.mappedPages)
      ensures stranded <==> old(stranded) || (r.MappedAt? && AtBreak(arg / 4096, heap.brk))
      ensures old(heap.Clean()) ==> heap.Clean()
      ensures heap.Flat() == old(heap.Flat()) && SameOutside(old(space.ram[..]), space.ram[..], old(heap.Area()))
    {
      hide SpaceOk, TablesOf, PagesOf, FrameAllocator.Valid, FreeSet, Sound, Partition, ListOk, Leaves.Flat,
        Coalesced, WindowMapped, NothingAbove, Grown, CanGrow, SameOutside, Translation, PageDown, OutsideHeap,
        DistinctTables, Owned, KernelHeap.Clean;
      SameOutsideRefl(space.ram[..], heap.Area());
      PageOf(arg);
      var virt := PageDown(arg);
      if virt == 0 {
        return Usage;
      }
      ghost var a, vp := space.View(), arg / 4096;
      PartitionSound(a, space.Dir(), space.Lim(), pmm.total, others);
      Unambiguous(a, space.Dir(), space.Lim(), pmm.total, virt);
      var t := space.Translate(virt);
      if t != PAGE_UNMAPPED {
        return AlreadyMapped;
      }
      var ok, frame := MapPage(virt);
      if frame == 0 {
        return OutOfMemory;
      }
      if !ok {
        return NoTable;
      }
      ghost var m := space.ram[..];
      var readBack := Probe(virt);
      SameOutsideStep(old(space.ram[..]), m, space.ram[..], heap.Area(), heap.Area());
      return MappedAt(frame, readBack);
    }

    /** The half of the `unmap` command that takes the page away. */
    method UnmapPage(virt: u32, phys: u32)
      requires Valid() && virt % 4096 == 0
      requires virt / 4096 in space.View().pages && space.Lim() <= virt / 4096
      requires phys == Translation(space.View().pages, virt)
      modifies space`mappedPages, space.ram, pmm, pmm.bitmap
      ensures space.Valid() && space.View() == Unmapped(old(space.View()), virt / 4096)
      ensures Valid() <==> OutsideHeap(virt / 4096, heap.N())
      ensures Valid() ==> heap.Flat() == old(heap.Flat())
      ensures old(heap.Clean()) ==>
                (heap.Clean() <==>
                 NoMagic(old(space.ram[..]), LeafFrame(old(space.View()), virt / 4096)))
      ensures SameOutside(old(space.ram[..]), space.ram[..], old(heap.Area()))
    {
      hide SpaceOk, TablesOf, PagesOf, FrameAllocator.Valid, FreeSet, Sound, Partition, ListOk, Leaves.Flat,
        Coalesced, WindowMapped, NothingAbove, SameOutside, Translation, Unmapped, PageDown, OutsideHeap, Absent;
      ghost var a, m, vp := space.View(), space.ram[..], virt / 4096;
      LeafIsUsed(a, space.Dir(), space.Lim(), pmm.total, others, virt);
      space.UnmapAndFree(virt, PageDown(phys));
      MetadataOwned(a, space.Dir(), space.Lim());
      TablesKept(a, vp);
      SameOutsideRefl(m, old(heap.Area()));
      SameOutsideStep(m, m, space.ram[..], old(heap.Area()), Metadata(space.ram[..], space.Dir()));
      UnmappedClean(m, space.ram[..], a, space.Dir(), space.Lim(), pmm.total, vp, BLOCK_MAGIC);
      if OutsideHeap(vp, heap.N()) {
        UnmappedOutside(a, space.Dir(), space.Lim(), pmm.total, vp, heap.N(), heap.brk, others);
        UnmappedElsewhere(m, space.ram[..], a, space.View(), space.Dir(), space.Lim(), pmm.total, vp, heap.N());
      } else {
        HoleInHeap(a, vp, heap.N());
      }
    }

    /** The `unmap` command. Nothing in it spares the heap: of a page between heap
        start and break it makes a hole. */
    method CmdUnmap(arg: u32) returns (r: UnmapResult)
      requires Valid()
      modifies space`mappedPages, space.ram, pmm, pmm.bitmap
      ensures Valid() <==> !r.Removed? || OutsideHeap(arg / 4096, heap.N())
      ensures r.NotMapped? <==> arg / 4096 !in old(space.View()).pages
      ensures r.Refused? <==> arg / 4096 < space.Lim()
      ensures r.Removed? ==> arg / 4096 in old(space.View()).pages
                             && space.View() == Unmapped(old(space.View()), arg / 4096)
      ensures !r.Removed? ==> space.ram[..] == old(space.ram[..]) && space.View() == old(space.View())
      ensures Valid() ==> heap.Flat() == old(heap.Flat())
      ensures old(heap.Clean()) ==>
                (heap.Clean() <==>
                 !r.Removed? || NoMagic(old(space.ram[..]), LeafFrame(old(space.View()), arg / 4096)))
      ensures SameOutside(old(space.ram[..]), space.ram[..], old(heap.Area()))
    {
      hide SpaceOk, TablesOf, PagesOf, FrameAllocator.Valid, FreeSet, Sound, Partition, ListOk, Leaves.Flat,
        Coalesced, WindowMapped, NothingAbove, SameOutside, Translation, Metadata, Unmapped, OutsideHeap, Absent;
      SameOutsideRefl(space.ram[..], heap.Area());
      var virt := PageDown(arg);
      PageOf(arg);
      ghost var a, m, vp := space.View(), space.ram[..], arg / 4096;
      PartitionSound(a, space.Dir(), space.Lim(), pmm.total, others);
      Unambiguous(a, space.Dir(), space.Lim(), pmm.total, virt);
      IdentityMapped(a, space.Dir(), space.Lim(), pmm.total, vp);
      var phys := space.Translate(virt);
      if phys == PAGE_UNMAPPED {
        return NotMapped;
      }
      if virt < space.identityEnd {
        return Refused;
      }
      UnmapPage(virt, phys);
      return Removed;
    }

    /** Whatever the heap does inside its pages leaves the books right. */
    lemma BooksStand(a: AddressMap)
      requires heap.space == space && space.pmm == pmm && heap.Valid() && space.Dir() < space.Lim()
      requires space.View() == a && Partition(a, space.Dir(), space.Lim(), pmm.total, others) && 0 in others.reserved
      requires !stranded ==> others.lost == {} && NothingAbove(a.pages, heap.brk)
      ensures Valid()
    {
      hide Partition, NothingAbove, Sound, SpaceOk, WindowMapped, ListOk, Coalesced, Leaves.Flat, AddressSpace.View;
    }

    /** The books after a `kmalloc` of `n` words, by whomever. Growth loses exactly
        the frames behind the pages it maps that an earlier failure left mapped. */
    ghost method NoteGrowth(a: AddressMap, brk: u32, n: nat)
      requires heap.space == space && space.pmm == pmm && heap.Valid() && space.Dir() < space.Lim()
      requires Partition(a, space.Dir(), space.Lim(), pmm.total, others) && 0 in others.reserved
      requires !stranded ==> others.lost == {} && NothingAbove(a.pages, brk)
      requires 0xC000_0000 <= brk && brk % 4096 == 0 && GrowthStep(a, space.View(), brk, heap.brk, n, space.Lim())
      requires heap.Area() <= Owned(a, space.Dir(), space.Lim())
      modifies this`others, this`stranded
      ensures Valid()
      ensures others == LoseAll(old(others), if space.View() == a then {} else Overgrown(a, brk, n, space.Lim()))
      ensures others == old(others) <==>
              space.View() == a
              || forall w: nat | brk / 4096 <= w < brk / 4096 + Reached(a, brk / 4096, GrowthPages(n), space.Lim()) ::
                   w !in a.pages
      ensures !old(stranded) && brk + 4096 * GrowthPages(n) < 0x1_0000_0000 ==> others == old(others)
      ensures stranded <==> old(stranded) || (heap.brk == brk && space.View() != a)
    {
      hide SpaceOk, TablesOf, PagesOf, FrameAllocator.Valid, FreeSet, Sound, Partition, ListOk, Leaves.Flat,
        Coalesced, WindowMapped, NothingAbove, Owned, GrownBy, GrowthPages;
      TablesDistinct(space.ram[..], space.Dir(), space.Lim(), pmm.Free(), space.tableCount, space.mappedPages);
      Grew(a, space.View(), space.Dir(), space.Lim(), pmm.total, brk, heap.brk, n, others,
        Overgrown(a, brk, n, space.Lim()));
      others := LoseAll(others, if space.View() == a then {} else Overgrown(a, brk, n, space.Lim()));
      stranded := stranded || (heap.brk == brk && space.View() != a);
    }
  }

  ghost function LoseAll(o: Others, fs: set<nat>): Others { o.(lost := o.lost + fs) }

  /** The frames behind the pages that growth for `n` words maps anew. */
  ghost function Overgrown(a: AddressMap, brk: u32, n: nat, lim: nat): set<nat> {
    FramesBehind(a, brk / 4096, Reached(a, brk / 4096, GrowthPages(n), lim))
  }

  /** A request for which the sum in the ceiling test wraps, so that it is passed: the
      growth fails, but not before it has mapped pages until none can be had. */
  lemma WrappedRequest(a: AddressMap, dir: nat, lim: nat, total: nat, brk: u32, n: nat)
    requires Sound(a, dir, lim, total) && lim <= 4096 && 0xC000_0000 <= brk <= 0xC040_0000 && brk % 4096 == 0
    requires n <= 0x3FFF_FBFC && brk + 4096 * GrowthPages(n) >= 0x1_0000_0000
    requires StopsInTime(brk, a.free, GrowthPages(n))
    ensures var b := GrownBy(a, brk, n, lim); var r := Reached(a, brk / 4096, GrowthPages(n), lim);
      && PassesCeiling(brk, GrowthPages(n)) && !AllGrow(a, brk / 4096, GrowthPages(n), lim)
      && r < GrowthPages(n) && !CanGrow(b, brk / 4096 + r, lim)
  {
    hide CanGrow, Sound, GrowthPages, PassesCeiling, StopsInTime;
    var p := GrowthPages(n);
    MostPages(n);
    WrapPasses(brk, a.free, p);
    if AllGrow(a, brk / 4096, p, lim) {
      GrowthNeeds(a, dir, lim, total, brk / 4096, p);
    }
    GrowthStops(a, brk / 4096, p, lim);
  }

  lemma MostPages(n: nat)
    requires n <= 0x3FFF_FBFC
    ensures GrowthPages(n) <= 0xF_FFFF
  {
  }

  lemma WrapPasses(brk: u32, free: set<nat>, p: nat)
    requires 0xC000_0000 <= brk <= 0xC040_0000 && brk % 4096 == 0 && p <= 0xF_FFFF
    requires brk + 4096 * p >= 0x1_0000_0000 && StopsInTime(brk, free, p)
    ensures PassesCeiling(brk, p) && |free| < p
  {
  }

  /** A request for 1 GB is one, from the first growth of the heap on. */
  lemma GigabyteWraps(brk: u32)
    requires 0xC001_0000 <= brk <= 0xC040_0000
    ensures brk + 4096 * GrowthPages(0x1000_0000) >= 0x1_0000_0000
  {
  }

  lemma NotOvergrown(a: AddressMap, dir: nat, lim: nat, total: nat, o: Others, vp: nat, r: nat)
    requires Partition(a, dir, lim, total, o) && lim <= vp
    ensures FramesBehind(a, vp, r) !! o.lost && FramesBehind(a, vp, r) <= Owned(a, dir, lim)
    ensures FramesBehind(a, vp, r) == {} <==> forall w: nat | vp <= w < vp + r :: w !in a.pages
  {
    forall w | w in a.pages && vp <= w < vp + r
      ensures LeafFrame(a, w) in FramesBehind(a, vp, r) && LeafFrame(a, w) in LeafFrames(a, lim)
    {
    }
    forall f | f in FramesBehind(a, vp, r) ensures f !in o.lost && f in Owned(a, dir, lim) {
      assert Classes(f, o, Owned(a, dir, lim)) == One(f < total);
    }
  }

  /** Growth by a `kmalloc` from `a` to `b`. */
  lemma Grew(a: AddressMap, b: AddressMap, dir: nat, lim: nat, total: nat, brk: u32, brk': u32, n: nat, o: Others,
          fs: set<nat>)
    requires Partition(a, dir, lim, total, o) && lim <= 4096 && 0xC000_0000 <= brk && brk % 4096 == 0
    requires Sound(b, dir, lim, total) && DistinctTables(b.tables, dir, lim) && 0 !in b.free
    requires Owned(b, dir, lim) <= Owned(a, dir, lim) && GrowthStep(a, b, brk, brk', n, lim)
    requires fs == Overgrown(a, brk, n, lim)
    ensures Partition(b, dir, lim, total, LoseAll(o, if b == a then {} else fs))
    ensures LoseAll(o, if b == a then {} else fs) == o <==>
            b == a
            || forall w: nat | brk / 4096 <= w < brk / 4096 + Reached(a, brk / 4096, GrowthPages(n), lim) ::
                 w !in a.pages
    ensures NothingAbove(a.pages, brk) && b != a && brk + 4096 * GrowthPages(n) < 0x1_0000_0000 ==> fs == {}
    ensures NothingAbove(a.pages, brk) && (b == a || brk' != brk) ==> NothingAbove(b.pages, brk')
  {
    hide Sound, Owned, DistinctTables, Partition, GrowPages, FramesBehind, Reached;
    var vp, p := brk / 4096, GrowthPages(n);
    PartitionSound(a, dir, lim, total, o);
    NotOvergrown(a, dir, lim, total, o, vp, Reached(a, vp, p, lim));
    GivenUp(a, b, dir, lim, total, o);
    if b == a {
      assert AddLost(o, Owned(a, dir, lim), Owned(a, dir, lim)) == LoseAll(o, {});
    } else {
      GrowthLoses(a, dir, lim, total, vp, p);
      assert Owned(a, dir, lim) - Owned(b, dir, lim) == fs;
      assert o.lost + fs == o.lost <==> fs == {};
      forall w: nat | brk' / 4096 <= w < 0xC_0400 && brk' != brk ensures w in b.pages ==> w in a.pages {
        GrowPagesRange(a, lim, vp, p, w);
      }
    }
  }

  /** A store through the page of `v`, outside the heap. */
  lemma ThroughPage(m: seq<u32>, a: AddressMap, dir: nat, lim: nat, total: nat, v: u32, n: nat, x: u32)
    requires Sound(a, dir, lim, total) && lim <= 4096 && v / 4096 in a.pages && lim <= v / 4096
    requires OutsideHeap(v / 4096, n) && v % 4 == 0
    requires n <= 0x10_0000 && WindowMapped(a.pages, n) && |m| == 1024 * total
    ensures var w := Translation(a.pages, v) / 4;
      && w < |m| && w / 1024 == LeafFrame(a, v / 4096)
      && Flat(m[w := x], a.pages, n) == Flat(m, a.pages, n)
      && SameOutside(m, m[w := x], {w / 1024})
      && {w / 1024} <= Owned(a, dir, lim)
      && w / 1024 !in a.free + a.tables.Values + {dir}
  {
    var f := LeafFrame(a, v / 4096);
    assert f < total;
    assert Translation(a.pages, v) == 4096 * f + v % 4096;
    var w := Translation(a.pages, v) / 4;
    assert w / 1024 == f;
    StoredElsewhere(m, a, dir, lim, total, v / 4096, n, w, x);
  }

  lemma TablesDistinct(m: seq<u32>, dir: nat, lim: nat, free: set<nat>, tc: int, mp: int)
    requires SpaceOk(m, dir, lim, free, tc, mp)
    ensures DistinctTables(ViewOf(m, dir, free).tables, dir, lim) && 0 !in free
  {
  }

  /** A page mapped outside the heap leaves ownership and the heap as they are. */
  lemma MappedOutside(m: seq<u32>, m': seq<u32>, a: AddressMap, dir: nat, lim: nat, total: nat, vp: nat, n: nat,
          brk: u32, o: Others)
    requires Partition(a, dir, lim, total, o) && lim <= 4096
    requires vp !in a.pages && OutsideHeap(vp, n) && a.free != {}
    requires n <= 0x10_0000 && WindowMapped(a.pages, n) && |m| == 1024 * total && brk >= 0xC000_0000
    requires SameOutside(m, m', Grown(a, vp).tables.Values + {dir})
    requires DistinctTables(Grown(a, vp).tables, dir, lim) && 0 !in Grown(a, vp).free
    ensures var b := Grown(a, vp);
      && Partition(b, dir, lim, total, o) && Sound(b, dir, lim, total)
      && WindowMapped(b.pages, n) && Flat(m', b.pages, n) == Flat(m, a.pages, n)
      && vp in b.pages && lim <= vp
      && (NothingAbove(a.pages, brk) && !AtBreak(vp, brk) ==> NothingAbove(b.pages, brk))
      && (forall di | di in a.tables :: di in b.tables)
      && Owned(b, dir, lim) == Owned(a, dir, lim) && b.tables.Values + {dir} <= Owned(a, dir, lim)
  {
    AboveIdentity(a, dir, lim, total, vp);
    MappedElsewhere(m, m', a, dir, lim, total, vp, n);
    FreshPageOwned(a, dir, lim, total, vp);
    GrownOwned(a, dir, lim, total, vp);
    GrownSound(a, dir, lim, total, vp);
    TablesStay(a, vp);
    var b := Grown(a, vp);
    hide Grown, Sound, Owned, Flat, WindowMapped, SameOutside, DistinctTables;
    GivenUp(a, b, dir, lim, total, o);
    assert AddLost(o, Owned(a, dir, lim), Owned(b, dir, lim)) == o;
  }

  /** What is not mapped is no page of the heap. */
  lemma NotInHeap(pages: map<nat, u32>, vp: nat, n: nat)
    requires WindowMapped(pages, n) && vp !in pages
    ensures OutsideHeap(vp, n)
  {
  }

  lemma TablesKept(a: AddressMap, vp: nat)
    requires vp in a.pages
    ensures Unmapped(a, vp).tables == a.tables
  {
  }

  lemma HoleInHeap(a: AddressMap, vp: nat, n: nat)
    requires vp in a.pages && !OutsideHeap(vp, n)
    ensures !WindowMapped(Unmapped(a, vp).pages, n)
  {
  }

  lemma MetadataOwned(a: AddressMap, dir: nat, lim: nat)
    ensures a.tables.Values + {dir} <= Owned(a, dir, lim)
  {
  }

  lemma TablesStay(a: AddressMap, vp: nat)
    requires a.free != {}
    ensures forall di | di in a.tables :: di in Grown(a, vp).tables
  {
  }

  lemma PageOf(arg: u32)
    ensures PageDown(arg) / 4096 == arg / 4096 && (PageDown(arg) == 0 <==> arg / 4096 == 0)
    ensures PageDown(arg) % 4096 == 0 && PageDown(arg) % 4 == 0
  {
  }

  /** No mapped address translates to the value that means unmapped. */
  lemma Unambiguous(a: AddressMap, dir: nat, lim: nat, total: nat, v: u32)
    requires Sound(a, dir, lim, total) && lim <= 4096
    ensures Translation(a.pages, v) == PAGE_UNMAPPED <==> v / 4096 !in a.pages
  {
    if v / 4096 in a.pages && v / 4096 >= lim {
      assert LeafFrame(a, v / 4096) < total;
    }
  }

  lemma IdentityMapped(a: AddressMap, dir: nat, lim: nat, total: nat, vp: nat)
    requires Sound(a, dir, lim, total)
    ensures vp < lim ==> vp in a.pages
  {
  }

  /** The frame behind a page above the identity window. */
  lemma LeafIsUsed(a: AddressMap, dir: nat, lim: nat, total: nat, o: Others, v: u32)
    requires Partition(a, dir, lim, total, o) && 0 in o.reserved
    requires v / 4096 in a.pages && lim <= v / 4096 && v % 4096 == 0
    ensures var f := LeafFrame(a, v / 4096);
      0 < f < total && PageDown(Translation(a.pages, v)) / 4096 == f && f !in a.free + a.tables.Values + {dir}
  {
    var f := LeafFrame(a, v / 4096);
    assert f in LeafFrames(a, lim) && f in Owned(a, dir, lim);
    assert Classes(f, o, Owned(a, dir, lim)) == One(f < total);
  }

  /** A page unmapped outside the heap gives its frame back and leaves the heap as it is. */
  lemma UnmappedOutside(a: AddressMap, dir: nat, lim: nat, total: nat, vp: nat, n: nat, brk: u32, o: Others)
    requires Partition(a, dir, lim, total, o) && lim <= 4096 && lim <= vp
    requires vp in a.pages && OutsideHeap(vp, n) && LeafFrame(a, vp) != 0
    requires n <= 0x10_0000 && WindowMapped(a.pages, n) && brk >= 0xC000_0000
    ensures var b := Unmapped(a, vp);
      && Partition(b, dir, lim, total, o) && Sound(b, dir, lim, total)
      && b.free == With(a.free, LeafFrame(a, vp)) && b.tables == a.tables && b.pages == a.pages - {vp}
      && WindowMapped(b.pages, n)
      && (NothingAbove(a.pages, brk) ==> NothingAbove(b.pages, brk))
  {
    UnmappedPartition(a, dir, lim, total, vp, o);
    PartitionSound(Unmapped(a, vp), dir, lim, total, o);
  }

  lemma AboveIdentity(a: AddressMap, dir: nat, lim: nat, total: nat, vp: nat)
    requires Sound(a, dir, lim, total) && vp !in a.pages
    ensures lim <= vp
  {
  }

  /** Frames that there are not, and frame 0, are neither raw nor lost. */
  lemma OthersExist(a: AddressMap, dir: nat, lim: nat, total: nat, o: Others, f: nat)
    requires Partition(a, dir, lim, total, o) && 0 in o.reserved
    ensures f == 0 || f >= total ==> f !in o.raw + o.lost && DropRaw(o, f) == o
  {
    assert Classes(f, o, Owned(a, dir, lim)) == One(f < total);
  }

  lemma RawIsApart(a: AddressMap, dir: nat, lim: nat, total: nat, o: Others, f: nat)
    requires Partition(a, dir, lim, total, o) && f in o.raw + o.lost
    ensures f < total && f !in Owned(a, dir, lim) && f !in a.tables.Values + {dir}
  {
    assert Classes(f, o, Owned(a, dir, lim)) == One(f < total);
  }

  lemma AbsentWith(m: seq<u32>, free: set<nat>, f: nat, w: u32)
    ensures Absent(m, With(free, f), w) <==> Absent(m, free, w) && Absent(m, {f}, w)
  {
    if Absent(m, With(free, f), w) {
      assert forall i: nat | i < |m| && i / 1024 in free :: i / 1024 in With(free, f);
      assert forall i: nat | i < |m| && i / 1024 in {f} :: i / 1024 in With(free, f);
    }
  }

  lemma AbsentWithout(m: seq<u32>, free: set<nat>, f: nat, w: u32)
    ensures Absent(m, free, w) ==> Absent(m, Without(free, f), w)
  {
  }

  /** Mapping a fresh page brings no word into the free frames. */
  lemma MappedClean(m: seq<u32>, m': seq<u32>, a: AddressMap, dir: nat, lim: nat, total: nat, vp: nat, w: u32)
    requires Sound(a, dir, lim, total) && vp !in a.pages && a.free != {} && |m| == 1024 * total
    requires SameOutside(m, m', Grown(a, vp).tables.Values + {dir}) && Absent(m, a.free, w)
    ensures Absent(m', Grown(a, vp).free, w)
  {
    AboveIdentity(a, dir, lim, total, vp);
    GrownAbsent(m, m', a, dir, lim, total, vp, w);
  }

  /** Unmapping one frees its frame with what is in it. */
  lemma UnmappedClean(m: seq<u32>, m': seq<u32>, a: AddressMap, dir: nat, lim: nat, total: nat, vp: nat, w: u32)
    requires Sound(a, dir, lim, total) && vp in a.pages && lim <= vp
    requires SameOutside(m, m', a.tables.Values + {dir})
    ensures Absent(m, a.free, w) ==> (Absent(m', Unmapped(a, vp).free, w) <==> Absent(m, {LeafFrame(a, vp)}, w))
  {
    var f := LeafFrame(a, vp);
    assert f !in a.free + a.tables.Values + {dir};
    AbsentWith(m', a.free, f, w);
    SameAbsent(m, m', a.tables.Values + {dir}, a.free, w);
    SameAbsent(m, m', a.tables.Values + {dir}, {f}, w);
    assert Unmapped(a, vp).free == With(a.free, f);
  }

  lemma SameAbsent(m: seq<u32>, m': seq<u32>, fs: set<nat>, gs: set<nat>, w: u32)
    requires SameOutside(m, m', fs) && fs !! gs
    ensures Absent(m', gs, w) <==> Absent(m, gs, w)
  {
    forall i: nat | i < |m| && i / 1024 in gs ensures i / 1024 !in fs {
      assert i / 1024 in gs;
    }
  }

  /** `free` of any frame there is. */
  lemma Freeing(m: seq<u32>, dir: nat, lim: nat, free: set<nat>, tc: int, mp: int, total: nat, o: Others, f: nat)
    requires SpaceOk(m, dir, lim, free, tc, mp) && Partition(ViewOf(m, dir, free), dir, lim, total, o)
    requires 0 in o.reserved && f < total
    ensures SpaceOk(m, dir, lim, With(free, f), tc, mp) || f !in o.raw + o.lost + free
    ensures Sound(ViewOf(m, dir, With(free, f)), dir, lim, total) || f !in o.raw + o.lost + free
    ensures Partition(ViewOf(m, dir, With(free, f)), dir, lim, total, DropRaw(o, f)) <==> f in o.raw + o.lost + free
    ensures DropRaw(o, f).reserved == o.reserved && (o.lost == {} ==> DropRaw(o, f).lost == {})
  {
    hide TablesOf, PagesOf, Sound, Partition, Owned, SpaceOk;
    var a := ViewOf(m, dir, free);
    OthersExist(a, dir, lim, total, o, f);
    FreeIsSafe(a, dir, lim, total, o, f);
    assert ViewOf(m, dir, With(free, f)) == GiveFree(a, f);
    if f in o.raw + o.lost {
      RawReturned(m, dir, lim, free, tc, mp, total, o, f);
    } else if f in free {
      assert With(free, f) == free;
      PartitionSound(a, dir, lim, total, o);
    }
  }

  /** A raw or lost frame becomes free. */
  lemma RawReturned(m: seq<u32>, dir: nat, lim: nat, free: set<nat>, tc: int, mp: int, total: nat, o: Others, f: nat)
    requires SpaceOk(m, dir, lim, free, tc, mp) && Partition(ViewOf(m, dir, free), dir, lim, total, o)
    requires f in o.raw + o.lost && f != 0
    ensures f < total && SpaceOk(m, dir, lim, With(free, f), tc, mp)
    ensures Sound(ViewOf(m, dir, With(free, f)), dir, lim, total)
    ensures Partition(ViewOf(m, dir, With(free, f)), dir, lim, total, DropRaw(o, f))
  {
    hide TablesOf, PagesOf, Sound, Partition, Owned, SpaceOk, DropRaw;
    var a := ViewOf(m, dir, free);
    RawIsApart(a, dir, lim, total, o, f);
    FreeChanged(m, dir, lim, free, tc, mp, f);
    PartitionSound(a, dir, lim, total, o);
    SoundWith(a, dir, lim, total, f);
    GivenBack(a, dir, lim, total, o, f);
  }

  /** The least free frame becomes raw. */
  lemma RawTaken(m: seq<u32>, dir: nat, lim: nat, free: set<nat>, tc: int, mp: int, total: nat, o: Others, f: nat)
    requires SpaceOk(m, dir, lim, free, tc, mp) && Partition(ViewOf(m, dir, free), dir, lim, total, o)
    requires f in free
    ensures SpaceOk(m, dir, lim, Without(free, f), tc, mp)
    ensures Sound(ViewOf(m, dir, Without(free, f)), dir, lim, total)
    ensures Partition(ViewOf(m, dir, Without(free, f)), dir, lim, total, AddRaw(o, f))
  {
    hide TablesOf, PagesOf, Sound, Partition, Owned, SpaceOk, AddRaw;
    var a := ViewOf(m, dir, free);
    FreeChanged(m, dir, lim, free, tc, mp, f);
    PartitionSound(a, dir, lim, total, o);
    SoundWithout(a, dir, lim, total, f);
    TakenRaw(a, dir, lim, total, o, f);
  }

  lemma PartitionSound(a: AddressMap, dir: nat, lim: nat, total: nat, o: Others)
    requires Partition(a, dir, lim, total, o)
    ensures Sound(a, dir, lim, total)
  {
  }
}
