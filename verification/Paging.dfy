/** The virtual memory layer: `paging.c` over physical memory as an array of
    words and the frame allocator. */
module Paging {
  import opened Words
  import opened Pmm
  import opened PageTables
  import opened IdentityMap
  import opened Leaves

  const PAGE_WRITE: u32 := 2
  const PAGE_UNMAPPED: u32 := 0xFFFF_FFFF

  method Store(ram: array<u32>, i: nat, v: u32)
    requires i < ram.Length
    modifies ram
    ensures ram[..] == old(ram[..])[i := v]
  {
    ram[i] := v;
  }

  /** `memset(frame, 0, PAGE_SIZE)` */
  method ZeroFrame(ram: array<u32>, f: nat)
    requires 1024 * f + 1024 <= ram.Length
    modifies ram
    ensures ram[..] == Zeroed(old(ram[..]), f)
  {
    for k := 0 to 1024
      invariant forall i | 0 <= i < ram.Length ::
                  ram[i] == if 1024 * f <= i < 1024 * f + k then 0 else old(ram[..])[i]
    {
      ram[1024 * f + k] := 0;
    }
  }

  /** `DIR_INDEX(v)` and `TBL_INDEX(v)` in terms of the page number. */
  /** The walk of the MMU over the raw words (section 4.3 of the Intel SDM, volume 3A):
      ten bits of the address select the directory's entry and ten that of the table,
      bit 0 says whether an entry is present, and its upper twenty bits are the frame. */
  lemma MmuWalk(m: seq<u32>, dir: nat, v: u32)
    ensures var pde := At(m, 1024 * dir + v / 0x40_0000);
      var pte := At(m, 1024 * (pde / 4096) + v / 4096 % 1024);
      Translation(PagesOf(m, dir), v) ==
      if pde % 2 == 1 && pte % 2 == 1 then pte / 4096 * 4096 + v % 4096 else 0xFFFF_FFFF
  {
    Indices(v);
    PteWord(m, dir, v / 4096, v / 0x40_0000);
    PteOf(m, dir, v / 4096);
    hide At, PagesOf, Pte, Present;
  }

  lemma PteWord(m: seq<u32>, dir: nat, vp: nat, di: nat)
    requires di == vp / 1024
    ensures var pde := At(m, 1024 * dir + di);
      Pte(m, dir, vp) == if pde % 2 == 1 then At(m, 1024 * (pde / 4096) + vp % 1024) else 0
  {
    hide At;
  }

  lemma PteOf(m: seq<u32>, dir: nat, vp: nat)
    requires vp < 0x10_0000
    ensures vp in PagesOf(m, dir) <==> Pte(m, dir, vp) % 2 == 1
    ensures vp in PagesOf(m, dir) ==> PagesOf(m, dir)[vp] == Pte(m, dir, vp)
  {
    hide Pte;
  }

  lemma Indices(v: u32)
    ensures v / 0x40_0000 == v / 4096 / 1024
    ensures v / 4096 < 0x10_0000 && v / 4096 / 1024 < 1024
  {
    var p := v / 4096;
    assert v == 4096 * p + v % 4096;
    var d := p / 1024;
    assert p == 1024 * d + p % 1024;
    assert v == 0x40_0000 * d + (4096 * (p % 1024) + v % 4096);
  }

  /** Where `v` is, by the finite map. */
  function Translation(pages: map<nat, u32>, v: u32): u32 {
    if v / 4096 in pages then pages[v / 4096] / 4096 * 4096 + v % 4096 else PAGE_UNMAPPED
  }

  /** The end of the identity window: 16 MB, or all of memory where there is less.
      A map without usable memory leaves 16 MB, too. */
  function IdentityEnd(highest: u32): (r: u32)
    ensures r % 4096 == 0 && r <= 0x100_0000
    ensures highest >= 4096 ==> 0 < r <= highest
    ensures highest == 0 || highest >= 0x100_0000 ==> r == 0x100_0000
    ensures 0 < highest < 0x100_0000 ==> r <= highest < r + 4096
  {
    if highest != 0 && highest < 0x100_0000 then PageDown(highest) else 0x100_0000
  }

  /** After `paging_map` every address of the page leads to the frame given, and
      every other page leads where it led before. */
  lemma MappedTranslation(a: AddressMap, virt: u32, phys: u32, flags: u32, v: u32)
    ensures Translation(Mapped(a, virt / 4096, MakeEntry(phys, flags)).pages, v) ==
            if v / 4096 == virt / 4096 then PageDown(phys) + v % 4096 else Translation(a.pages, v)
  {
    assert FrameOf(MakeEntry(phys, flags)) == phys / 4096;
    hide MakeEntry;
  }

  /** After `paging_unmap` only the one page is gone. */
  lemma UnmappedTranslation(a: AddressMap, virt: u32, v: u32)
    ensures Translation(a.pages - {virt / 4096}, v) ==
            if v / 4096 == virt / 4096 then PAGE_UNMAPPED else Translation(a.pages, v)
  {
  }

  /** The identity map when its last page is in. */
  lemma IdentityComplete(m: seq<u32>, dir: nat, lim: nat, free: set<nat>, tc: int, mp: int, all: set<nat>)
    requires all != {} && SpaceOk(m, dir, lim, free, tc, mp) && dir == Least(all) && 0 < lim
    requires Built(ViewOf(m, dir, free), all, dir, lim, lim)
    ensures dir < lim && |Below(all, lim)| >= TablesFor(lim) + 1
    ensures tc == TablesFor(lim) && mp == lim
    ensures PagesOf(m, dir) == IdentityPages(lim)
    ensures forall di: nat :: di in TablesOf(m, dir) <==> di < TablesFor(lim)
    ensures free + TablesOf(m, dir).Values + {dir} == all
  {
    hide TablesOf, PagesOf, IdentityPages, SpaceOk, Least, Below, TablesFor;
    TablesBelow(m, dir, lim, free, tc, mp);
    Complete(ViewOf(m, dir, free), all, lim);
    Counts(ViewOf(m, dir, free), all, dir, lim);
  }

  lemma FreshEntry(f: nat)
    requires f < 0x10_0000
    ensures MakeEntry(4096 * f, PAGE_WRITE) == FrameEntry(f)
  {
  }

  lemma IdentityEntry(addr: u32)
    requires addr % 4096 == 0
    ensures MakeEntry(addr, PAGE_WRITE) == 4096 * (addr / 4096) + 3
  {
  }

  class AddressSpace {
    const ram: array<u32>
    const pmm: FrameAllocator
    var dirPhys: u32
    var identityEnd: u32
    var tableCount: int
    var mappedPages: int
    var enabled: bool

    function Dir(): nat reads this { dirPhys / 4096 }
    function Lim(): nat reads this { identityEnd / 4096 }

    ghost function View(): AddressMap
      reads this, ram, pmm, pmm.bitmap
    {
      ViewOf(ram[..], Dir(), pmm.Free())
    }

    ghost predicate Sized()
      reads this, ram, pmm, pmm.bitmap
    {
      && pmm.Valid() && ram != pmm.bitmap && ram.Length == 1024 * pmm.total
      && pmm.total <= 0xF_FFFF && 0 !in pmm.Free()
      && identityEnd % 4096 == 0
    }

    ghost predicate Valid()
      reads this, ram, pmm, pmm.bitmap
    {
      && Sized()
      && dirPhys % 4096 == 0
      && SpaceOk(ram[..], Dir(), Lim(), pmm.Free(), tableCount, mappedPages)
    }

    /** Nothing is mapped yet and there is no directory; `memory` is all of
        physical memory. */
    constructor (memory: array<u32>, frames: FrameAllocator)
      ensures ram == memory && pmm == frames
      ensures dirPhys == 0 && identityEnd == 0 && tableCount == 0 && mappedPages == 0 && !enabled
    {
      ram, pmm := memory, frames;
      dirPhys, identityEnd, tableCount, mappedPages, enabled := 0, 0, 0, 0, false;
    }

    /** The creating half of `get_table`. */
    method CreateTable(di: nat) returns (table: u32)
      requires Valid() && di < 1024 && di !in View().tables
      modifies this`tableCount, ram, pmm, pmm.bitmap
      ensures Valid()
      ensures table != 0 <==> old(pmm.Free()) != {} && Least(old(pmm.Free())) < Lim()
      ensures table == if table != 0 then 4096 * Least(old(pmm.Free())) else 0
      ensures View() == if table != 0 then WithTable(old(View()), di) else old(View())
      ensures SameOutside(old(ram[..]), ram[..], Metadata(ram[..], Dir()))
      ensures table == 0 ==> ram[..] == old(ram[..]) && pmm.bitmap[..] == old(pmm.bitmap[..])
      ensures table == 0 ==> tableCount == old(tableCount)
    {
      hide SpaceOk, WithTable, TablesOf, PagesOf, Metadata, SameOutside, FrameAllocator.Valid, FreeSet, HasTable;
      ghost var m, free := ram[..], pmm.Free();
      if free != {} && Least(free) < Lim() {
        TableCreated(m, Dir(), Lim(), free, tableCount, mappedPages, di);
      }
      pmm.Undo();
      SameOutsideRefl(m, Metadata(m, Dir()));
      var frame := pmm.AllocFrame();
      if frame == 0 {
        return 0;
      }
      if frame >= identityEnd {
        pmm.FreeFrame(frame);
        return 0;
      }
      ZeroFrame(ram, frame / 4096);
      Store(ram, PdeIndex(Dir(), di), frame + 3);
      tableCount := tableCount + 1;
      return frame;
    }

    /** `get_table(virt, 0)`: the physical address of the table, or 0. */
    method FindTable(virt: u32) returns (table: u32)
      requires Valid()
      ensures var di := virt / 4096 / 1024;
        table == if di in View().tables then 4096 * View().tables[di] else 0
      ensures table != 0 <==> virt / 4096 / 1024 in View().tables
    {
      hide SpaceOk, TablesOf, PagesOf, Metadata, FrameAllocator.Valid, FreeSet, HasTable;
      Indices(virt);
      var di := virt / 0x40_0000;
      DirectoryEntry(ram[..], Dir(), Lim(), pmm.Free(), tableCount, mappedPages, di);
      table := if HasTable(ram[..], Dir(), di) then 4096 * TableOf(ram[..], Dir(), di) else 0;
    }

    /** `get_table(virt, 1)` */
    method GetTable(virt: u32) returns (table: u32)
      requires Valid()
      modifies this`tableCount, ram, pmm, pmm.bitmap
      ensures Valid()
      ensures var di := virt / 4096 / 1024;
        && (table != 0 <==> TableAvailable(old(View()), di, Lim()))
        && (table != 0 ==> di in View().tables && table == 4096 * View().tables[di])
        && View() == if table != 0 then WithTable(old(View()), di) else old(View())
      ensures SameOutside(old(ram[..]), ram[..], Metadata(ram[..], Dir()))
      ensures table == 0 ==> ram[..] == old(ram[..]) && pmm.bitmap[..] == old(pmm.bitmap[..])
      ensures table == 0 ==> tableCount == old(tableCount)
    {
      hide SpaceOk, TablesOf, PagesOf, Metadata, SameOutside, FrameAllocator.Valid, FreeSet;
      Indices(virt);
      SameOutsideRefl(ram[..], Metadata(ram[..], Dir()));
      table := FindTable(virt);
      if table == 0 {
        table := CreateTable(virt / 0x40_0000);
      }
    }

    /** `paging_map`: on success exactly the page of `virt` changes its entry. */
    method Map(virt: u32, phys: u32, flags: u32) returns (ok: bool)
      requires Valid()
      modifies this`tableCount, this`mappedPages, ram, pmm, pmm.bitmap
      ensures Valid()
      ensures ok <==> TableAvailable(old(View()), virt / 4096 / 1024, Lim())
      ensures View() == if ok then Mapped(old(View()), virt / 4096, MakeEntry(phys, flags)) else old(View())
      ensures SameOutside(old(ram[..]), ram[..], Metadata(ram[..], Dir()))
      ensures !ok ==> ram[..] == old(ram[..]) && pmm.bitmap[..] == old(pmm.bitmap[..])
      ensures !ok ==> tableCount == old(tableCount) && mappedPages == old(mappedPages)
    {
      hide SpaceOk, TablesOf, PagesOf, Metadata, SameOutside, FrameAllocator.Valid, FreeSet, MakeEntry;
      Indices(virt);
      var table := GetTable(virt);
      if table == 0 {
        return false;
      }
      ghost var vp, e, m := virt / 4096, MakeEntry(phys, flags), ram[..];
      TableEntry(m, Dir(), Lim(), pmm.Free(), tableCount, mappedPages, vp);
      PageMapped(m, Dir(), Lim(), pmm.Free(), tableCount, mappedPages, vp, e);
      var slot := 1024 * (table / 4096) + virt / 4096 % 1024;
      if !Present(ram[slot]) {
        mappedPages := mappedPages + 1;
      }
      Store(ram, slot, MakeEntry(phys, flags));
      SameOutsideTrans(old(ram[..]), m, ram[..], Metadata(m, Dir()));
      return true;
    }

    /** The frame step shared by `grow_mapping` and the `map` command: the least
        free frame goes to the page of `virt`, and back when there is no table. */
    method MapFresh(virt: u32) returns (ok: bool, frame: u32)
      requires Valid()
      modifies this`tableCount, this`mappedPages, ram, pmm, pmm.bitmap
      ensures Valid()
      ensures ok <==> CanGrow(old(View()), virt / 4096, Lim())
      ensures View() == if ok then Grown(old(View()), virt / 4096) else old(View())
      ensures ok ==> old(pmm.Free()) != {} && frame == 4096 * Least(old(pmm.Free()))
      ensures frame == 0 <==> old(pmm.Free()) == {}
      ensures SameOutside(old(ram[..]), ram[..], Metadata(ram[..], Dir()))
      ensures !ok ==> ram[..] == old(ram[..]) && pmm.bitmap[..] == old(pmm.bitmap[..])
      ensures !ok ==> tableCount == old(tableCount) && mappedPages == old(mappedPages)
    {
      hide SpaceOk, TablesOf, PagesOf, Metadata, SameOutside, FrameAllocator.Valid, FreeSet, MakeEntry, Mapped,
        TableAvailable;
      pmm.Undo();
      ghost var free := pmm.Free();
      if free != {} {
        FreeChanged(ram[..], Dir(), Lim(), free, tableCount, mappedPages, Least(free));
        FreshEntry(Least(free));
      }
      SameOutsideRefl(ram[..], Metadata(ram[..], Dir()));
      frame := pmm.AllocFrame();
      if frame == 0 {
        return false, 0;
      }
      ok := Map(virt, frame, PAGE_WRITE);
      if !ok {
        pmm.FreeFrame(frame);
      }
    }

    /** `paging_unmap` */
    method Unmap(virt: u32) returns (ok: bool)
      requires Valid()
      modifies this`mappedPages, ram
      ensures Valid()
      ensures ok <==> virt / 4096 in old(View()).pages
      ensures View() == if ok then old(View()).(pages := old(View()).pages - {virt / 4096}) else old(View())
      ensures SameOutside(old(ram[..]), ram[..], Metadata(ram[..], Dir()))
      ensures !ok ==> ram[..] == old(ram[..])
    {
      hide SpaceOk, TablesOf, PagesOf, Metadata, SameOutside, FrameAllocator.Valid, FreeSet;
      Indices(virt);
      ghost var vp, m := virt / 4096, ram[..];
      SameOutsideRefl(m, Metadata(m, Dir()));
      if vp in View().pages {
        PageUnmapped(m, Dir(), Lim(), pmm.Free(), tableCount, mappedPages, vp);
      }
      var table := FindTable(virt);
      if table == 0 {
        return false;
      }
      TableEntry(m, Dir(), Lim(), pmm.Free(), tableCount, mappedPages, vp);
      var slot := 1024 * (table / 4096) + virt / 4096 % 1024;
      if !Present(ram[slot]) {
        return false;
      }
      mappedPages := mappedPages - 1;
      Store(ram, slot, 0);
      return true;
    }

    /** The page of `virt` taken away and its frame, at `phys`, given back. */
    method UnmapAndFree(virt: u32, phys: u32)
      requires Valid() && virt / 4096 in View().pages && phys / 4096 == LeafFrame(View(), virt / 4096)
      requires 0 < phys / 4096 < pmm.total && phys / 4096 !in View().free + Metadata(ram[..], Dir())
      modifies this`mappedPages, ram, pmm, pmm.bitmap
      ensures Valid() && View() == Unmapped(old(View()), virt / 4096)
      ensures SameOutside(old(ram[..]), ram[..], Metadata(ram[..], Dir()))
    {
      hide SpaceOk, TablesOf, PagesOf, SameOutside, FrameAllocator.Valid, FreeSet;
      ghost var f := phys / 4096;
      var ok := Unmap(virt);
      FreeChanged(ram[..], Dir(), Lim(), pmm.Free(), tableCount, mappedPages, f);
      pmm.FreeFrame(phys);
    }

    /** `paging_translate`: the walk that the MMU does. */
    method Translate(virt: u32) returns (phys: u32)
      requires Valid()
      ensures phys == Translation(View().pages, virt)
    {
      hide SpaceOk, TablesOf, PagesOf, Metadata, FrameAllocator.Valid, FreeSet;
      Indices(virt);
      ghost var vp := virt / 4096;
      if vp in View().pages {
        PagesHaveTables(ram[..], Dir(), vp);
      }
      var table := FindTable(virt);
      if table == 0 {
        return PAGE_UNMAPPED;
      }
      TableEntry(ram[..], Dir(), Lim(), pmm.Free(), tableCount, mappedPages, vp);
      var entry := ram[1024 * (table / 4096) + virt / 4096 % 1024];
      if !Present(entry) {
        return PAGE_UNMAPPED;
      }
      return entry / 4096 * 4096 + virt % 4096;
    }

    method ChooseIdentityEnd(highest: u32)
      modifies this`identityEnd
      ensures identityEnd == IdentityEnd(highest)
      ensures highest >= 4096 ==> 0 < Lim() <= highest / 4096 && Lim() <= 4096
    {
      identityEnd := 16 * 1024 * 1024;
      if highest != 0 && highest < identityEnd {
        identityEnd := PageDown(highest);
      }
    }

    /** The page directory: one cleared frame. */
    method MakeDirectory() returns (ok: bool)
      requires Sized() && tableCount == 0 && mappedPages == 0
      modifies this`dirPhys, ram, pmm, pmm.bitmap
      ensures ok <==> old(pmm.Free()) != {}
      ensures ok && Lim() <= pmm.total ==> Valid()
      ensures ok ==> Dir() == Least(old(pmm.Free()))
      ensures ok ==> View() == AddressMap(map[], map[], old(pmm.Free()) - {Dir()})
      ensures !ok ==> pmm.Free() == {}
      ensures ok ==> SameOutside(old(ram[..]), ram[..], {Dir()})
    {
      hide FrameAllocator.Valid, FreeSet, TablesOf, PagesOf, Zeroed, Least, SpaceOk, SameOutside;
      pmm.Undo();
      ghost var m, free := ram[..], pmm.Free();
      if free != {} {
        DirectoryMade(m, Least(free), Lim(), free);
      }
      dirPhys := pmm.AllocFrame();
      if dirPhys == 0 {
        return false;
      }
      FrameNumber(dirPhys, Least(free));
      ZeroedOutside(ram[..], dirPhys / 4096);
      ZeroFrame(ram, dirPhys / 4096);
      return true;
    }

    /** Free frames that do not hold word `w` still do not, when only tables were
        written and no frame was freed. */
    lemma StillClean(m: seq<u32>, free: set<nat>, w: u32)
      requires Valid() && SameOutside(m, ram[..], Metadata(ram[..], Dir())) && View().free <= free
      ensures Absent(m, free, w) ==> Absent(ram[..], View().free, w)
    {
      hide TablesOf, PagesOf, FrameAllocator.Valid, FreeSet, Metadata;
    }

    /** The loop of `paging_init`. */
    method MapIdentity(ghost all: set<nat>, ghost w: u32) returns (ok: bool)
      requires Valid() && 0 < Lim() && Built(View(), all, Dir(), Lim(), 0)
      modifies this`tableCount, this`mappedPages, ram, pmm, pmm.bitmap
      ensures ok ==> Valid() && Built(View(), all, Dir(), Lim(), Lim())
      ensures !ok ==> |Below(all, Lim())| < TablesFor(Lim()) + 1
      ensures old(Absent(ram[..], View().free, w)) ==> Absent(ram[..], View().free, w)
    {
      hide SpaceOk, TablesOf, PagesOf, FrameAllocator.Valid, FreeSet, Mapped, Built, TableAvailable, MakeEntry,
        Absent, SameOutside;
      var addr := 0;
      while addr < identityEnd
        invariant Valid() && addr % 4096 == 0
        invariant addr <= identityEnd
        invariant Built(View(), all, Dir(), Lim(), addr / 4096)
        invariant old(Absent(ram[..], View().free, w)) ==> Absent(ram[..], View().free, w)
      {
        ghost var m, a, k := ram[..], View(), addr / 4096;
        IdentityEntry(addr);
        ok := Map(addr, addr, PAGE_WRITE);
        MappedFree(a, k, MakeEntry(addr, PAGE_WRITE));
        StillClean(m, a.free, w);
        if !ok {
          Failed(a, all, Dir(), Lim(), k);
          return false;
        }
        Step(a, all, Dir(), Lim(), k);
        addr := addr + 4096;
      }
      return true;
    }

    /** `paging_init`. It succeeds exactly when, besides the directory's frame,
        there is a free frame below `identityEnd` for each of the page tables. */
    method Init(highest: u32, ghost w: u32) returns (ok: bool)
      requires Sized() && tableCount == 0 && mappedPages == 0 && !enabled
      requires pmm.total == highest / 4096
      modifies this, ram, pmm, pmm.bitmap
      ensures identityEnd == IdentityEnd(highest)
      ensures highest == 0 || highest >= 0x100_0000 ==> identityEnd == 0x100_0000
      ensures 0 < highest < 0x100_0000 ==>
                identityEnd % 4096 == 0 && identityEnd <= highest < identityEnd + 4096
      ensures ok <==> |Below(old(pmm.Free()), Lim())| >= TablesFor(Lim()) + 1
      ensures ok ==> Valid() && enabled && Dir() == Least(old(pmm.Free())) < Lim()
      ensures ok ==> View().pages == IdentityPages(Lim())
      ensures ok ==> forall di: nat :: di in View().tables <==> di < TablesFor(Lim())
      ensures ok ==> tableCount == TablesFor(Lim()) && mappedPages == Lim()
      ensures ok ==> identityEnd <= 0x40_0000 * tableCount < identityEnd + 0x40_0000
      ensures ok ==> View().free + View().tables.Values + {Dir()} == old(pmm.Free())
      ensures !ok ==> !enabled
      ensures ok && Absent(old(ram[..]), old(pmm.Free()), w) ==> Absent(ram[..], View().free, w)
    {
      hide SpaceOk, TablesOf, PagesOf, FrameAllocator.Valid, FreeSet, IdentityPages, Least, TablesFor, Built, Absent,
        SameOutside;
      ghost var m := ram[..];
      ChooseIdentityEnd(highest);
      ghost var all := pmm.Free();
      pmm.FreeBounded(all);
      ok := MakeDirectory();
      if !ok {
        assert Below(all, Lim()) == {};
        return false;
      }
      assert pmm.total > 0 && Lim() <= pmm.total;
      Start(all, Lim());
      FewerClean(m, ram[..], all, Dir(), w);
      ok := MapIdentity(all, w);
      if ok {
        TablesSuffice(Lim());
        IdentityComplete(ram[..], Dir(), Lim(), pmm.Free(), tableCount, mappedPages, all);
        enabled := true;
      }
    }
  }

  lemma FrameNumber(phys: u32, f: nat)
    requires phys == 4096 * f
    ensures phys / 4096 == f && phys % 4096 == 0
  {
  }

  lemma FewerClean(m: seq<u32>, m': seq<u32>, all: set<nat>, dir: nat, w: u32)
    requires SameOutside(m, m', {dir})
    ensures Absent(m, all, w) ==> Absent(m', all - {dir}, w)
  {
  }

  lemma MappedFree(a: AddressMap, vp: nat, e: u32)
    ensures Mapped(a, vp, e).free <= a.free
  {
  }

  lemma ZeroedOutside(m: seq<u32>, f: nat)
    ensures SameOutside(m, Zeroed(m, f), {f})
  {
  }
}
