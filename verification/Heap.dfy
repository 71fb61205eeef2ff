/** The kernel heap: `heap.c` over virtual memory. Headers are words of physical
    memory, reached through the page tables. */
module Heap {
  import opened Words
  import opened Pmm
  import opened PageTables
  import opened Leaves
  import opened Paging
  import opened Blocks
  import opened HeapWords
  import opened HeapSteps
  import opened Forgery

  /** How an address in the heap window splits and where it leads. */
  lemma AddressOf(pages: map<nat, u32>, i: nat)
    requires i < 0x10_0000 && 0xC_0000 + i / 1024 in pages
    ensures Addr(i) < 0x1_0000_0000 && Addr(i) / 4096 == 0xC_0000 + i / 1024
    ensures Translation(pages, Addr(i)) / 4 == PhysWord(pages, i)
  {
    var p := i / 1024;
    assert i == 1024 * p + i % 1024;
    assert Addr(i) == 4096 * (0xC_0000 + p) + 4 * (i % 1024);
  }

  lemma WordIsMapped(a: AddressMap, dir: nat, lim: nat, total: nat, n: nat, i: nat)
    requires Sound(a, dir, lim, total) && lim <= 4096 && WindowMapped(a.pages, n) && i < n <= 0x10_0000
    ensures Addr(i) < 0x1_0000_0000
    ensures Translation(a.pages, Addr(i)) / 4 == PhysWord(a.pages, i) < 1024 * total
    ensures PhysWord(a.pages, i) / 1024 !in a.free + a.tables.Values + {dir}
    ensures PhysWord(a.pages, i) / 1024 in LeafFrames(a, lim)
  {
    assert i / 1024 < n / 1024;
    AddressOf(a.pages, i);
    Injective(a, dir, lim, total, n, i, i);
    assert LeafFrame(a, 0xC_0000 + i / 1024) in LeafFrames(a, lim);
  }

  /** One store into the heap window, seen physically and through the MMU. */
  lemma WordStored(m: seq<u32>, a: AddressMap, dir: nat, lim: nat, total: nat, n: nat, i: nat, v: u32)
    requires Sound(a, dir, lim, total) && lim <= 4096 && WindowMapped(a.pages, n) && i < n <= 0x10_0000
    requires |m| == 1024 * total
    ensures var w := PhysWord(a.pages, i);
      && w < |m| && w / 1024 !in a.free + a.tables.Values + {dir} && w / 1024 in LeafFrames(a, lim)
      && SameOutside(m, m[w := v], {w / 1024})
      && Leaves.Flat(m[w := v], a.pages, n) == Leaves.Flat(m, a.pages, n)[i := v]
  {
    WordIsMapped(a, dir, lim, total, n, i);
    FlatStore(m, a, dir, lim, total, n, i, v);
  }

  /** The break as a page number and as a count of words. */
  lemma BreakPage(brk: u32, vp: nat, n: nat)
    requires 0xC000_0000 <= brk && brk % 4096 == 0 && vp == brk / 4096 && n == (brk - 0xC000_0000) / 4
    ensures brk == 4096 * vp && n == 1024 * (vp - 0xC_0000)
  {
  }

  lemma BreakAddress(brk: u32)
    requires 0xC000_0000 <= brk && brk % 4096 == 0
    ensures brk == Addr((brk - 0xC000_0000) / 4)
  {
    var n := 1024 * (brk / 4096) - 0x3000_0000;
    assert brk - 0xC000_0000 == 4 * n;
  }

  /** The ceiling test of `grow_mapping` for `p` pages, as the code computes it. */
  predicate PassesCeiling(brk: u32, p: nat) { (brk + 4096 * p) % 0x1_0000_0000 <= 0xC040_0000 }

  /** The sum in that test fits in 32 bits, or there are fewer free frames than
      pages from the break to the top of the address space. */
  ghost predicate StopsInTime(brk: u32, free: set<nat>, p: nat) {
    brk + 4096 * p < 0x1_0000_0000 || |free| < 0x10_0000 - brk / 4096
  }

  lemma CeilingSum(brk: u32, want: u32, p: nat)
    requires brk <= 0xC040_0000 && want == 4096 * p
    ensures Add32(brk, want) <= 0xC040_0000 <==> PassesCeiling(brk, p)
  {
  }

  /** A page takes at least one frame. */
  lemma GrownCount(a: AddressMap, dir: nat, lim: nat, total: nat, vp: nat)
    requires Sound(a, dir, lim, total) && lim <= vp && a.free != {}
    ensures |Grown(a, vp).free| <= |a.free| - 1
  {
    var f := Least(a.free);
    var b := Grown(a, vp);
    TableFrames(a.(free := a.free - {f}), vp / 1024);
    assert b.free <= a.free - {f};
    SmallerSet(b.free, a.free - {f});
  }

  /** Growth by `n` pages takes at least `n` frames. */
  lemma {:induction false} GrowthNeeds(a: AddressMap, dir: nat, lim: nat, total: nat, vp: nat, n: nat)
    requires Sound(a, dir, lim, total) && lim <= vp && AllGrow(a, vp, n, lim)
    ensures n <= |a.free|
    decreases n
  {
    hide Grown, Sound;
    if n > 0 {
      assert a.free != {};
      GrownSound(a, dir, lim, total, vp);
      GrownCount(a, dir, lim, total, vp);
      GrowthNeeds(Grown(a, vp), dir, lim, total, vp + 1, n - 1);
    }
  }

  lemma {:induction false} SmallerSet(s: set<nat>, t: set<nat>)
    requires s <= t
    ensures |s| <= |t|
  {
    if s != {} {
      var x :| x in s;
      SmallerSet(s - {x}, t - {x});
    }
  }

  /** `align8` */
  function Align8(size: u32): u32 { Add32(size, 7) / 8 * 8 }

  /** `align8` rounds up to the next multiple of 8, except that the seven largest sizes
      wrap to 0. */
  lemma AlignKeeps(size: u32)
    ensures Align8(size) >= size <==> size <= 0xFFFF_FFF8
    ensures Align8(size) % 8 == 0 && (size <= 0xFFFF_FFF8 ==> size <= Align8(size) < size + 8)
    ensures size > 0xFFFF_FFF8 ==> Align8(size) == 0
  {
  }

  /** The ceiling test of `grow_mapping` means what it says exactly when the sum
      does not wrap. */
  lemma CeilingTest(brk: u32, want: u32)
    requires brk <= 0xC040_0000
    ensures (Add32(brk, want) > 0xC040_0000 <==> brk + want > 0xC040_0000) <==> brk + want < 0x1_0000_0000
  {
  }

  predicate SumFits(brk: u32, want: u32) { brk + want < 0x1_0000_0000 }

  /** Which requests keep that test right for every break in the window: those up to
      0x3FBFEFF0 bytes, and the few largest, for which rounding up has wrapped. */
  lemma LargestRequest(size: u32)
    ensures var want := PageUp(Add32(Align8(size), 16));
      (forall brk: u32 | brk <= 0xC040_0000 :: SumFits(brk, want)) <==> size <= 0x3FBF_EFF0 || size > 0xFFFF_EFF0
  {
    if 0x3FBF_EFF0 < size <= 0xFFFF_EFF0 {
      assert !SumFits(0xC040_0000, PageUp(Add32(Align8(size), 16)));
    }
  }

  /** What `extend_heap` asks `grow_mapping` for. */
  function Wanted(payload: u32): u32 {
    PageUp(if Add32(payload, 16) < 16384 then 16384 else Add32(payload, 16))
  }

  /** The requests above 0x3FBFEFF0, range by range. Up to 0xFFFFEFF0 the test is
      passed exactly when its sum wraps. Then rounding to pages wraps to 0: growth
      maps nothing and reports success. Then adding the header wraps: growth maps
      16 KB, and no block can ever be large enough. The seven largest sizes are
      rounded to 0, and any free block will do. */
  lemma RequestRanges(size: u32, brk: u32)
    requires 0xC000_0000 <= brk <= 0xC040_0000 && brk % 4096 == 0
    ensures var payload := Align8(size); var want := Wanted(payload);
      && (size <= 0x3FBF_EFF0 ==> payload >= size && payload + 16 <= want && SumFits(brk, want))
      && (0x3FBF_EFF0 < size <= 0xFFFF_EFF0 ==>
            && payload >= size && payload + 16 <= want
            && (Add32(brk, want) <= 0xC040_0000 <==> !SumFits(brk, want)))
      && (0xFFFF_EFF0 < size <= 0xFFFF_FFE8 ==> want == 0 && Add32(brk, want) <= 0xC040_0000)
      && (0xFFFF_FFE8 < size <= 0xFFFF_FFF8 ==> want == 16384 && payload >= 0xFFFF_FFF0)
      && (0xFFFF_FFF8 < size ==> want == 16384 && payload == 0)
  {
  }

  /** As long as growth has a frame for every page it does not reach the top of the
      address space. */
  lemma PageInReach(brk: u32, all: set<nat>, free: set<nat>, want: u32, off: u32, k: nat)
    requires StopsInTime(brk, all, want / 4096) && |free| + k <= |all| && off == 4096 * k <= want
    requires 0xC000_0000 <= brk <= 0xC040_0000 && brk % 4096 == 0 && want % 4096 == 0
    ensures brk + off < 0x1_0000_0000
  {
  }

  /** How many pages `extend_heap` maps for a request of `n` words: at least four. */
  function GrowthPages(n: nat): (p: nat)
    ensures p >= 4 && 1024 * p >= n + 4
  {
    var want := if 4 * n + 16 < 16384 then 16384 else 4 * n + 16;
    (want + 4095) / 4096
  }

  /** That is the least multiple of 4096 bytes that is at least 16 KB and has room for
      the payload and a header. */
  lemma LeastGrowth(n: nat)
    ensures 16384 <= 4096 * GrowthPages(n) && 4 * n + 16 <= 4096 * GrowthPages(n)
    ensures 4096 * GrowthPages(n) < 16384 + 4096 || 4096 * GrowthPages(n) < 4 * n + 16 + 4096
  {
  }

  /** And so is any number that is. */
  lemma LeastIsGrowth(n: nat, bytes: nat)
    requires bytes % 4096 == 0 && 16384 <= bytes && 4 * n + 16 <= bytes
    requires bytes < 16384 + 4096 || bytes < 4 * n + 16 + 4096
    ensures bytes == 4096 * GrowthPages(n)
  {
    LeastGrowth(n);
    hide GrowthPages;
    var p, q := GrowthPages(n), bytes / 4096;
    assert bytes == 4096 * q;
    assert p <= q && q <= p;
  }

  /** The bytes by which the heap grows for a request of `size` bytes. */
  function GrowthBytes(size: nat): nat {
    if size + 16 <= 16384 then 16384 else (size + 16 + 4095) / 4096 * 4096
  }

  /** They are the least multiple of 4096 that is at least 16 KB and has room for as many
      bytes and a header. */
  lemma LeastBytes(size: nat)
    ensures GrowthBytes(size) % 4096 == 0 && 16384 <= GrowthBytes(size) && size + 16 <= GrowthBytes(size)
    ensures GrowthBytes(size) < 16384 + 4096 || GrowthBytes(size) < size + 16 + 4096
  {
  }

  lemma RoundedBytes(size: nat, n: nat, bytes: nat)
    requires size <= 4 * n < size + 8 && n % 2 == 0
    requires bytes % 4096 == 0 && 16384 <= bytes && size + 16 <= bytes
    requires bytes < 16384 + 4096 || bytes < size + 16 + 4096
    ensures 4 * n + 16 <= bytes && (bytes < 16384 + 4096 || bytes < 4 * n + 16 + 4096)
  {
    EightByEight(size, n / 2, bytes / 4096);
  }

  lemma EightByEight(size: nat, m: nat, q: nat)
    requires 8 * m < size + 8 && size + 16 <= 4096 * q
    ensures 8 * m + 16 <= 4096 * q
  {
  }

  lemma GrowthPagesAre(payload: u32, n: nat)
    requires payload == 4 * n && payload <= 0xFFFF_EFF0
    ensures Add32(payload, 16) == payload + 16
    ensures Wanted(payload) == 4096 * GrowthPages(n) && Wanted(payload) / 4096 == GrowthPages(n)
  {
  }

  lemma Quotient(y: nat, q: nat, r: nat)
    requires y == 4 * q + r && r < 4
    ensures y / 4 == q
  {
  }

  lemma WordsMoved(x: nat, p: nat)
    ensures (x + 4096 * p) / 4 == x / 4 + 1024 * p
    ensures 1024 * p % 2 == 0
  {
    var w := 512 * p;
    assert 1024 * p == 2 * w;
    Quotient(x + 8 * w, x / 4 + 2 * w, x % 4);
  }

  /** The map after `extend_heap` for `n` words at `brk`, whether it succeeds or not. */
  ghost function GrownBy(a: AddressMap, brk: u32, n: nat, lim: nat): AddressMap {
    if PassesCeiling(brk, GrowthPages(n)) then GrowPages(a, brk / 4096, GrowthPages(n), lim) else a
  }

  /** From break `brk` to `brk'` and from map `a` to `b` by a `kmalloc` of `n` words:
      no growth, growth, or growth that failed and left the break. */
  ghost predicate GrowthStep(a: AddressMap, b: AddressMap, brk: u32, brk': u32, n: nat, lim: nat) {
    || (b == a && brk' == brk)
    || (b == GrownBy(a, brk, n, lim) && (brk' == brk || brk' == brk + 4096 * GrowthPages(n) <= 0xC040_0000))
  }

  /** Where the header behind which `ptr` points would be. */
  function HeaderWord(ptr: u32): nat { if ptr >= 0xC000_0010 then (ptr - 0xC000_0010) / 4 else 0 }

  /** What comes of a `kfree`. */
  datatype FreeResult = Rejected | Taken | Lost

  class KernelHeap {
    const space: AddressSpace
    var head: u32
    var brk: u32
    var ready: bool
    ghost var blocks: seq<Block>

    /** The heap's size in words. */
    ghost function N(): nat
      reads this`brk
    {
      if brk >= 0xC000_0000 then (brk - 0xC000_0000) / 4 else 0
    }

    /** The heap as flat memory. */
    ghost function Flat(): seq<u32>
      reads this`brk, space, space.ram, space.pmm, space.pmm.bitmap
    {
      Leaves.Flat(space.ram[..], space.View().pages, N())
    }

    /** Paging is sound and the window is mapped up to the break. */
    ghost predicate Backed()
      reads this`brk, space, space.ram, space.pmm, space.pmm.bitmap
    {
      && space.Valid() && space.Lim() <= 4096
      && Sound(space.View(), space.Dir(), space.Lim(), space.pmm.total)
      && 0xC000_0000 <= brk <= 0xC040_0000 && brk % 4096 == 0
      && WindowMapped(space.View().pages, N())
    }

    ghost function Area(): set<nat>
      reads space, space.ram, space.pmm, space.pmm.bitmap
    {
      Owned(space.View(), space.Dir(), space.Lim())
    }

    ghost function LeafArea(): set<nat>
      reads space, space.ram, space.pmm, space.pmm.bitmap
    {
      LeafFrames(space.View(), space.Lim())
    }

    constructor (vm: AddressSpace)
      ensures space == vm && brk == 0 && head == 0 && !ready
    {
      space, brk, head, ready, blocks := vm, 0, 0, false, [];
    }

    /** No free frame holds the magic word. */
    ghost predicate Clean()
      reads space, space.ram, space.pmm, space.pmm.bitmap
    {
      Absent(space.ram[..], space.View().free, BLOCK_MAGIC)
    }

    /** The magic word is found only where a header is or was, with a zero flag behind
        it at live blocks only; and growth will bring in no other. */
    ghost predicate Trusted()
      reads this`brk, this`blocks, space, space.ram, space.pmm, space.pmm.bitmap
    {
      Genuine(Flat(), Live(blocks, 0)) && Clean()
    }

    /** `*addr` for the address of heap word `i` */
    method Load(addr: u32, ghost i: nat) returns (v: u32)
      requires Backed() && addr == Addr(i) && i < N()
      ensures v == Flat()[i]
    {
      hide Sound, SpaceOk, WindowMapped, FrameAllocator.Valid, FreeSet, TablesOf, PagesOf, Translation;
      WordIsMapped(space.View(), space.Dir(), space.Lim(), space.pmm.total, N(), i);
      var phys := space.Translate(addr);
      v := space.ram[phys / 4];
    }

    /** `*addr = v` */
    method Store(addr: u32, v: u32, ghost i: nat)
      requires Backed() && addr == Addr(i) && i < N()
      modifies space.ram
      ensures Backed()
      ensures Flat() == old(Flat())[i := v]
      ensures space.View() == old(space.View())
      ensures SameOutside(old(space.ram[..]), space.ram[..], old(LeafArea()))
    {
      hide Sound, SpaceOk, WindowMapped, FrameAllocator.Valid, FreeSet, TablesOf, PagesOf, Translation;
      ghost var m, a := space.ram[..], space.View();
      WordIsMapped(a, space.Dir(), space.Lim(), space.pmm.total, N(), i);
      WordStored(m, a, space.Dir(), space.Lim(), space.pmm.total, N(), i, v);
      ghost var w := PhysWord(a.pages, i);
      SpaceSame(m, m[w := v], space.Dir(), space.Lim(), space.pmm.Free(), space.tableCount, space.mappedPages,
        {w / 1024});
      var phys := space.Translate(addr);
      Paging.Store(space.ram, phys / 4, v);
    }

    /** `grow_mapping`. Growth that fails midway leaves the break and the flat heap as
        they were, but keeps the pages mapped so far; growth whose ceiling test has
        wrapped always fails, after it has taken all frames it could. */
    method GrowMapping(bytes: u32) returns (ok: bool)
      requires Backed() && StopsInTime(brk, space.View().free, PageUp(bytes) / 4096)
      modifies this`brk, space`tableCount, space`mappedPages, space.ram, space.pmm, space.pmm.bitmap
      ensures Backed()
      ensures var n := PageUp(bytes) / 4096; var vp := old(brk) / 4096;
        && (ok <==> old(brk) + PageUp(bytes) <= 0xC040_0000 && AllGrow(old(space.View()), vp, n, space.Lim()))
        && space.View() == (if PassesCeiling(old(brk), n)
                            then GrowPages(old(space.View()), vp, n, space.Lim()) else old(space.View()))
      ensures brk == if ok then old(brk) + PageUp(bytes) else old(brk)
      ensures old(N()) <= N() && Flat()[..old(N())] == old(Flat())
      ensures SameOutside(old(space.ram[..]), space.ram[..], old(Area())) && Area() <= old(Area())
      ensures old(Clean()) ==> Clean() && NoneFrom(Flat(), old(N()), BLOCK_MAGIC)
    {
      hide Sound, SpaceOk, WindowMapped, FrameAllocator.Valid, FreeSet, TablesOf, PagesOf, Growing, Grown, CanGrow,
        Owned, SameOutside, Leaves.Flat, Absent, NoneFrom, PageUp, StopsInTime, PassesCeiling;
      var want := PageUp(bytes);
      ghost var s0 := Snapshot(space.ram[..], space.View());
      ghost var vp0, n0, lim := brk / 4096, N(), space.Lim();
      BreakPage(brk, vp0, n0);
      CeilingSum(brk, want, want / 4096);
      GrowingStart(s0, space.Dir(), lim, space.pmm.total, n0, BLOCK_MAGIC);
      FlatPrefix(s0.m, s0.a.pages, n0, n0);
      if Add32(brk, want) > 0xC040_0000 {
        GrowingFacts(s0, s0, space.Dir(), lim, space.pmm.total, n0, 0, BLOCK_MAGIC);
        return false;
      }
      var off := 0;
      ghost var k := 0;
      while off < want
        invariant brk == old(brk) && off == 4096 * k && off <= want && space.Valid() && space.Dir() == old(space.Dir())
        invariant Growing(s0, Snapshot(space.ram[..], space.View()), space.Dir(), lim, space.pmm.total, n0, k,
                          BLOCK_MAGIC)
        invariant GrowPages(space.View(), vp0 + k, want / 4096 - k, lim) == GrowPages(s0.a, vp0, want / 4096, lim)
        invariant AllGrow(space.View(), vp0 + k, want / 4096 - k, lim) <==> AllGrow(s0.a, vp0, want / 4096, lim)
        invariant |space.View().free| + k <= |s0.a.free|
      {
        ghost var s := Snapshot(space.ram[..], space.View());
        PageInReach(brk, s0.a.free, s.a.free, want, off, k);
        assert Add32(brk, off) == 4096 * (vp0 + k);
        var mapped, frame := space.MapFresh(Add32(brk, off));
        if !mapped {
          GrowingFacts(s0, s, space.Dir(), lim, space.pmm.total, n0, k, BLOCK_MAGIC);
          return false;
        }
        GrowingSound(s0, s, space.Dir(), lim, space.pmm.total, n0, k, BLOCK_MAGIC);
        GrownCount(s.a, space.Dir(), lim, space.pmm.total, vp0 + k);
        GrowingStep(s0, s, space.ram[..], space.Dir(), lim, space.pmm.total, n0, k, n0 + 1024 * k, vp0 + k,
          BLOCK_MAGIC);
        off := off + 4096;
        k := k + 1;
      }
      PageInReach(brk, s0.a.free, space.View().free, want, off, k);
      GrowingFacts(s0, Snapshot(space.ram[..], space.View()), space.Dir(), lim, space.pmm.total, n0, k, BLOCK_MAGIC);
      brk := brk + want;
      return true;
    }

    /** The heap is up and its words hold the list `bs`. */
    ghost predicate Holds(bs: seq<Block>)
      reads this`brk, this`ready, this`head, space, space.ram, space.pmm, space.pmm.bitmap
    {
      Backed() && ready && head == 0xC000_0000 && ListOk(Flat(), bs)
    }

    /** Between operations the list is also coalesced, and the window has its table. */
    ghost predicate Valid()
      reads this, space, space.ram, space.pmm, space.pmm.bitmap
    {
      Holds(blocks) && Coalesced(blocks) && 0xC_0000 / 1024 in space.View().tables
    }

    /** The loads of one header: `size`, `next`, `free`. */
    method LoadHeader(b: u32, ghost i: nat) returns (size: u32, next: u32, free: bool)
      requires Backed() && b == Addr(i) && i + 4 <= N()
      ensures size == Flat()[i + 1] && next == Flat()[i + 2] && (free <==> Flat()[i + 3] != 0)
    {
      hide Backed;
      size := Load(b + 4, i + 1);
      next := Load(b + 8, i + 2);
      var f := Load(b + 12, i + 3);
      free := f != 0;
    }

    /** `b->size += sizeof(block_t) + b->next->size; b->next = b->next->next` */
    method SwallowNext(b: u32, next: u32, ghost i: nat, ghost j: nat, ghost x: nat, ghost y: nat)
      requires Backed() && b == Addr(i) && next == Addr(j) && j == i + 4 + x && j + 4 <= N()
      requires Flat()[i + 1] == 4 * x && Flat()[j + 1] == 4 * y && j + 4 + y <= N()
      modifies space.ram
      ensures Backed() && space.View() == old(space.View())
      ensures Flat() == Swallow(old(Flat()), i, j, x + 4 + y)
      ensures SameOutside(old(space.ram[..]), space.ram[..], old(LeafArea()))
    {
      hide Backed, Leaves.Flat, Swallow, AddressSpace.View, LeafFrames, SameOutside;
      NInRange();
      SwallowStores(Flat(), i, j, x, y);
      var size := Load(b + 4, i + 1);
      var nextSize := Load(next + 4, j + 1);
      Store(b + 4, size + 16 + nextSize, i + 1);
      ghost var m := space.ram[..];
      var nn := Load(next + 8, j + 2);
      Store(b + 8, nn, i + 2);
      SameOutsideTrans(old(space.ram[..]), m, space.ram[..], old(LeafArea()));
    }

    lemma NInRange()
      requires Backed()
      ensures N() <= 0x10_0000 && |Flat()| == N() && brk == Addr(N()) && brk % 4096 == 0
    {
      hide AddressSpace.Valid, Sound, WindowMapped, AddressSpace.View;
      BreakAddress(brk);
    }

    /** The list has lost its end: the last block's link has been overwritten. */
    ghost predicate Cut()
      reads this`brk, this`blocks, this`ready, this`head, space, space.ram, space.pmm, space.pmm.bitmap
    {
      Backed() && ready && head == 0xC000_0000 && CutOff(Flat(), blocks)
    }

    /** `coalesce`. On a list that is `cut` the walk follows a link out of the heap;
        what the C code reads there is no part of the model, which stops. */
    method Coalesce(ghost cut: bool) returns (intact: bool)
      requires if cut then Cut() else Holds(blocks)
      modifies space.ram, this`blocks
      ensures Backed() && space.View() == old(space.View()) && (intact <==> !cut)
      ensures !cut ==> Holds(blocks) && blocks == Merge(old(blocks)) && Coalesced(blocks)
      ensures !cut ==> SameAllocs(old(blocks), blocks) && Respects(old(Flat()), Flat(), old(blocks))
      ensures cut || old(Coalesced(blocks)) ==> Flat() == old(Flat()) && blocks == old(blocks)
      ensures !cut ==> Flat() == MergedWords(old(Flat()), old(blocks), 0)
      ensures SameOutside(old(space.ram[..]), space.ram[..], old(LeafArea()))
    {
      hide Backed, Respects, SameAllocs, Swallow, SameOutside, ListOk, Leaves.Flat, AddressSpace.View, LeafFrames,
        Walk, Coalesced, Coalescing;
      ghost var h0, bs0 := Flat(), blocks;
      ghost var pre, rest: seq<Block>, i: nat := [], blocks, 0;
      WalkStart(cut, h0, bs0);
      NonEmpty(cut);
      SameOutsideRefl(space.ram[..], LeafArea());
      var b := head;
      while b != 0
        invariant Backed() && space.View() == old(space.View()) && b == Addr(i) && rest != []
        invariant blocks == bs0
        invariant Walk(cut, h0, bs0, Flat(), pre, rest, i)
        invariant SameOutside(old(space.ram[..]), space.ram[..], old(LeafArea()))
        decreases |rest|
      {
        ghost var j := i + 4 + rest[0].len;
        WalkReads(cut, h0, bs0, Flat(), pre, rest, i, j);
        var size, next, free := LoadHeader(b, i);
        if next == 0 {
          break;
        }
        if next < 0xC000_0000 {
          WalkEnds(cut, h0, bs0, Flat(), pre, rest, i);
          return false;
        }
        var nextSize, nextNext, nextFree := LoadHeader(next, j);
        if free && nextFree && b + 16 + size == next {
          WalkSwallow(cut, h0, bs0, Flat(), pre, rest, i, j);
          ghost var m := space.ram[..];
          SwallowNext(b, next, i, j, rest[0].len, rest[1].len);
          SameOutsideTrans(old(space.ram[..]), m, space.ram[..], old(LeafArea()));
          rest := [Join(rest[0], rest[1])] + rest[2..];
        } else {
          WalkAdvance(cut, h0, bs0, Flat(), pre, rest, i, j);
          b := next;
          pre, rest, i := pre + [rest[0]], rest[1..], j;
        }
      }
      WalkEnds(cut, h0, bs0, Flat(), pre, rest, i);
      blocks := Merge(bs0);
      return true;
    }

    lemma NonEmpty(cut: bool)
      requires if cut then Cut() else Holds(blocks)
      ensures blocks != []
    {
    }

    /** The four stores of a new free block that has no successor. */
    method WriteFresh(b: u32, size: u32, ghost at: nat, ghost w: nat)
      requires Backed() && b == Addr(at) && at + 4 <= N() && 4 <= w && size == 4 * (w - 4) && at + w <= N()
      modifies space.ram
      ensures Backed() && space.View() == old(space.View())
      ensures Flat() == FreshHeader(old(Flat()), at, w)
      ensures SameOutside(old(space.ram[..]), space.ram[..], old(LeafArea()))
    {
      hide Backed, Leaves.Flat, AddressSpace.View, LeafFrames, SameOutside;
      NInRange();
      ghost var m0 := space.ram[..];
      Store(b, BLOCK_MAGIC, at);
      ghost var m1 := space.ram[..];
      Store(b + 4, size, at + 1);
      ghost var m2 := space.ram[..];
      SameOutsideTrans(m0, m1, m2, old(LeafArea()));
      Store(b + 8, 0, at + 2);
      ghost var m3 := space.ram[..];
      SameOutsideTrans(m0, m2, m3, old(LeafArea()));
      Store(b + 12, 1, at + 3);
      SameOutsideTrans(m0, m3, space.ram[..], old(LeafArea()));
    }

    /** `tail = head; while (tail->next) tail = tail->next` in a heap whose first
        words `h0` hold the list. */
    method FindTail(ghost h0: seq<u32>) returns (tail: u32, ghost pre: seq<Block>, ghost b: Block, ghost t: nat)
      requires Backed() && head == 0xC000_0000 && h0 <= Flat() && ListOk(h0, blocks)
      ensures blocks == pre + [b] && t == Extent(pre) && tail == Addr(t) && t + 4 + b.len == |h0|
    {
      hide Backed, Leaves.Flat, AddressSpace.View, ListOk;
      NInRange();
      pre, t := [], 0;
      ghost var rest := blocks;
      assert [] + blocks == blocks;
      StandingStart(h0, blocks);
      tail := head;
      Stand(h0, pre, rest, t, t + 4 + rest[0].len);
      var next := Load(tail + 8, t + 2);
      while next != 0
        invariant blocks == pre + rest && Standing(h0, pre, rest, t) && tail == Addr(t)
        invariant t + 4 <= |h0| && next == h0[t + 2]
        decreases |rest|
      {
        ghost var k := t + 4 + rest[0].len;
        Stand(h0, pre, rest, t, k);
        TailAdvance(h0, pre, rest, t, k);
        tail := next;
        pre, rest, t := pre + [rest[0]], rest[1..], k;
        Stand(h0, pre, rest, t, t + 4 + rest[0].len);
        PrefixAt(h0, Flat(), t + 2);
        next := Load(tail + 8, t + 2);
      }
      Stand(h0, pre, rest, t, t + 4 + rest[0].len);
      b := rest[0];
      assert rest == [b];
      LastBlock(h0, pre, b, t);
    }

    /** The second half of `extend_heap`: the new words, from `h0` on, become a
        block at the tail of the list, and the lists are coalesced. */
    method AppendBlock(oldBrk: u32, ghost h0: seq<u32>, ghost w: nat, ghost clean: bool)
      requires Backed() && ready && head == 0xC000_0000
      requires h0 <= Flat() && ListOk(h0, blocks) && oldBrk == Addr(|h0|)
      requires N() == |h0| + w && w >= 6 && w % 2 == 0 && (clean ==> NoneFrom(Flat(), |h0|, BLOCK_MAGIC))
      modifies this`blocks, space.ram
      ensures Holds(blocks) && Coalesced(blocks)
      ensures blocks == Extend(old(blocks), w)
      ensures Enlarged(h0, Flat(), old(blocks), w, clean)
      ensures space.View() == old(space.View())
      ensures SameOutside(old(space.ram[..]), space.ram[..], old(LeafArea())) && LeafArea() <= Area()
      ensures old(Clean()) ==> Clean()
    {
      hide Backed, Leaves.Flat, AddressSpace.View, LeafFrames, Owned, SameOutside, ListOk, Absent, NoneFrom, Enlarged,
        FreshHeader, Respects, Genuine, SameAllocs, SamePayload;
      NInRange();
      ghost var m1, h1, bs, at := space.ram[..], Flat(), blocks, |h0|;
      WriteFresh(oldBrk, brk - oldBrk - 16, at, w);
      FreshPrefix(h0, h1, w);
      ghost var m2 := space.ram[..];
      var tail, pre, b, t := FindTail(h0);
      ExtendedWritten(h0, h1, pre, b, t, at, w);
      Store(tail + 8, oldBrk, t + 2);
      ghost var m3, h2 := space.ram[..], Flat();
      blocks := bs + [Block(w - 4, true)];
      var intact := Coalesce(false);
      EnlargedBy(h0, h2, Flat(), bs, w, clean);
      SameOutsideTrans(m1, m2, m3, LeafArea());
      SameOutsideTrans(m1, m3, space.ram[..], LeafArea());
      HeapWritesOnly(m1);
    }

    /** `extend_heap` for `n` words would find room in the window and frames. */
    ghost predicate CanExtend(n: nat)
      reads this`brk, space, space.ram, space.pmm, space.pmm.bitmap
    {
      brk + 4096 * GrowthPages(n) <= 0xC040_0000 && AllGrow(space.View(), brk / 4096, GrowthPages(n), space.Lim())
    }

    lemma CanExtendPages(n: nat)
      requires Valid()
      ensures CanExtend(n) <==>
              brk + 4096 * GrowthPages(n) <= 0xC040_0000 && |space.pmm.Free()| >= GrowthPages(n)
    {
      hide Sound, SpaceOk, WindowMapped, FrameAllocator.Valid, FreeSet, TablesOf, PagesOf, ListOk, Coalesced,
        Leaves.Flat, GrowthPages;
      var p := GrowthPages(n);
      if brk + 4096 * p <= 0xC040_0000 {
        assert brk == 4096 * (brk / 4096);
        WindowGrowth(space.View(), space.Lim(), brk / 4096, p);
      }
    }

    /** Between operations that is a matter of two numbers: the bytes by which it grows,
        which are the least multiple of 4096 that is at least 16 KB and has room for
        the payload and a header, must fit into the window, and their pages into the
        free frames. */
    lemma CanExtendExactly(n: nat, bytes: nat)
      requires Valid()
      requires bytes % 4096 == 0 && 16384 <= bytes && 4 * n + 16 <= bytes
      requires bytes < 16384 + 4096 || bytes < 4 * n + 16 + 4096
      ensures CanExtend(n) <==> brk + bytes <= 0xC040_0000 && 4096 * |space.pmm.Free()| >= bytes
    {
      LeastIsGrowth(n, bytes);
      CanExtendPages(n);
      hide Valid, CanExtend, GrowthPages;
    }

    /** `extend_heap` */
    method ExtendHeap(payload: u32, ghost n: nat) returns (ok: bool)
      requires Valid() && payload <= 0xFFFF_EFF0 && payload == 4 * n
      requires StopsInTime(brk, space.View().free, GrowthPages(n))
      modifies this`brk, this`blocks, space`tableCount, space`mappedPages, space.ram, space.pmm, space.pmm.bitmap
      ensures Valid() && (ok <==> old(CanExtend(n)))
      ensures space.View() == GrownBy(old(space.View()), old(brk), n, space.Lim())
      ensures brk == if ok then old(brk) + 4096 * GrowthPages(n) else old(brk)
      ensures ok ==>
                && (brk - old(brk)) % 4096 == 0 && old(brk) + 16384 <= brk && old(brk) + payload + 16 <= brk
                && (brk < old(brk) + 16384 + 4096 || brk < old(brk) + payload + 16 + 4096)
      ensures blocks == if ok then Extend(old(blocks), 1024 * GrowthPages(n)) else old(blocks)
      ensures ok ==> Enlarged(old(Flat()), Flat(), old(blocks), 1024 * GrowthPages(n), old(Clean()))
      ensures !ok ==> Flat() == old(Flat())
      ensures SameOutside(old(space.ram[..]), space.ram[..], old(Area())) && Area() <= old(Area())
      ensures old(Clean()) ==> Clean()
    {
      hide Backed, Leaves.Flat, AddressSpace.View, Owned, LeafFrames, SameOutside, ListOk, Absent, NoneFrom, PageUp,
        GrowPages, AllGrow, Enlarged, GrowthPages, Clean;
      GrowthPagesAre(payload, n);
      LeastGrowth(n);
      var want := Add32(payload, 16);
      if want < 16384 {
        want := 16384;
      }
      NInRange();
      ghost var h0 := Flat();
      var oldBrk := brk;
      GrowPagesTables(space.View(), brk / 4096, PageUp(want) / 4096, space.Lim(), 0xC_0000 / 1024);
      ok := GrowMapping(want);
      if !ok {
        assert Flat()[..|h0|] == Flat();
        return false;
      }
      NInRange();
      WordsMoved(oldBrk - 0xC000_0000, GrowthPages(n));
      ghost var m1 := space.ram[..];
      AppendBlock(oldBrk, h0, 1024 * GrowthPages(n), old(Clean()));
      SameOutsideStep(old(space.ram[..]), m1, space.ram[..], old(Area()), LeafArea());
    }

    /** What writes to heap pages alone leave alone. */
    lemma HeapWritesOnly(m: seq<u32>)
      requires Backed() && SameOutside(m, space.ram[..], LeafArea())
      ensures LeafArea() <= Area()
      ensures Absent(m, space.View().free, BLOCK_MAGIC) ==> Clean()
    {
      LeavesNotFree(space.View(), space.Dir(), space.Lim(), space.pmm.total);
      StillAbsent(m, space.ram[..], space.View().free, LeafArea(), BLOCK_MAGIC);
    }

    /** The search loop of `kmalloc`: the first free block of `size` bytes or more. */
    method Search(size: u32, ghost n: nat)
      returns (b: u32, bSize: u32, ghost pre: seq<Block>, ghost rest: seq<Block>, ghost i: nat)
      requires Holds(blocks) && size == 4 * n
      ensures b == 0 <==> !HasFit(blocks, n)
      ensures b != 0 ==> Searching(blocks, pre, rest, i, n) && rest != [] && Fits(rest[0], n)
      ensures b != 0 ==> b == Addr(i) && bSize == 4 * rest[0].len
    {
      hide Backed, Leaves.Flat, AddressSpace.View, ListOk, Searching;
      NInRange();
      b, bSize, pre, rest, i := head, 0, [], blocks, 0;
      SearchStart(blocks, n);
      SearchStanding(Flat(), blocks, pre, rest, i, n);
      while b != 0
        invariant Searching(blocks, pre, rest, i, n)
        invariant b == if rest == [] then 0 else Addr(i)
        decreases |rest|
      {
        ghost var k := i + 4 + rest[0].len;
        SearchStanding(Flat(), blocks, pre, rest, i, n);
        Stand(Flat(), pre, rest, i, k);
        var next, free;
        bSize, next, free := LoadHeader(b, i);
        if free && bSize >= size {
          return;
        }
        SearchAdvance(blocks, pre, rest, i, k, n);
        b := next;
        pre, rest, i := pre + [rest[0]], rest[1..], k;
      }
      SearchStanding(Flat(), blocks, pre, rest, i, n);
    }

    /** The stores that hand out the block at `b`, split when that is worth it. */
    method Take(b: u32, bSize: u32, size: u32, ghost i: nat, ghost len: nat, ghost n: nat)
      requires Backed() && b == Addr(i) && bSize == 4 * len && size == 4 * n && n <= len
      requires i + 4 + len <= N()
      modifies space.ram
      ensures Backed() && space.View() == old(space.View())
      ensures Flat() == WithFlag(if len >= n + 8 then Split(old(Flat()), i, len, n, i + 4 + n) else old(Flat()), i, false)
      ensures SameOutside(old(space.ram[..]), space.ram[..], old(LeafArea()))
    {
      hide Backed, Leaves.Flat, AddressSpace.View, LeafFrames, SameOutside, Split, WithFlag;
      NInRange();
      ghost var m0, h0 := space.ram[..], Flat();
      SameOutsideRefl(m0, LeafArea());
      if bSize >= size + 16 + 16 {
        SplitOff(b, bSize, size, i, len, n, i + 4 + n);
      }
      ghost var m1, h1 := space.ram[..], Flat();
      FlagStore(h1, i);
      Store(b + 12, 0, i + 3);
      SameOutsideTrans(m0, m1, space.ram[..], LeafArea());
    }

    /** The six stores of a split. */
    method SplitOff(b: u32, bSize: u32, size: u32, ghost i: nat, ghost len: nat, ghost n: nat, ghost r: nat)
      requires Backed() && b == Addr(i) && bSize == 4 * len && size == 4 * n && r == i + 4 + n
      requires n + 8 <= len && i + 4 + len <= N()
      modifies space.ram
      ensures Backed() && space.View() == old(space.View())
      ensures Flat() == Split(old(Flat()), i, len, n, r)
      ensures SameOutside(old(space.ram[..]), space.ram[..], old(LeafArea()))
    {
      hide Backed, Leaves.Flat, AddressSpace.View, LeafFrames, SameOutside, Split;
      NInRange();
      SplitStores(Flat(), i, len, n, r);
      ghost var m0, area := space.ram[..], LeafArea();
      var rest := b + 16 + size;
      Store(rest, BLOCK_MAGIC, r);
      ghost var m1 := space.ram[..];
      Store(rest + 4, bSize - size - 16, r + 1);
      ghost var m2 := space.ram[..];
      SameOutsideTrans(m0, m1, m2, area);
      var next := Load(b + 8, i + 2);
      Store(rest + 8, next, r + 2);
      ghost var m3 := space.ram[..];
      SameOutsideTrans(m0, m2, m3, area);
      Store(rest + 12, 1, r + 3);
      ghost var m4 := space.ram[..];
      SameOutsideTrans(m0, m3, m4, area);
      Store(b + 4, size, i + 1);
      ghost var m5 := space.ram[..];
      SameOutsideTrans(m0, m4, m5, area);
      Store(b + 8, rest, i + 2);
      SameOutsideTrans(m0, m5, space.ram[..], area);
    }

    /** One round of `kmalloc`: search, and hand out what was found. */
    method Attempt(size: u32, ghost n: nat) returns (ptr: u32)
      requires Valid() && size == 4 * n && n >= 2 && n % 2 == 0
      modifies this`blocks, space.ram
      ensures Valid() && space.View() == old(space.View())
      ensures ptr == 0 <==> !HasFit(old(blocks), n)
      ensures blocks == if ptr != 0 then Alloc(old(blocks), n) else old(blocks)
      ensures ptr == 0 ==> Flat() == old(Flat())
      ensures ptr != 0 ==> ptr == Addr(AllocAt(old(blocks), 0, n)) + 16
      ensures ptr != 0 ==> Handed(old(Flat()), Flat(), old(blocks), n)
      ensures ptr != 0 ==> Flat() == HandedWords(old(Flat()), AllocAt(old(blocks), 0, n), n)
      ensures SameOutside(old(space.ram[..]), space.ram[..], old(LeafArea()))
    {
      hide Backed, Leaves.Flat, AddressSpace.View, LeafFrames, SameOutside, Split, WithFlag, Handed, ListOk,
        Searching, Coalesced;
      SameOutsideRefl(space.ram[..], LeafArea());
      var b, bSize, pre, rest, i := Search(size, n);
      if b == 0 {
        return 0;
      }
      Found(Flat(), blocks, pre, rest, i, n);
      Take(b, bSize, size, i, rest[0].len, n);
      blocks := Alloc(blocks, n);
      ptr := b + 16;
    }

    /** `align8(n) / 4` */
    function RequestWords(size: u32): nat {
      (size + 7) / 8 * 2
    }

    /** The search of `kmalloc` finds a block exactly if there is a free one of at least
        as many bytes as asked for. */
    lemma FitsInBytes(size: u32)
      requires Valid() && size <= 0xFFFF_FFF8
      ensures HasFit(blocks, RequestWords(size)) <==>
              exists b: Block, i: nat :: IsBlock(blocks, 0, i, b) && b.free && size <= 4 * b.len
    {
      hide Backed, Leaves.Flat, AddressSpace.View, Linked, RequestWords, HasFit;
      var n := RequestWords(size);
      AllocIsLowestFit(blocks, 0, n);
      RequestRounds(size, (size + 7) / 8 * 2);
      forall b: Block, i: nat | IsBlock(blocks, 0, i, b) ensures b.len % 2 == 0 {
        BlockShape(blocks, 0, i, b);
      }
      if HasFit(blocks, n) {
        var b: Block :| b.free && b.len >= n && IsBlock(blocks, 0, AllocAt(blocks, 0, n), b);
        assert size <= 4 * b.len;
      }
    }

    lemma RequestRounds(size: u32, n: nat)
      requires n == (size + 7) / 8 * 2
      ensures n == RequestWords(size) && size <= 4 * n < size + 8 && n % 2 == 0
      ensures forall len: nat | len % 2 == 0 && size <= 4 * len :: n <= len
    {
    }

    lemma Aligned(size: u32)
      requires 0 < size <= 0xFFFF_EFF0
      ensures var n := RequestWords(size);
        Align8(size) == 4 * n && Align8(size) <= 0xFFFF_EFF0 && n >= 2 && n % 2 == 0 && 1024 * GrowthPages(n) >= n + 4
    {
    }

    lemma RequestGrowth(size: u32)
      requires Valid() && size <= 0x3FBF_EFF0
      ensures 4096 * GrowthPages(RequestWords(size)) == GrowthBytes(size)
      ensures CanExtend(RequestWords(size)) <==>
              brk + GrowthBytes(size) <= 0xC040_0000 && GrowthBytes(size) <= 4096 * |space.pmm.Free()|
    {
      hide Backed, Coalesced, CanExtend, GrowthPages, Holds, GrowthBytes;
      RequestRounds(size, (size + 7) / 8 * 2);
      LeastBytes(size);
      RoundedBytes(size, RequestWords(size), GrowthBytes(size));
      CanExtendExactly(RequestWords(size), GrowthBytes(size));
      LeastIsGrowth(RequestWords(size), GrowthBytes(size));
    }

    /** `kmalloc`. It hands out the first fit in the list, or after growth the
        first fit in the grown list, and fails only when growth fails. */
    method Kmalloc(size: u32) returns (ptr: u32)
      requires ready ==> Valid()
      requires size <= 0xFFFF_EFF0 && StopsInTime(brk, space.View().free, GrowthPages(RequestWords(size)))
      modifies this`brk, this`blocks, space`tableCount, space`mappedPages, space.ram, space.pmm, space.pmm.bitmap
      ensures old(ready) ==> Valid()
      ensures ptr == 0 <==>
              !old(ready) || size == 0
              || (!HasFit(old(blocks), RequestWords(size)) && !old(CanExtend(RequestWords(size))))
      ensures ptr != 0 ==> var n := RequestWords(size);
        var found := if HasFit(old(blocks), n) then old(blocks) else Extend(old(blocks), 1024 * GrowthPages(n));
        && ptr == Addr(AllocAt(found, 0, n)) + 16 && blocks == Alloc(found, n)
        && Granted(old(Flat()), Flat(), old(blocks), blocks, n, AllocAt(found, 0, n), old(Clean()))
        && brk == old(brk) + (if HasFit(old(blocks), n) then 0 else 4096 * GrowthPages(n))
        && (HasFit(old(blocks), n) ==> Flat() == HandedWords(old(Flat()), AllocAt(old(blocks), 0, n), n))
      ensures ptr == 0 ==> blocks == old(blocks) && Flat() == old(Flat()) && brk == old(brk)
      ensures old(ready) && 0 < size <= 0x3FBF_EFF0 && !HasFit(old(blocks), RequestWords(size)) ==>
                if old(brk) + GrowthBytes(size) <= 0xC040_0000 && GrowthBytes(size) <= 4096 * |old(space.pmm.Free())|
                then ptr != 0 && brk == old(brk) + GrowthBytes(size) else ptr == 0
      ensures space.View() == if !old(ready) || size == 0 || HasFit(old(blocks), RequestWords(size)) then old(space.View())
                              else GrownBy(old(space.View()), old(brk), RequestWords(size), space.Lim())
      ensures old(ready) ==> SameOutside(old(space.ram[..]), space.ram[..], old(Area())) && Area() <= old(Area())
      ensures old(ready) && old(Clean()) ==> Clean()
      ensures old(ready) && old(Trusted()) ==> Trusted()
    {
      hide Backed, Leaves.Flat, AddressSpace.View, Owned, LeafFrames, SameOutside, ListOk, Absent, AllGrow, GrowPages,
        Handed, Enlarged, Granted, Coalesced, GrownBy, Genuine, HandedWords, RequestWords, GrowthPages, Align8,
        GrowthBytes;
      SameOutsideRefl(space.ram[..], Area());
      if !ready || size == 0 {
        return 0;
      }
      ListNonEmpty(Flat(), blocks);
      if size <= 0x3FBF_EFF0 {
        RequestGrowth(size);
      }
      Aligned(size);
      var asize := Align8(size);
      ghost var n := RequestWords(size);
      ghost var w := 1024 * GrowthPages(n);
      ghost var m0, h0, bs, clean := space.ram[..], Flat(), blocks, Clean();
      for attempt := 0 to 2
        invariant attempt <= 1 && Valid() && ready
        invariant attempt == 0 ==> blocks == bs && Flat() == h0 && brk == old(brk) && space.View() == old(space.View())
        invariant attempt == 1 ==> !HasFit(bs, n) && old(CanExtend(n)) && blocks == Extend(bs, w) && HasFit(blocks, n)
        invariant attempt == 1 ==> Enlarged(h0, Flat(), bs, w, clean)
        invariant attempt == 1 ==> brk == old(brk) + 4096 * GrowthPages(n)
        invariant attempt == 1 ==> space.View() == GrownBy(old(space.View()), old(brk), n, space.Lim())
        invariant SameOutside(m0, space.ram[..], old(Area())) && Area() <= old(Area()) && (clean ==> Clean())
      {
        ghost var m1, h1 := space.ram[..], Flat();
        ptr := Attempt(asize, n);
        HeapWritesOnly(m1);
        SameOutsideStep(m0, m1, space.ram[..], old(Area()), LeafArea());
        if ptr != 0 {
          if attempt == 0 {
            GrantedNow(h0, Flat(), bs, n, clean);
          } else {
            GrantedAfterGrowth(h0, h1, Flat(), bs, w, n, clean);
          }
          GrantedGenuine(h0, Flat(), bs, blocks, n, (ptr - 0xC000_0010) / 4, clean);
          return;
        }
        ghost var m2, area, clean2 := space.ram[..], Area(), Clean();
        var grown := ExtendHeap(asize, n);
        SameOutsideStep(m0, m2, space.ram[..], old(Area()), area);
        if grown && attempt == 0 {
          EnlargedWeaken(h0, Flat(), bs, w, clean2, clean);
        }
        if !grown {
          return 0;
        }
        ExtendKeeps(bs, w, n);
      }
      assert false;
    }

    lemma Up()
      requires Valid()
      ensures ready && 0xC000_0000 <= brk <= 0xC040_0000
    {
      hide AddressSpace.Valid, Sound, WindowMapped, ListOk, Leaves.Flat, AddressSpace.View, Coalesced;
    }

    /** A pointer that `kfree` looks behind: there is room for a header before it. */
    predicate InHeap(ptr: u32)
      reads this`brk
    {
      0xC000_0010 <= ptr < brk
    }

    /** `ptr` points behind the header of an allocated block. */
    ghost predicate IsLive(ptr: u32)
      reads this`blocks
    {
      ptr >= 0xC000_0010 && (ptr - 0xC000_0010) / 4 in Live(blocks, 0)
    }

    /** The words before `ptr` look like an allocated header though there is none. */
    ghost predicate Forged(ptr: u32)
      reads this`brk, this`blocks, space, space.ram, space.pmm, space.pmm.bitmap
    {
      InHeap(ptr) && LooksLive(Flat(), (ptr - 0xC000_0010) / 4) && !IsLive(ptr)
    }

    /** While headers are genuine `kfree` accepts exactly the live pointers. They are
        genuine from `heap_init` on, calls keep them so, and a store does if and only
        if it spares them (`Poke`, and `Acceptance` for whole runs). */
    lemma NothingForged(ptr: u32)
      requires Valid() && ptr % 4 == 0 && Trusted()
      ensures InHeap(ptr) && LooksLive(Flat(), HeaderWord(ptr)) <==> IsLive(ptr)
      ensures !Forged(ptr)
    {
      hide Backed, Leaves.Flat, AddressSpace.View, Coalesced, LooksLive, Live, ListOk, Genuine;
      NInRange();
      LiveInHeap(Flat(), blocks, brk, ptr);
      AcceptedIsLive(Flat(), blocks, HeaderWord(ptr));
    }

    /** The tests of `kfree` before it writes anything. */
    method Accepts(ptr: u32) returns (ok: bool)
      requires Valid() && ptr % 4 == 0
      ensures ok <==> InHeap(ptr) && LooksLive(Flat(), (ptr - 0xC000_0010) / 4)
    {
      hide Backed, Leaves.Flat, AddressSpace.View, ListOk;
      NInRange();
      if ptr == 0 || ptr < 0xC000_0000 + 16 || ptr >= brk {
        return false;
      }
      var b := ptr - 16;
      ghost var i := (ptr - 0xC000_0010) / 4;
      PointerWord(ptr, i);
      var magic := Load(b, i);
      if magic != BLOCK_MAGIC {
        return false;
      }
      var free := Load(b + 12, i + 3);
      return free == 0;
    }

    /** `kfree`, of any word-aligned pointer. A live pointer is freed; a forged one
        has the word behind its header set to 1, wherever that is, and if that word
        is the link of the last block, no list is left (`Lost`). */
    method Kfree(ptr: u32) returns (r: FreeResult)
      requires Valid() && ptr % 4 == 0
      modifies this`blocks, space.ram
      ensures r.Rejected? <==> !old(InHeap(ptr) && LooksLive(Flat(), HeaderWord(ptr)))
      ensures r.Lost? <==> old(Forged(ptr)) && CutsEnd(old(blocks), HeaderWord(ptr))
      ensures r.Rejected? ==> Flat() == old(Flat())
      ensures old(IsLive(ptr)) ==> r.Taken? && blocks == Free(old(blocks), HeaderWord(ptr))
      ensures old(IsLive(ptr)) ==> Freed(old(Flat()), Flat(), old(blocks), HeaderWord(ptr))
      ensures old(IsLive(ptr)) ==> Flat() == FreedWords(old(Flat()), old(blocks), HeaderWord(ptr))
      ensures !old(IsLive(ptr)) ==> blocks == old(blocks)
      ensures old(Forged(ptr)) ==>
                HeaderWord(ptr) + 4 <= |old(Flat())| && Flat() == old(Flat())[HeaderWord(ptr) + 3 := 1]
      ensures !r.Lost? ==> Valid()
      ensures r.Lost? ==> NoList(Flat())
      ensures space.View() == old(space.View())
      ensures SameOutside(old(space.ram[..]), space.ram[..], old(LeafArea())) && LeafArea() <= Area()
      ensures old(Clean()) ==> Clean()
      ensures old(Trusted()) ==> (r.Taken? <==> old(IsLive(ptr))) && Trusted()
    {
      hide Backed, Leaves.Flat, AddressSpace.View, LeafFrames, Owned, SameOutside, ListOk, Absent, Freed, Respects,
        Genuine, SameAllocs, Coalesced, CutOff, NoList, CutsEnd, LooksLive;
      ghost var m0, h0, bs, i := space.ram[..], Flat(), blocks, HeaderWord(ptr);
      SameOutsideRefl(m0, LeafArea());
      HeapWritesOnly(m0);
      NInRange();
      LiveInHeap(h0, bs, brk, ptr);
      AcceptedIsLive(h0, bs, i);
      var ok := Accepts(ptr);
      if !ok {
        return Rejected;
      }
      ghost var live, cut := IsLive(ptr), CutsEnd(bs, i);
      Marked(h0, bs, i);
      PointerWord(ptr, i);
      FlagStore(h0, i);
      Store(ptr - 16 + 12, 1, i + 3);
      ghost var m1 := space.ram[..];
      if live {
        blocks := SetFree(bs, 0, i);
      }
      var intact := Coalesce(cut);
      if live {
        FreedBy(h0, Flat(), bs, i);
        FreedGenuine(h0, Flat(), bs, i);
      }
      SameOutsideTrans(m0, m1, space.ram[..], LeafArea());
      HeapWritesOnly(m0);
      return if intact then Taken else Lost;
    }

    /** `heap_init`: 64 KB mapped up front, all of it one free block. */
    method Init() returns (ok: bool)
      requires space.Valid() && space.Lim() <= 4096
      requires Sound(space.View(), space.Dir(), space.Lim(), space.pmm.total)
      modifies this, space`tableCount, space`mappedPages, space.ram, space.pmm, space.pmm.bitmap
      ensures Backed() && ready == (old(ready) || ok)
      ensures ok <==> AllGrow(old(space.View()), 0xC_0000, 16, space.Lim())
      ensures space.View() == GrowPages(old(space.View()), 0xC_0000, 16, space.Lim())
      ensures ok ==> Valid() && blocks == [Block(16380, true)] && brk == 0xC001_0000
      ensures ok && old(Clean()) ==> Trusted()
      ensures SameOutside(old(space.ram[..]), space.ram[..], old(Area())) && Area() <= old(Area())
      ensures old(Clean()) ==> Clean()
    {
      hide Leaves.Flat, AddressSpace.View, AddressSpace.Valid, Sound, Owned, LeafFrames, SameOutside, ListOk, Absent,
        AllGrow, GrowPages, Genuine, FreshHeader, NoneFrom, Coalesced;
      FirstBreak();
      brk := 0xC000_0000;
      ok := GrowMapping(64 * 1024);
      if !ok {
        return false;
      }
      ghost var m1, h1 := space.ram[..], Flat();
      head := 0xC000_0000;
      FirstBlock(h1, 16384);
      WindowHasTable();
      WriteFresh(0xC000_0000, brk - 0xC000_0000 - 16, 0, 16384);
      ready := true;
      blocks := [Block(16380, true)];
      HeapWritesOnly(m1);
      SameOutsideStep(old(space.ram[..]), m1, space.ram[..], old(Area()), LeafArea());
    }

    /** `heap_used` */
    method HeapUsed() returns (used: u32)
      requires Valid()
      ensures used == UsedBytes(blocks)
    {
      hide Backed, Leaves.Flat, AddressSpace.View, ListOk;
      NInRange();
      StandingStart(Flat(), blocks);
      ListExtent(Flat(), blocks);
      BytesAddUp(blocks);
      assert [] + blocks == blocks;
      used := 0;
      var b := head;
      ghost var pre: seq<Block>, rest: seq<Block>, i: nat := [], blocks, 0;
      while b != 0
        invariant blocks == pre + rest && i == Extent(pre) && b == if rest == [] then 0 else Addr(i)
        invariant used + UsedBytes(rest) == UsedBytes(blocks)
        decreases |rest|
      {
        ghost var k := i + 4 + rest[0].len;
        Stand(Flat(), pre, rest, i, k);
        PassOne(pre, rest, i, k);
        var size, next, free := LoadHeader(b, i);
        used := used + 16;
        if !free {
          used := used + size;
        }
        b := next;
        pre, rest, i := pre + [rest[0]], rest[1..], k;
      }
    }

    /** `heap_free`: the sum of the free payloads, so it never underflows. */
    method HeapFree() returns (free: u32)
      requires Valid()
      ensures free == FreeBytes(blocks)
    {
      hide Backed, Leaves.Flat, AddressSpace.View, ListOk;
      NInRange();
      ListExtent(Flat(), blocks);
      BytesAddUp(blocks);
      var used := HeapUsed();
      free := Sub32(brk - 0xC000_0000, used);
    }

    /** A task writes word `i` of a payload that is handed out. */
    method Poke(addr: u32, v: u32, ghost i: nat)
      requires Valid() && addr == Addr(i) && InPayload(blocks, 0, i)
      modifies space.ram
      ensures Valid() && blocks == old(blocks)
      ensures i < N() && Flat() == old(Flat())[i := v]
      ensures space.View() == old(space.View())
      ensures old(Trusted()) ==> (Trusted() <==> Spares(old(Flat()), i, v))
      ensures SameOutside(old(space.ram[..]), space.ram[..], old(LeafArea())) && LeafArea() <= Area()
      ensures old(Clean()) ==> Clean()
    {
      hide Backed, Leaves.Flat, AddressSpace.View, LeafFrames, Owned, SameOutside, Absent, Genuine, Coalesced, Spares;
      ghost var m0, h0 := space.ram[..], Flat();
      NInRange();
      PayloadWritten(h0, blocks, i, v);
      if Genuine(h0, Live(blocks, 0)) {
        PayloadStore(h0, blocks, i, v);
      }
      Store(addr, v, i);
      HeapWritesOnly(m0);
    }

    /** A task reads it. */
    method Peek(addr: u32, ghost i: nat) returns (v: u32)
      requires Valid() && addr == Addr(i) && InPayload(blocks, 0, i)
      ensures i < N() && v == Flat()[i]
    {
      hide Backed, Leaves.Flat, AddressSpace.View;
      NInRange();
      PayloadWritten(Flat(), blocks, i, 0);
      v := Load(addr, i);
    }

    lemma FirstBreak()
      ensures PageUp(64 * 1024) == 65536 && WindowMapped(space.View().pages, 0)
    {
    }

    lemma WindowHasTable()
      requires space.Valid() && WindowMapped(space.View().pages, 16384)
      ensures 0xC_0000 / 1024 in space.View().tables
    {
      hide AddressSpace.Valid;
      assert 0xC_0000 in space.View().pages;
      PagesHaveTables(space.ram[..], space.Dir(), 0xC_0000);
    }
  }

  lemma PointerWord(ptr: u32, i: nat)
    requires ptr >= 0xC000_0010 && ptr % 4 == 0 && i == (ptr - 0xC000_0010) / 4
    ensures ptr - 16 == Addr(i)
  {
  }

  /** Live pointers are inside the heap, behind a header that says so. */
  lemma LiveInHeap(h: seq<u32>, bs: seq<Block>, brk: u32, ptr: u32)
    requires ListOk(h, bs) && ptr % 4 == 0 && brk == Addr(|h|)
    ensures ptr >= 0xC000_0010 && (ptr - 0xC000_0010) / 4 in Live(bs, 0) ==>
              ptr < brk && LooksLive(h, (ptr - 0xC000_0010) / 4)
  {
    if ptr >= 0xC000_0010 && (ptr - 0xC000_0010) / 4 in Live(bs, 0) {
      var i := (ptr - 0xC000_0010) / 4;
      PointerWord(ptr, i);
      LiveBelow(bs, 0, i, |h|);
      LiveLooksLive(h, 0, bs, 0, i);
    }
  }

  lemma AcceptedIsLive(h: seq<u32>, bs: seq<Block>, i: nat)
    requires ListOk(h, bs)
    ensures Genuine(h, Live(bs, 0)) && LooksLive(h, i) ==> i in Live(bs, 0)
  {
    hide Genuine, LooksLive, Linked;
    if Genuine(h, Live(bs, 0)) {
      AcceptsExactlyLive(h, bs, i);
    }
  }

  lemma GrantedGenuine(h: seq<u32>, h': seq<u32>, bs: seq<Block>, cs: seq<Block>, n: nat, i: nat, clean: bool)
    requires Granted(h, h', bs, cs, n, i, clean)
    ensures Genuine(h, Live(bs, 0)) && clean ==> Genuine(h', Live(cs, 0))
  {
    hide Genuine, ListOk, SamePayload;
  }

  lemma FreedGenuine(h: seq<u32>, h': seq<u32>, bs: seq<Block>, i: nat)
    requires Freed(h, h', bs, i)
    ensures Genuine(h, Live(bs, 0)) ==> Genuine(h', Live(Free(bs, i), 0))
  {
    hide Genuine, ListOk, SamePayload;
  }
}
