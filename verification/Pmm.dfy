/** The physical frame allocator: a packed bitmap and a running counter, which
    together stand for the set of free frames. */
module Pmm {
  import opened Words
  import opened MemoryMap

  /** Frame `f` has bit `f % 32` of bitmap word `f / 32`; a set bit means used. */
  predicate UsedBit(bm: seq<u32>, f: nat)
    requires f < 32 * |bm|
  {
    Bit(bm[f / 32], f % 32)
  }

  function BitmapWords(total: nat): nat { (total + 31) / 32 }

  /** The bitmap has one bit per frame; the spare bits of the last word are set. */
  ghost predicate WellFormed(bm: seq<u32>, total: nat) {
    |bm| == BitmapWords(total) && forall f | total <= f < 32 * |bm| :: UsedBit(bm, f)
  }

  ghost function FreeSet(bm: seq<u32>, total: nat): set<nat> {
    set f: nat | 0 <= f < total && f < 32 * |bm| && !UsedBit(bm, f)
  }

  function SetBit(w: u32, b: nat): u32
    requires b < 32
  {
    Ones32();
    WithBitFits(w, b, 32);
    WithBit(w, b)
  }

  function ClearBit(w: u32, b: nat): u32 {
    WithoutBitFits(w, b);
    WithoutBit(w, b)
  }

  function Use(bm: seq<u32>, f: nat): seq<u32>
    requires f < 32 * |bm|
  {
    bm[f / 32 := SetBit(bm[f / 32], f % 32)]
  }

  function Release(bm: seq<u32>, f: nat): seq<u32>
    requires f < 32 * |bm|
  {
    bm[f / 32 := ClearBit(bm[f / 32], f % 32)]
  }

  lemma UseMeaning(bm: seq<u32>, f: nat, g: nat)
    requires f < 32 * |bm| && g < 32 * |bm|
    ensures UsedBit(Use(bm, f), g) <==> (g == f || UsedBit(bm, g))
  {
    WithBitMeaning(bm[f / 32], f % 32, g % 32);
  }

  lemma ReleaseMeaning(bm: seq<u32>, f: nat, g: nat)
    requires f < 32 * |bm| && g < 32 * |bm|
    ensures UsedBit(Release(bm, f), g) <==> (g != f && UsedBit(bm, g))
  {
    WithoutBitMeaning(bm[f / 32], f % 32, g % 32);
  }

  lemma UseShrinks(bm: seq<u32>, total: nat, f: nat)
    requires WellFormed(bm, total) && f < total
    ensures WellFormed(Use(bm, f), total)
    ensures FreeSet(Use(bm, f), total) == FreeSet(bm, total) - {f}
  {
    forall g: nat | g < 32 * |bm| ensures UsedBit(Use(bm, f), g) <==> (g == f || UsedBit(bm, g)) {
      UseMeaning(bm, f, g);
    }
  }

  lemma ReleaseGrows(bm: seq<u32>, total: nat, f: nat)
    requires WellFormed(bm, total) && f < total
    ensures WellFormed(Release(bm, f), total)
    ensures FreeSet(Release(bm, f), total) == FreeSet(bm, total) + {f}
  {
    forall g: nat | g < 32 * |bm| ensures UsedBit(Release(bm, f), g) <==> (g != f && UsedBit(bm, g)) {
      ReleaseMeaning(bm, f, g);
    }
  }

  /** A frame taken and given back leaves every word of the bitmap as it was. */
  lemma UseRelease(bm: seq<u32>, f: nat)
    requires f < 32 * |bm| && !UsedBit(bm, f)
    ensures Release(Use(bm, f), f) == bm
  {
    SetThenClear(bm[f / 32], f % 32);
  }

  /** A full word extends the scanned prefix by 32 frames. */
  lemma ScannedWord(bm: seq<u32>, w: nat)
    requires w < |bm|
    requires forall f: nat | f < 32 * w :: UsedBit(bm, f)
    requires forall b: nat | b < 32 :: Bit(bm[w], b)
    ensures forall f: nat | f < 32 * (w + 1) :: UsedBit(bm, f)
  {
    forall f: nat | 32 * w <= f < 32 * (w + 1) ensures UsedBit(bm, f) {
      assert f / 32 == w && Bit(bm[w], f % 32);
    }
  }

  ghost predicate IsLeast(f: nat, s: set<nat>) {
    f in s && forall g | g in s :: f <= g
  }

  lemma {:induction false} LeastExists(s: set<nat>)
    requires s != {}
    ensures exists f: nat :: IsLeast(f, s)
  {
    var f :| f in s;
    if s == {f} {
      assert IsLeast(f, s);
    } else {
      LeastExists(s - {f});
      var g: nat :| IsLeast(g, s - {f});
      var m := if g < f then g else f;
      forall h | h in s ensures m <= h {
        assert h == f || h in s - {f};
      }
      assert IsLeast(m, s);
    }
  }

  /** The least element; 0 when there is none, like the failure value. */
  ghost function Least(s: set<nat>): (f: nat)
    ensures s != {} ==> IsLeast(f, s)
    ensures s == {} ==> f == 0
  {
    if s == {} then 0
    else
      LeastExists(s);
      var f: nat :| IsLeast(f, s);
      f
  }

  ghost function Without(s: set<nat>, f: nat): set<nat> { s - {f} }

  ghost function With(s: set<nat>, f: nat): set<nat> { s + {f} }

  /** The least free frame taken and given back: nothing has changed. */
  lemma TakeAndReturn(bm: seq<u32>, total: nat)
    requires WellFormed(bm, total) && FreeSet(bm, total) != {}
    ensures var free := FreeSet(bm, total); var f := Least(free);
      && f < total && f < 32 * |bm|
      && free - {f} + {f} == free
      && Release(Use(bm, f), f) == bm
  {
    UseRelease(bm, Least(FreeSet(bm, total)));
  }

  /** A word that is not all ones holds a clear bit; an all-ones word holds none. */
  lemma WordScan(w: u32)
    ensures w == 0xFFFF_FFFF <==> forall b: nat | b < 32 :: Bit(w, b)
  {
    Ones32();
    FullWord(w, 32);
  }

  /** The numbers from `lo` up to but excluding `hi`. */
  ghost function Span(lo: nat, hi: nat): set<nat> {
    if hi <= lo then {} else Span(lo, hi - 1) + {hi - 1}
  }

  lemma {:induction false} SpanMembers(lo: nat, hi: nat)
    ensures forall f: nat :: f in Span(lo, hi) <==> lo <= f < hi
  {
    if lo < hi {
      SpanMembers(lo, hi - 1);
    }
  }

  function Min(x: nat, y: nat): nat { if x < y then x else y }

  /** `s` with the frames from `lo` to `hi` added, as far as there are frames. */
  ghost function AddSpan(s: set<nat>, lo: nat, hi: nat, total: nat): set<nat> {
    s + Span(lo, Min(hi, total))
  }

  lemma AddSpanStep(s: set<nat>, lo: nat, hi: nat, total: nat)
    requires lo <= hi
    ensures AddSpan(s, lo, lo, total) == s
    ensures AddSpan(s, lo, hi + 1, total) == AddSpan(s, lo, hi, total) + if hi < total then {hi} else {}
  {
  }

  /** The free frames after one region, and after all of them. */
  ghost function AfterRegion(s: set<nat>, r: Region, total: nat): set<nat> {
    if r.kind == USABLE then AddSpan(s, r.base / 4096, r.base / 4096 + r.len / 4096, total) else s
  }

  ghost function AfterRegions(s: set<nat>, rs: seq<Region>, total: nat): set<nat>
    decreases |rs|
  {
    if rs == [] then s else AfterRegions(AfterRegion(s, rs[0], total), rs[1..], total)
  }

  lemma WordsCover(total: nat)
    ensures total <= 32 * BitmapWords(total) < total + 32
  {
  }

  function BitmapBytes(total: nat): nat { 4 * BitmapWords(total) }

  /** The frame in which the byte after the bitmap lies. */
  function LastReserved(total: nat, kernelEnd: u32): nat {
    (PageUp(kernelEnd) + BitmapBytes(total)) / 4096
  }

  ghost function BootFree(rs: seq<Region>, total: nat, kernelEnd: u32): set<nat> {
    AfterRegions({}, rs, total) - Span(0, LastReserved(total, kernelEnd) + 1)
  }

  /** `pmm_init` frees frame `f` on account of region `r`. */
  predicate Frees(r: Region, f: nat) {
    r.kind == USABLE && r.base / 4096 <= f < r.base / 4096 + r.len / 4096
  }

  /** Some region of `rs` frees frame `f`. */
  ghost predicate SomeFrees(rs: seq<Region>, f: nat) {
    exists i | 0 <= i < |rs| :: Frees(rs[i], f)
  }

  lemma {:induction false} FreedByRegions(s: set<nat>, rs: seq<Region>, total: nat, f: nat)
    ensures f in AfterRegions(s, rs, total) <==> f in s || (f < total && SomeFrees(rs, f))
    decreases |rs|
  {
    if rs != [] {
      var r, t := rs[0], AfterRegion(s, rs[0], total);
      SpanMembers(r.base / 4096, Min(r.base / 4096 + r.len / 4096, total));
      FreedByRegions(t, rs[1..], total, f);
      if SomeFrees(rs, f) {
        var i :| 0 <= i < |rs| && Frees(rs[i], f);
        assert i > 0 ==> Frees(rs[1..][i - 1], f);
      }
      if SomeFrees(rs[1..], f) {
        var i :| 0 <= i < |rs| - 1 && Frees(rs[1..][i], f);
        assert Frees(rs[i + 1], f);
      }
    }
  }

  lemma AboveReserved(rs: seq<Region>, total: nat, kernelEnd: u32, f: nat)
    ensures f in BootFree(rs, total, kernelEnd) <==> LastReserved(total, kernelEnd) < f < total && SomeFrees(rs, f)
  {
    hide SomeFrees, LastReserved;
    FreedByRegions({}, rs, total, f);
    SpanMembers(0, LastReserved(total, kernelEnd) + 1);
  }

  lemma LastReservedByte(total: nat, kernelEnd: u32, words: nat, f: nat)
    requires total <= 32 * words < total + 32
    ensures words == BitmapWords(total)
    ensures LastReserved(total, kernelEnd) < f <==> PageUp(kernelEnd) + 4 * words < 4096 * f
  {
    hide PageUp;
  }

  /** The frames that `pmm_init` leaves free begin behind the last byte of kernel and
      bitmap. */
  lemma BootFreeMembers(rs: seq<Region>, total: nat, kernelEnd: u32, words: nat, f: nat)
    requires total <= 32 * words < total + 32
    ensures f in BootFree(rs, total, kernelEnd) <==>
            && f < total && PageUp(kernelEnd) + 4 * words < 4096 * f
            && exists i | 0 <= i < |rs| ::
                 rs[i].kind == USABLE && rs[i].base / 4096 <= f < rs[i].base / 4096 + rs[i].len / 4096
  {
    hide BootFree, LastReserved, PageUp, BitmapWords;
    AboveReserved(rs, total, kernelEnd, f);
    LastReservedByte(total, kernelEnd, words, f);
    if i :| 0 <= i < |rs| && Frees(rs[i], f) {
      assert rs[i].kind == USABLE && rs[i].base / 4096 <= f < rs[i].base / 4096 + rs[i].len / 4096;
    }
    if i :| 0 <= i < |rs|
            && rs[i].kind == USABLE && rs[i].base / 4096 <= f < rs[i].base / 4096 + rs[i].len / 4096 {
      assert Frees(rs[i], f);
    }
  }

  lemma BootFreeAre(rs: seq<Region>, total: nat, kernelEnd: u32, words: nat)
    requires total <= 32 * words < total + 32
    ensures forall f: nat :: f in BootFree(rs, total, kernelEnd) <==>
              && f < total && PageUp(kernelEnd) + 4 * words < 4096 * f
              && exists i | 0 <= i < |rs| ::
                   rs[i].kind == USABLE && rs[i].base / 4096 <= f < rs[i].base / 4096 + rs[i].len / 4096
  {
    forall f: nat
      ensures f in BootFree(rs, total, kernelEnd) <==>
              && f < total && PageUp(kernelEnd) + 4 * words < 4096 * f
              && exists i | 0 <= i < |rs| ::
                   rs[i].kind == USABLE && rs[i].base / 4096 <= f < rs[i].base / 4096 + rs[i].len / 4096
    {
      BootFreeMembers(rs, total, kernelEnd, words, f);
    }
  }

  class FrameAllocator {
    const bitmap: array<u32>
    const total: nat
    var used: int

    ghost predicate Valid()
      reads this, bitmap
    {
      && total <= 0xF_FFFF
      && WellFormed(bitmap[..], total)
      && used == total - |Free()|
    }

    ghost function Free(): set<nat>
      reads this, bitmap
    {
      FreeSet(bitmap[..], total)
    }

    /** `pmm_init`: everything used, then the usable regions freed, then low
        memory, the kernel and the bitmap claimed back. */
    constructor (info: MemoryInfo, kernelEnd: u32)
      requires info.Valid() && kernelEnd <= 0xF000_0000
      ensures Valid() && fresh(bitmap)
      ensures total == info.highest / 4096
      ensures Free() == BootFree(info.View().regions, total, kernelEnd)
      ensures total <= 32 * bitmap.Length < total + 32
      ensures var rs := info.View().regions;
        forall f: nat :: f in Free() <==>
          && f < total && PageUp(kernelEnd) + 4 * bitmap.Length < 4096 * f
          && exists i | 0 <= i < |rs| ::
               rs[i].kind == USABLE && rs[i].base / 4096 <= f < rs[i].base / 4096 + rs[i].len / 4096
    {
      total := info.highest / 4096;
      bitmap := new u32[BitmapWords(info.highest / 4096)];
      used := info.highest / 4096;
      new;
      FillOnes();
      FreeRegions(info);
      assert LastReserved(total, kernelEnd) == (PageUp(kernelEnd) + BitmapBytes(total)) / 4096;
      WordsCover(total);
      BootFreeAre(info.View().regions, total, kernelEnd, bitmap.Length);
      hide *;
      ReserveThrough((PageUp(kernelEnd) + BitmapBytes(total)) / 4096);
    }

    method ReserveThrough(last: nat)
      requires Valid()
      modifies this, bitmap
      ensures Valid() && Free() == old(Free()) - Span(0, last + 1)
    {
      assert Span(0, 0) == {};
      assert forall f: nat :: Span(0, f + 1) == Span(0, f) + {f};
      hide *;
      for f := 0 to last + 1
        invariant Valid() && Free() == old(Free()) - Span(0, f)
      {
        MarkUsed(f);
      }
    }

    method FillOnes()
      requires bitmap.Length == BitmapWords(total) && total <= 0xF_FFFF && used == total
      modifies bitmap
      ensures Valid() && Free() == {}
    {
      for i := 0 to bitmap.Length
        invariant forall j | 0 <= j < i :: bitmap[j] == 0xFFFF_FFFF
      {
        bitmap[i] := 0xFFFF_FFFF;
      }
      WordScan(0xFFFF_FFFF);
      forall f: nat | f < 32 * bitmap.Length ensures UsedBit(bitmap[..], f) {
        assert bitmap[f / 32] == 0xFFFF_FFFF;
      }
      assert Free() == {};
    }

    method FreeRegions(info: MemoryInfo)
      requires Valid() && info.Valid() && Free() == {}
      modifies this, bitmap
      ensures Valid() && Free() == AfterRegions({}, info.View().regions, total)
    {
      hide FrameAllocator.Valid, AddSpan, FreeSet;
      ghost var rest := info.View().regions;
      for r := 0 to info.regionCount
        invariant Valid() && rest == info.View().regions[r..]
        invariant AfterRegions(Free(), rest, total) == AfterRegions({}, info.View().regions, total)
      {
        var region := info.regions[r];
        assert region == rest[0];
        if region.kind == USABLE {
          FreeRegion(region);
        }
        rest := rest[1..];
      }
    }

    method FreeRegion(r: Region)
      requires Valid()
      modifies this, bitmap
      ensures Valid()
      ensures Free() == AddSpan(old(Free()), r.base / 4096, r.base / 4096 + r.len / 4096, total)
    {
      hide *;
      var start := r.base / 4096;
      var count := r.len / 4096;
      AddSpanStep(old(Free()), start, start, total);
      for f := 0 to count
        invariant Valid() && Free() == AddSpan(old(Free()), start, start + f, total)
      {
        AddSpanStep(old(Free()), start, start + f, total);
        MarkFree(start + f);
      }
    }

    /** `frame_test` */
    method FrameTest(f: nat) returns (b: bool)
      requires Valid() && f < 32 * bitmap.Length
      ensures b == UsedBit(bitmap[..], f)
    {
      b := Bit(bitmap[f / 32], f % 32);
    }

    /** What allocation would take, `pmm_free_frame` can give back. */
    lemma Undo()
      requires Valid()
      ensures Free() != {} ==> var f := Least(Free());
        f < total && f < 32 * bitmap.Length && Free() - {f} + {f} == Free() && Release(Use(bitmap[..], f), f) == bitmap[..]
    {
      if Free() != {} {
        TakeAndReturn(bitmap[..], total);
      }
    }

    lemma FreeBounded(free: set<nat>)
      requires free == Free()
      ensures forall f | f in free :: f < total
    {
    }

    /** `frame_mark_used` */
    method MarkUsed(f: nat)
      requires Valid()
      modifies this, bitmap
      ensures Valid() && Free() == old(Free()) - {f}
      ensures bitmap[..] == if f in old(Free()) then Use(old(bitmap[..]), f) else old(bitmap[..])
    {
      if f >= total {
        return;
      }
      var b := FrameTest(f);
      if !b {
        UseShrinks(bitmap[..], total, f);
        bitmap[f / 32] := SetBit(bitmap[f / 32], f % 32);
        used := used + 1;
        assert bitmap[..] == Use(old(bitmap[..]), f);
      }
    }

    /** `frame_mark_free` */
    method MarkFree(f: nat)
      requires Valid()
      modifies this, bitmap
      ensures Valid() && Free() == old(Free()) + if f < total then {f} else {}
      ensures bitmap[..] == if f < total && f !in old(Free()) then Release(old(bitmap[..]), f) else old(bitmap[..])
    {
      if f >= total {
        return;
      }
      var b := FrameTest(f);
      if b {
        ReleaseGrows(bitmap[..], total, f);
        bitmap[f / 32] := ClearBit(bitmap[f / 32], f % 32);
        used := used - 1;
        assert bitmap[..] == Release(old(bitmap[..]), f);
      }
    }

    /** The scan of `pmm_alloc_frame`: whole words first, then their bits. */
    method FirstClear() returns (found: bool, frame: nat)
      requires Valid()
      ensures found ==> IsLeast(frame, Free())
      ensures !found ==> Free() == {}
    {
      for w := 0 to bitmap.Length
        invariant forall f: nat | f < 32 * w :: UsedBit(bitmap[..], f)
      {
        WordScan(bitmap[w]);
        if bitmap[w] == 0xFFFF_FFFF {
          ScannedWord(bitmap[..], w);
          continue;
        }
        for b := 0 to 32
          invariant forall c: nat | c < b :: Bit(bitmap[w], c)
        {
          if !Bit(bitmap[w], b) {
            frame := w * 32 + b;
            assert !UsedBit(bitmap[..], frame);
            return true, frame;
          }
        }
      }
      return false, 0;
    }

    /** The frame handed out is the least free one; address 0 reports failure. */
    method AllocFrame() returns (addr: u32)
      requires Valid()
      modifies this, bitmap
      ensures Valid()
      ensures addr == 4096 * Least(old(Free())) && Free() == Without(old(Free()), Least(old(Free())))
      ensures bitmap[..] == if old(Free()) != {} then Use(old(bitmap[..]), Least(old(Free()))) else old(bitmap[..])
    {
      var found, frame := FirstClear();
      if !found || frame >= total {
        return 0;
      }
      MarkUsed(frame);
      return frame * 4096;
    }

    /** `pmm_free_frame`: out of range or free already, nothing changes. */
    method FreeFrame(addr: u32)
      requires Valid()
      modifies this, bitmap
      ensures Valid()
      ensures var f := addr / 4096;
        && Free() == (if f < total then With(old(Free()), f) else old(Free()))
        && bitmap[..] == if f < total && f !in old(Free()) then Release(old(bitmap[..]), f) else old(bitmap[..])
    {
      MarkFree(addr / 4096);
    }
  }
}
