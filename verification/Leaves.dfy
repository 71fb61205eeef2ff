/** Pages above the identity window: which frames they own, and why the heap
    window behaves like flat memory although it is scattered over frames. */
module Leaves {
  import opened Words
  import opened Pmm
  import opened PageTables
  import opened IdentityMap

  /** The frame of a mapped page. */
  function LeafFrame(a: AddressMap, vp: nat): nat
    requires vp in a.pages
  {
    FrameOf(a.pages[vp])
  }

  /** Below `lim` every page is mapped to itself. Above, every page has a used
      frame of its own, which holds neither the directory nor a table. */
  ghost predicate LeavesOk(a: AddressMap, dir: nat, lim: nat, total: nat) {
    && (forall vp: nat | vp < lim :: vp in a.pages && a.pages[vp] == 4096 * vp + 3)
    && (forall vp | vp in a.pages && lim <= vp ::
          LeafFrame(a, vp) < total && LeafFrame(a, vp) !in a.free + a.tables.Values + {dir})
    && (forall vp, wp | vp in a.pages && wp in a.pages && lim <= vp && lim <= wp && vp != wp ::
          LeafFrame(a, vp) != LeafFrame(a, wp))
  }

  /** The frames that pages above the identity window own. */
  ghost function LeafFrames(a: AddressMap, lim: nat): set<nat> {
    set vp | vp in a.pages && lim <= vp :: LeafFrame(a, vp)
  }

  /** One step of `grow_mapping` or of `map`: the least free frame for page `vp`. */
  ghost predicate CanGrow(a: AddressMap, vp: nat, lim: nat) {
    a.free != {} && TableAvailable(a.(free := a.free - {Least(a.free)}), vp / 1024, lim)
  }

  /** The entry for frame `f`, present and writable. */
  function FrameEntry(f: nat): u32 { if f < 0x10_0000 then 4096 * f + 3 else 0 }

  ghost function Grown(a: AddressMap, vp: nat): AddressMap
    requires a.free != {}
  {
    var f := Least(a.free);
    Mapped(a.(free := a.free - {f}), vp, FrameEntry(f))
  }

  /** The map after `unmap`: the page is gone and its frame is free. */
  ghost function Unmapped(a: AddressMap, vp: nat): AddressMap
    requires vp in a.pages
  {
    a.(pages := a.pages - {vp}, free := a.free + {LeafFrame(a, vp)})
  }

  /** What `WithTable` does to the frames that hold tables. */
  lemma TableFrames(a: AddressMap, di: nat)
    ensures var b := WithTable(a, di);
      && b.pages == a.pages
      && b.free <= a.free && a.tables.Values <= b.tables.Values
      && b.free + b.tables.Values == a.free + a.tables.Values
      && (a.free !! a.tables.Values ==> b.free !! b.tables.Values)
  {
    if di !in a.tables && a.free != {} {
      AddedValue(a.tables, di, Least(a.free));
    }
  }

  /** A page given a fresh frame keeps all leaves sound. */
  lemma GrownLeaves(a: AddressMap, dir: nat, lim: nat, total: nat, vp: nat)
    requires LeavesOk(a, dir, lim, total) && lim <= vp
    requires a.free != {} && (forall f | f in a.free :: f < total) && a.free !! a.tables.Values + {dir}
    requires total <= 0xF_FFFF
    ensures LeavesOk(Grown(a, vp), dir, lim, total)
  {
    var f := Least(a.free);
    var t := WithTable(a.(free := a.free - {f}), vp / 1024);
    var b := Grown(a, vp);
    TableFrames(a.(free := a.free - {f}), vp / 1024);
    assert b.pages == a.pages[vp := FrameEntry(f)] && b.free == t.free && b.tables == t.tables;
    hide WithTable, Least, Mapped, Grown;
    assert LeafFrame(b, vp) == f;
    forall wp | wp in b.pages && lim <= wp
      ensures LeafFrame(b, wp) < total && LeafFrame(b, wp) !in b.free + b.tables.Values + {dir}
      ensures wp != vp ==> LeafFrame(b, wp) == LeafFrame(a, wp) != f
    {
      if wp != vp {
        assert wp in a.pages;
      }
    }
  }

  /** `grow_mapping`: pages from `vp` on, until one of them fails. */
  ghost function GrowPages(a: AddressMap, vp: nat, n: nat, lim: nat): AddressMap
    decreases n
  {
    if n > 0 && CanGrow(a, vp, lim) then GrowPages(Grown(a, vp), vp + 1, n - 1, lim) else a
  }

  ghost predicate AllGrow(a: AddressMap, vp: nat, n: nat, lim: nat)
    decreases n
  {
    n == 0 || (CanGrow(a, vp, lim) && AllGrow(Grown(a, vp), vp + 1, n - 1, lim))
  }

  /** What the leaves rely on. */
  ghost predicate Sound(a: AddressMap, dir: nat, lim: nat, total: nat) {
    && total <= 0xF_FFFF
    && LeavesOk(a, dir, lim, total)
    && (forall f | f in a.free :: f < total)
    && a.free !! a.tables.Values + {dir}
  }

  lemma GrownSound(a: AddressMap, dir: nat, lim: nat, total: nat, vp: nat)
    requires Sound(a, dir, lim, total) && lim <= vp && a.free != {}
    ensures Sound(Grown(a, vp), dir, lim, total)
    ensures Grown(a, vp).pages == a.pages[vp := FrameEntry(Least(a.free))]
    ensures Grown(a, vp).free <= a.free
  {
    GrownLeaves(a, dir, lim, total, vp);
    TableFrames(a.(free := a.free - {Least(a.free)}), vp / 1024);
  }

  /** Growth changes no page outside its range, and maps all of it when it succeeds. */
  lemma {:induction false} GrowPagesRange(a: AddressMap, lim: nat, vp: nat, n: nat, w: nat)
    ensures var b := GrowPages(a, vp, n, lim);
      && (!(vp <= w < vp + n) ==> (w in b.pages <==> w in a.pages) && (w in a.pages ==> b.pages[w] == a.pages[w]))
      && (w in a.pages ==> w in b.pages)
      && (AllGrow(a, vp, n, lim) && vp <= w < vp + n ==> w in b.pages)
    decreases n
  {
    if n > 0 && CanGrow(a, vp, lim) {
      GrowPagesRange(Grown(a, vp), lim, vp + 1, n - 1, w);
    }
  }

  /** What `get_table` needs to find or make a table: that it is there, or a free frame
      below the identity end. */
  lemma TableNeeds(a: AddressMap, di: nat, lim: nat)
    ensures TableAvailable(a, di, lim) <==> di in a.tables || exists f: nat :: f in a.free && f < lim
  {
    LeastBelow(a.free, lim);
    if f: nat :| f in a.free && f < lim {
      assert f in Below(a.free, lim);
    }
  }

  /** What mapping a fresh frame needs: a free frame, and if the table is not there two
      of them below the identity end, as the frame for the page, which is taken first,
      is the least one. */
  lemma MapNeeds(a: AddressMap, vp: nat, lim: nat)
    ensures CanGrow(a, vp, lim) <==>
            if vp / 1024 in a.tables then a.free != {} else |set f | f in a.free && f < lim| >= 2
  {
    assert Below(a.free, lim) == set f | f in a.free && f < lim;
    if a.free != {} {
      TwoBelow(a.free, lim);
    } else {
      assert Below(a.free, lim) == {};
    }
  }

  /** Every page that growth maps is present and writable, for the kernel alone, and
      leads to a frame that was free. */
  lemma {:induction false} GrownWritable(a: AddressMap, dir: nat, lim: nat, total: nat, vp: nat, n: nat, w: nat)
    requires Sound(a, dir, lim, total) && lim <= vp <= w < vp + n && AllGrow(a, vp, n, lim)
    ensures var b := GrowPages(a, vp, n, lim);
      w in b.pages && b.pages[w] % 4096 == 3 && b.pages[w] / 4096 in a.free
    decreases n
  {
    hide Sound;
    var f := Least(a.free);
    assert a.free != {};
    GrownSound(a, dir, lim, total, vp);
    GrowPagesRange(Grown(a, vp), lim, vp + 1, n - 1, w);
    if w == vp {
      EntryOfFree(a, dir, lim, total, f);
      hide Grown;
    } else {
      hide Grown;
      GrownWritable(Grown(a, vp), dir, lim, total, vp + 1, n - 1, w);
    }
  }

  lemma EntryOfFree(a: AddressMap, dir: nat, lim: nat, total: nat, f: nat)
    requires Sound(a, dir, lim, total) && f in a.free
    ensures FrameEntry(f) % 4096 == 3 && FrameEntry(f) / 4096 == f
  {
    hide LeavesOk;
  }

  /** The 4 MB heap window has one table; once that exists, growth inside the
      window fails only when frames run out, and takes exactly the frames it maps. */
  lemma {:induction false} WindowGrowth(a: AddressMap, lim: nat, vp: nat, n: nat)
    requires 0xC_0000 <= vp && vp + n <= 0xC_0400 && 0xC_0000 / 1024 in a.tables
    ensures AllGrow(a, vp, n, lim) <==> |a.free| >= n
    ensures GrowPages(a, vp, n, lim).tables == a.tables
    ensures |GrowPages(a, vp, n, lim).free| == if |a.free| >= n then |a.free| - n else 0
    decreases n
  {
    if n > 0 {
      assert vp / 1024 == 0xC_0000 / 1024;
      if a.free != {} {
        assert Grown(a, vp).tables == a.tables;
        assert Grown(a, vp).free == a.free - {Least(a.free)};
        WindowGrowth(Grown(a, vp), lim, vp + 1, n - 1);
      }
    }
  }

  // ---- flat memory ----

  /** The physical word behind heap word `i`. */
  function PhysWord(pages: map<nat, u32>, i: nat): nat {
    if 0xC_0000 + i / 1024 in pages then 1024 * FrameOf(pages[0xC_0000 + i / 1024]) + i % 1024 else 0
  }

  /** The first `n` words of the heap as the MMU shows them. */
  ghost function Flat(m: seq<u32>, pages: map<nat, u32>, n: nat): (h: seq<u32>)
    ensures |h| == n
  {
    seq(n, i requires 0 <= i < n => At(m, PhysWord(pages, i)))
  }

  /** The first `n` words of the heap window are mapped. */
  ghost predicate WindowMapped(pages: map<nat, u32>, n: nat) {
    n % 1024 == 0 && forall vp: nat | 0xC_0000 <= vp < 0xC_0000 + n / 1024 :: vp in pages
  }

  /** The window's first `n` words lie in the same frames. */
  ghost predicate SameWindow(p: map<nat, u32>, q: map<nat, u32>, n: nat) {
    forall vp: nat | 0xC_0000 <= vp < 0xC_0000 + n / 1024 :: vp in p && vp in q && q[vp] == p[vp]
  }

  /** Different heap words are different physical words, outside the tables. */
  lemma Injective(a: AddressMap, dir: nat, lim: nat, total: nat, n: nat, i: nat, j: nat)
    requires LeavesOk(a, dir, lim, total) && lim <= 0xC_0000 && WindowMapped(a.pages, n)
    requires i < n && j < n
    ensures PhysWord(a.pages, i) / 1024 < total
    ensures PhysWord(a.pages, i) / 1024 !in a.free + a.tables.Values + {dir}
    ensures PhysWord(a.pages, i) / 1024 == LeafFrameOf(a.pages, i)
    ensures i != j ==> PhysWord(a.pages, i) != PhysWord(a.pages, j)
  {
    var p, q := 0xC_0000 + i / 1024, 0xC_0000 + j / 1024;
    assert i / 1024 < n / 1024 && j / 1024 < n / 1024;
    assert p in a.pages && q in a.pages;
    assert PhysWord(a.pages, i) == 1024 * LeafFrame(a, p) + i % 1024;
    assert PhysWord(a.pages, j) == 1024 * LeafFrame(a, q) + j % 1024;
  }

  function LeafFrameOf(pages: map<nat, u32>, i: nat): nat {
    if 0xC_0000 + i / 1024 in pages then FrameOf(pages[0xC_0000 + i / 1024]) else 0
  }

  /** A store through the MMU changes one word of the flat heap. */
  lemma FlatStore(m: seq<u32>, a: AddressMap, dir: nat, lim: nat, total: nat, n: nat, k: nat, v: u32)
    requires LeavesOk(a, dir, lim, total) && lim <= 0xC_0000 && WindowMapped(a.pages, n)
    requires |m| == 1024 * total && k < n
    ensures PhysWord(a.pages, k) < |m|
    ensures Flat(m[PhysWord(a.pages, k) := v], a.pages, n) == Flat(m, a.pages, n)[k := v]
  {
    hide LeavesOk, PhysWord, WindowMapped, LeafFrameOf;
    Injective(a, dir, lim, total, n, k, k);
    forall i: nat | i < n && i != k ensures PhysWord(a.pages, i) != PhysWord(a.pages, k) {
      Injective(a, dir, lim, total, n, i, k);
    }
  }

  /** The flat heap depends only on the frames of its own pages. */
  lemma FlatSame(m: seq<u32>, m': seq<u32>, a: AddressMap, b: AddressMap, dir: nat, lim: nat, total: nat, n: nat,
          fs: set<nat>)
    requires LeavesOk(a, dir, lim, total) && lim <= 0xC_0000 && WindowMapped(a.pages, n)
    requires SameOutside(m, m', fs) && |m| == 1024 * total
    requires forall i: nat | i < n :: LeafFrameOf(a.pages, i) !in fs
    requires SameWindow(a.pages, b.pages, n)
    ensures Flat(m', b.pages, n) == Flat(m, a.pages, n)
  {
    forall i: nat | i < n
      ensures PhysWord(b.pages, i) == PhysWord(a.pages, i) && At(m', PhysWord(b.pages, i)) == At(m, PhysWord(a.pages, i))
    {
      Injective(a, dir, lim, total, n, i, i);
      assert i / 1024 < n / 1024;
      assert 0xC_0000 + i / 1024 in b.pages;
    }
  }

  /** Word `w` occurs in none of the frames `fs`. */
  ghost predicate Absent(m: seq<u32>, fs: set<nat>, w: u32) {
    forall i: nat | i < |m| && i / 1024 in fs :: m[i] != w
  }

  lemma WindowStep(a: AddressMap, b: AddressMap, n: nat, vp: nat, e: u32)
    requires WindowMapped(a.pages, n) && vp == 0xC_0000 + n / 1024 && b.pages == a.pages[vp := e]
    ensures WindowMapped(b.pages, n + 1024) && SameWindow(a.pages, b.pages, n)
  {
  }

  lemma LeavesApart(a: AddressMap, b: AddressMap, dir: nat, lim: nat, total: nat, n: nat, i: nat)
    requires LeavesOk(b, dir, lim, total) && lim <= 0xC_0000 && SameWindow(a.pages, b.pages, n)
    requires i < n && n % 1024 == 0
    ensures LeafFrameOf(a.pages, i) !in b.tables.Values + {dir}
  {
    var vp := 0xC_0000 + i / 1024;
    assert i / 1024 < n / 1024;
    assert vp in b.pages && b.pages[vp] == a.pages[vp];
    assert LeafFrame(b, vp) == LeafFrameOf(a.pages, i);
  }

  /** One more page at the end of the window: the words so far are the same, and
      the new ones are what the fresh frame held. */
  lemma GrownFlat(m: seq<u32>, m': seq<u32>, a: AddressMap, dir: nat, lim: nat, total: nat, vp: nat, n: nat)
    requires Sound(a, dir, lim, total) && lim <= 0xC_0000 && a.free != {}
    requires WindowMapped(a.pages, n) && vp == 0xC_0000 + n / 1024 && |m| == 1024 * total
    requires SameOutside(m, m', Grown(a, vp).tables.Values + {dir})
    ensures var b := Grown(a, vp);
      && WindowMapped(b.pages, n + 1024)
      && Flat(m', b.pages, n) == Flat(m, a.pages, n)
      && (forall j: nat | n <= j < n + 1024 :: PhysWord(b.pages, j) == 1024 * Least(a.free) + (j - n))
  {
    var b := Grown(a, vp);
    GrownSound(a, dir, lim, total, vp);
    WindowStep(a, b, n, vp, FrameEntry(Least(a.free)));
    forall i: nat | i < n ensures LeafFrameOf(a.pages, i) !in b.tables.Values + {dir} {
      LeavesApart(a, b, dir, lim, total, n, i);
    }
    FlatSame(m, m', a, b, dir, lim, total, n, b.tables.Values + {dir});
    NewPageWords(b.pages, vp, n, Least(a.free));
  }

  lemma NewPageWords(pages: map<nat, u32>, vp: nat, n: nat, f: nat)
    requires WindowMapped(pages, n + 1024) && vp == 0xC_0000 + n / 1024 && n % 1024 == 0
    requires vp in pages && FrameOf(pages[vp]) == f
    ensures forall j: nat | n <= j < n + 1024 :: PhysWord(pages, j) == 1024 * f + (j - n)
  {
    forall j: nat | n <= j < n + 1024 ensures PhysWord(pages, j) == 1024 * f + (j - n) {
      assert 0xC_0000 + j / 1024 == vp;
    }
  }

  /** A word that no free frame holds stays out of them and out of the new page. */
  lemma GrownAbsent(m: seq<u32>, m': seq<u32>, a: AddressMap, dir: nat, lim: nat, total: nat, vp: nat, w: u32)
    requires Sound(a, dir, lim, total) && lim <= vp && a.free != {} && |m| == 1024 * total
    requires SameOutside(m, m', Grown(a, vp).tables.Values + {dir})
    requires Absent(m, a.free, w)
    ensures Absent(m', Grown(a, vp).free, w)
    ensures forall i: nat | 1024 * Least(a.free) <= i < 1024 * Least(a.free) + 1024 :: At(m', i) != w
  {
    var b, f := Grown(a, vp), Least(a.free);
    GrownSound(a, dir, lim, total, vp);
    assert LeafFrame(b, vp) == f;
    hide Grown, Least;
    forall i: nat | i < |m'| && (i / 1024 in b.free || i / 1024 == f) ensures m'[i] != w {
      assert i / 1024 !in b.tables.Values + {dir};
      assert m'[i] == m[i];
    }
  }

  /** The frames that paging and the heap may write to or hand out. */
  ghost function Owned(a: AddressMap, dir: nat, lim: nat): set<nat> {
    a.free + a.tables.Values + {dir} + LeafFrames(a, lim)
  }

  lemma GrownOwned(a: AddressMap, dir: nat, lim: nat, total: nat, vp: nat)
    requires Sound(a, dir, lim, total) && lim <= vp && a.free != {}
    ensures Owned(Grown(a, vp), dir, lim) <= Owned(a, dir, lim)
    ensures Grown(a, vp).tables.Values + {dir} <= Owned(a, dir, lim)
  {
    var b, f := Grown(a, vp), Least(a.free);
    GrownSound(a, dir, lim, total, vp);
    TableFrames(a.(free := a.free - {f}), vp / 1024);
    hide Grown, Least, Sound;
    forall g | g in LeafFrames(b, lim) ensures g == f || g in LeafFrames(a, lim) {
      var wp :| wp in b.pages && lim <= wp && LeafFrame(b, wp) == g;
      assert wp != vp ==> wp in a.pages && LeafFrame(a, wp) == g;
    }
  }

  lemma LeavesNotFree(a: AddressMap, dir: nat, lim: nat, total: nat)
    requires LeavesOk(a, dir, lim, total)
    ensures LeafFrames(a, lim) !! a.free + a.tables.Values + {dir}
  {
  }

  lemma StillAbsent(m: seq<u32>, m': seq<u32>, free: set<nat>, fs: set<nat>, w: u32)
    requires SameOutside(m, m', fs) && fs !! free
    ensures Absent(m, free, w) ==> Absent(m', free, w)
  {
  }

  lemma {:induction false} GrowPagesTables(a: AddressMap, vp: nat, n: nat, lim: nat, di: nat)
    requires di in a.tables
    ensures di in GrowPages(a, vp, n, lim).tables
    decreases n
  {
    if n > 0 && CanGrow(a, vp, lim) {
      GrowPagesTables(Grown(a, vp), vp + 1, n - 1, lim, di);
    }
  }

  lemma SameOutsideStep(m: seq<u32>, m': seq<u32>, m'': seq<u32>, fs: set<nat>, gs: set<nat>)
    requires SameOutside(m, m', fs) && SameOutside(m', m'', gs) && gs <= fs
    ensures SameOutside(m, m'', fs)
  {
  }

  // ---- growth of the flat heap ----

  /** Physical memory together with what its page tables mean. */
  datatype Snapshot = Snapshot(m: seq<u32>, a: AddressMap)

  /** Growth of a heap of `n` words has got from `s0` to `s`, `k` pages further:
      the old words are the same, and a word `w` absent from the free frames of
      `s0` is absent from the new ones. */
  ghost predicate Growing(s0: Snapshot, s: Snapshot, dir: nat, lim: nat, total: nat, n: nat, k: nat, w: u32) {
    && Sound(s.a, dir, lim, total) && |s.m| == 1024 * total
    && n % 1024 == 0 && WindowMapped(s.a.pages, n + 1024 * k)
    && Flat(s.m, s.a.pages, n + 1024 * k)[..n] == Flat(s0.m, s0.a.pages, n)
    && SameOutside(s0.m, s.m, Owned(s0.a, dir, lim)) && Owned(s.a, dir, lim) <= Owned(s0.a, dir, lim)
    && (Absent(s0.m, s0.a.free, w) ==>
          && Absent(s.m, s.a.free, w)
          && NoneFrom(Flat(s.m, s.a.pages, n + 1024 * k), n, w))
  }

  lemma GrowingStart(s: Snapshot, dir: nat, lim: nat, total: nat, n: nat, w: u32)
    requires Sound(s.a, dir, lim, total) && |s.m| == 1024 * total && WindowMapped(s.a.pages, n)
    ensures Growing(s, s, dir, lim, total, n, 0, w)
  {
    var h := Flat(s.m, s.a.pages, n);
    assert h[..n] == h;
  }

  lemma FlatPrefix(m: seq<u32>, pages: map<nat, u32>, n: nat, k: nat)
    requires n <= k
    ensures Flat(m, pages, k)[..n] == Flat(m, pages, n)
  {
  }

  lemma GrowingStep(s0: Snapshot, s: Snapshot, m': seq<u32>, dir: nat, lim: nat, total: nat, n: nat, k: nat, q: nat,
          vp: nat, w: u32)
    requires Growing(s0, s, dir, lim, total, n, k, w) && lim <= 4096 && s.a.free != {}
    requires q == n + 1024 * k && vp == 0xC_0000 + q / 1024
    requires SameOutside(s.m, m', Grown(s.a, vp).tables.Values + {dir})
    ensures Growing(s0, Snapshot(m', Grown(s.a, vp)), dir, lim, total, n, k + 1, w)
  {
    hide Sound, LeavesOk, Grown, Least, Owned, WindowMapped, SameOutside, Flat, Absent, PhysWord;
    var a, b := s.a, Grown(s.a, vp);
    GrownSound(a, dir, lim, total, vp);
    GrownOwned(a, dir, lim, total, vp);
    GrownFlat(s.m, m', a, dir, lim, total, vp, q);
    SameOutsideStep(s0.m, s.m, m', Owned(s0.a, dir, lim), b.tables.Values + {dir});
    SameLength(s.m, m', b.tables.Values + {dir});
    FlatPrefix(m', b.pages, q, q + 1024);
    var h, h' := Flat(s.m, a.pages, q), Flat(m', b.pages, q + 1024);
    assert h'[..n] == h'[..q][..n] == h[..n];
    if Absent(s0.m, s0.a.free, w) {
      GrownAbsent(s.m, m', a, dir, lim, total, vp, w);
      forall j | n <= j < q + 1024 ensures h'[j] != w {
        if j < q {
          assert h'[j] == h'[..q][j] == h[j];
        } else {
          FlatAt(m', b.pages, q + 1024, j);
        }
      }
    }
  }

  lemma GrowingSound(s0: Snapshot, s: Snapshot, dir: nat, lim: nat, total: nat, n: nat, k: nat, w: u32)
    requires Growing(s0, s, dir, lim, total, n, k, w)
    ensures Sound(s.a, dir, lim, total)
  {
    hide Sound, SameOutside, Owned, Flat;
  }

  lemma FlatAt(m: seq<u32>, pages: map<nat, u32>, n: nat, j: nat)
    requires j < n
    ensures Flat(m, pages, n)[j] == At(m, PhysWord(pages, j))
  {
  }

  lemma SameLength(m: seq<u32>, m': seq<u32>, fs: set<nat>)
    requires SameOutside(m, m', fs)
    ensures |m| == |m'|
  {
  }

  /** What growth by `k` pages amounts to, whether the break moves or not. */
  lemma GrowingFacts(s0: Snapshot, s: Snapshot, dir: nat, lim: nat, total: nat, n: nat, k: nat, w: u32)
    requires Growing(s0, s, dir, lim, total, n, k, w)
    ensures Sound(s.a, dir, lim, total) && WindowMapped(s.a.pages, n) && WindowMapped(s.a.pages, n + 1024 * k)
    ensures Flat(s.m, s.a.pages, n) == Flat(s0.m, s0.a.pages, n)
    ensures Flat(s.m, s.a.pages, n + 1024 * k)[..n] == Flat(s0.m, s0.a.pages, n)
    ensures Flat(s.m, s.a.pages, n)[..n] == Flat(s0.m, s0.a.pages, n)
    ensures SameOutside(s0.m, s.m, Owned(s0.a, dir, lim)) && Owned(s.a, dir, lim) <= Owned(s0.a, dir, lim)
    ensures Absent(s0.m, s0.a.free, w) ==>
              && Absent(s.m, s.a.free, w)
              && NoneFrom(Flat(s.m, s.a.pages, n + 1024 * k), n, w)
              && NoneFrom(Flat(s.m, s.a.pages, n), n, w)
  {
    hide Sound, PhysWord, SameOutside, Owned, Flat;
    FlatPrefix(s.m, s.a.pages, n, n + 1024 * k);
    FlatPrefix(s.m, s.a.pages, n, n);
  }

  // ---- pages outside the heap ----

  /** Not one of the pages of a heap of `n` words. */
  predicate OutsideHeap(vp: nat, n: nat) { vp < 0xC_0000 || 0xC_0000 + n / 1024 <= vp }

  /** A page mapped elsewhere leaves the flat heap as it is. */
  lemma MappedElsewhere(m: seq<u32>, m': seq<u32>, a: AddressMap, dir: nat, lim: nat, total: nat, vp: nat, n: nat)
    requires Sound(a, dir, lim, total) && lim <= 0xC_0000 && lim <= vp && a.free != {} && OutsideHeap(vp, n)
    requires n <= 0x10_0000 && WindowMapped(a.pages, n) && |m| == 1024 * total
    requires SameOutside(m, m', Grown(a, vp).tables.Values + {dir})
    ensures WindowMapped(Grown(a, vp).pages, n)
    ensures Flat(m', Grown(a, vp).pages, n) == Flat(m, a.pages, n)
  {
    var b := Grown(a, vp);
    GrownSound(a, dir, lim, total, vp);
    assert SameWindow(a.pages, b.pages, n);
    hide Grown, Least;
    forall i: nat | i < n ensures LeafFrameOf(a.pages, i) !in b.tables.Values + {dir} {
      LeavesApart(a, b, dir, lim, total, n, i);
    }
    FlatSame(m, m', a, b, dir, lim, total, n, b.tables.Values + {dir});
  }

  /** A page unmapped elsewhere, too. */
  lemma UnmappedElsewhere(m: seq<u32>, m': seq<u32>, a: AddressMap, b: AddressMap, dir: nat, lim: nat, total: nat,
          vp: nat, n: nat)
    requires Sound(a, dir, lim, total) && lim <= 0xC_0000 && OutsideHeap(vp, n) && b.pages == a.pages - {vp}
    requires n <= 0x10_0000 && WindowMapped(a.pages, n) && |m| == 1024 * total
    requires SameOutside(m, m', a.tables.Values + {dir})
    ensures WindowMapped(b.pages, n)
    ensures Flat(m', b.pages, n) == Flat(m, a.pages, n)
  {
    assert SameWindow(a.pages, b.pages, n);
    forall i: nat | i < n ensures LeafFrameOf(a.pages, i) !in a.tables.Values + {dir} {
      assert SameWindow(a.pages, a.pages, n);
      LeavesApart(a, a, dir, lim, total, n, i);
    }
    FlatSame(m, m', a, b, dir, lim, total, n, a.tables.Values + {dir});
  }

  /** A store to a page outside the heap does not reach it. */
  lemma StoredElsewhere(m: seq<u32>, a: AddressMap, dir: nat, lim: nat, total: nat, vp: nat, n: nat, i: nat, v: u32)
    requires Sound(a, dir, lim, total) && lim <= 0xC_0000 && lim <= vp && vp in a.pages && OutsideHeap(vp, n)
    requires n <= 0x10_0000 && WindowMapped(a.pages, n) && |m| == 1024 * total && i < |m|
    requires i / 1024 == LeafFrame(a, vp)
    ensures Flat(m[i := v], a.pages, n) == Flat(m, a.pages, n)
    ensures SameOutside(m, m[i := v], {i / 1024})
    ensures i / 1024 in LeafFrames(a, lim) && i / 1024 !in a.free + a.tables.Values + {dir}
  {
    forall j: nat | j < n ensures LeafFrameOf(a.pages, j) !in {i / 1024} {
      assert j / 1024 < n / 1024;
      var wp := 0xC_0000 + j / 1024;
      assert wp in a.pages && LeafFrame(a, wp) == LeafFrameOf(a.pages, j);
    }
    assert SameWindow(a.pages, a.pages, n);
    FlatSame(m, m[i := v], a, a, dir, lim, total, n, {i / 1024});
  }
}
