/** Two-level page tables as raw words of physical memory (section 4.3 of the
    Intel SDM, volume 3A), and the finite map that they stand for. */
module PageTables {
  import opened Words
  import opened Pmm

  // A frame has 1024 words; frame `f` starts at word 1024 * f.

  predicate Present(e: u32) { e % 2 == 1 }

  /** `FRAME_OF(e)`, as a frame number. */
  function FrameOf(e: u32): nat { e / 4096 }

  /** `FRAME_OF(phys) | (flags & 0xFFF) | PAGE_PRESENT` */
  function MakeEntry(phys: u32, flags: u32): (e: u32)
    ensures Present(e) && FrameOf(e) == phys / 4096 && e % 4096 / 2 == flags % 4096 / 2
  {
    EntryOf(phys / 4096, flags % 4096)
  }

  function EntryOf(frame: nat, low: nat): (e: u32)
    requires frame < 0x10_0000 && low < 4096
    ensures e % 2 == 1 && e / 4096 == frame && e % 4096 / 2 == low / 2
  {
    if low % 2 == 1 then 4096 * frame + low else 4096 * frame + low + 1
  }

  function At(m: seq<u32>, i: nat): u32 { if i < |m| then m[i] else 0 }

  /** The word in which the directory at frame `dir` keeps entry `di`. */
  function PdeIndex(dir: nat, di: nat): nat { 1024 * dir + di }

  function Pde(m: seq<u32>, dir: nat, di: nat): u32 { At(m, PdeIndex(dir, di)) }

  predicate HasTable(m: seq<u32>, dir: nat, di: nat) { Present(Pde(m, dir, di)) }

  function TableOf(m: seq<u32>, dir: nat, di: nat): nat { FrameOf(Pde(m, dir, di)) }

  /** The word that holds the entry of virtual page `vp`. */
  function PteIndex(m: seq<u32>, dir: nat, vp: nat): nat {
    1024 * TableOf(m, dir, vp / 1024) + vp % 1024
  }

  /** The entry of virtual page `vp`, 0 when it has no table. */
  function Pte(m: seq<u32>, dir: nat, vp: nat): u32 {
    if HasTable(m, dir, vp / 1024) then At(m, PteIndex(m, dir, vp)) else 0
  }

  /** The page tables in use, by directory index. */
  ghost function TablesOf(m: seq<u32>, dir: nat): map<nat, nat> {
    map di: nat | di < 1024 && HasTable(m, dir, di) :: TableOf(m, dir, di)
  }

  /** The finite map from virtual page to entry that the raw words encode. */
  ghost function PagesOf(m: seq<u32>, dir: nat): map<nat, u32> {
    map vp: nat | vp < 0x10_0000 && Present(Pte(m, dir, vp)) :: Pte(m, dir, vp)
  }

  /** The directory and the tables are different frames; tables lie below `lim`. */
  ghost predicate DistinctTables(ts: map<nat, nat>, dir: nat, lim: nat) {
    && (forall di | di in ts :: di < 1024 && 0 < ts[di] < lim && ts[di] != dir)
    && (forall di, dj | di in ts && dj in ts && di != dj :: ts[di] != ts[dj])
  }

  ghost predicate TablesOk(m: seq<u32>, dir: nat, lim: nat) {
    1024 * lim <= |m| && 1024 * dir + 1024 <= |m| && DistinctTables(TablesOf(m, dir), dir, lim)
  }

  /** Physical memory with every word of frame `f` cleared. */
  ghost function Zeroed(m: seq<u32>, f: nat): seq<u32> {
    seq(|m|, i requires 0 <= i < |m| => if 1024 * f <= i < 1024 * f + 1024 then 0 else m[i])
  }

  /** The same words outside the frames `fs`. */
  ghost predicate SameOutside(m: seq<u32>, m': seq<u32>, fs: set<nat>) {
    |m| == |m'| && forall i: nat | i < |m| && i / 1024 !in fs :: m'[i] == m[i]
  }

  lemma SameOutsideRefl(m: seq<u32>, fs: set<nat>)
    ensures SameOutside(m, m, fs)
  {
  }

  lemma SameOutsideTrans(m: seq<u32>, m': seq<u32>, m'': seq<u32>, fs: set<nat>)
    requires SameOutside(m, m', fs) && SameOutside(m', m'', fs)
    ensures SameOutside(m, m'', fs)
  {
  }

  ghost function Metadata(m: seq<u32>, dir: nat): set<nat> {
    TablesOf(m, dir).Values + {dir}
  }

  /** What paging and frame allocation amount to: the tables by directory index,
      the entries by virtual page, and the free frames. */
  datatype AddressMap = AddressMap(tables: map<nat, nat>, pages: map<nat, u32>, free: set<nat>)

  /** A table for directory index `di` exists or can be made below `lim`. */
  ghost predicate TableAvailable(a: AddressMap, di: nat, lim: nat) {
    di in a.tables || (a.free != {} && Least(a.free) < lim)
  }

  /** `get_table` with creation: a missing table takes the least free frame. */
  ghost function WithTable(a: AddressMap, di: nat): AddressMap {
    if di in a.tables || a.free == {} then a
    else a.(tables := a.tables[di := Least(a.free)], free := a.free - {Least(a.free)})
  }

  /** `paging_map`, when a table is available. */
  ghost function Mapped(a: AddressMap, vp: nat, e: u32): AddressMap {
    WithTable(a, vp / 1024).(pages := a.pages[vp := e])
  }

  /** Writing an entry into an existing table changes that one page. */
  lemma WritePte(m: seq<u32>, dir: nat, lim: nat, vp: nat, e: u32)
    requires TablesOk(m, dir, lim) && vp < 0x10_0000 && HasTable(m, dir, vp / 1024)
    ensures PteIndex(m, dir, vp) < |m|
    ensures var m' := m[PteIndex(m, dir, vp) := e];
      && (forall di: nat | di < 1024 :: Pde(m', dir, di) == Pde(m, dir, di))
      && (forall w: nat | w < 0x10_0000 :: Pte(m', dir, w) == if w == vp then e else Pte(m, dir, w))
  {
    var k := PteIndex(m, dir, vp);
    var m' := m[k := e];
    assert vp / 1024 in TablesOf(m, dir);
    forall di: nat | di < 1024 ensures Pde(m', dir, di) == Pde(m, dir, di) {
      assert PdeIndex(dir, di) != k;
    }
    forall w: nat | w < 0x10_0000 ensures Pte(m', dir, w) == if w == vp then e else Pte(m, dir, w) {
      if HasTable(m, dir, w / 1024) {
        assert w / 1024 in TablesOf(m, dir);
        assert w / 1024 != vp / 1024 ==> TableOf(m, dir, w / 1024) != TableOf(m, dir, vp / 1024);
      }
    }
  }

  /** Hanging a cleared frame `f` into an empty directory entry maps nothing. */
  lemma AddTable(m: seq<u32>, dir: nat, lim: nat, di: nat, f: nat)
    requires TablesOk(m, dir, lim) && di < 1024 && !HasTable(m, dir, di)
    requires f < lim && f < 0x10_0000 && f !in Metadata(m, dir)
    ensures var m' := Zeroed(m, f)[PdeIndex(dir, di) := 4096 * f + 3];
      && (forall dj: nat | dj < 1024 :: Pde(m', dir, dj) == if dj == di then 4096 * f + 3 else Pde(m, dir, dj))
      && (forall w: nat | w < 0x10_0000 :: Pte(m', dir, w) == Pte(m, dir, w))
  {
    var z := Zeroed(m, f);
    var m' := z[PdeIndex(dir, di) := 4096 * f + 3];
    forall dj: nat | dj < 1024
      ensures Pde(m', dir, dj) == if dj == di then 4096 * f + 3 else Pde(m, dir, dj)
    {
      assert PdeIndex(dir, dj) < |m|;
    }
    forall w: nat | w < 0x10_0000 ensures Pte(m', dir, w) == Pte(m, dir, w) {
      var dj := w / 1024;
      if HasTable(m, dir, dj) {
        assert dj in TablesOf(m, dir);
        assert TablesOf(m, dir)[dj] in TablesOf(m, dir).Values;
        assert TableOf(m, dir, dj) != f && TableOf(m, dir, dj) != dir;
      }
    }
  }

  /** Equal entries encode equal maps. */
  lemma SameEntries(m: seq<u32>, m': seq<u32>, dir: nat)
    requires forall di: nat | di < 1024 :: Pde(m', dir, di) == Pde(m, dir, di)
    ensures TablesOf(m', dir) == TablesOf(m, dir)
  {
  }

  lemma SamePages(m: seq<u32>, m': seq<u32>, dir: nat)
    requires forall w: nat | w < 0x10_0000 :: Pte(m', dir, w) == Pte(m, dir, w)
    ensures PagesOf(m', dir) == PagesOf(m, dir)
  {
  }

  lemma OnePage(m: seq<u32>, m': seq<u32>, dir: nat, vp: nat, e: u32)
    requires vp < 0x10_0000
    requires forall w: nat | w < 0x10_0000 :: Pte(m', dir, w) == if w == vp then e else Pte(m, dir, w)
    ensures PagesOf(m', dir) == if Present(e) then PagesOf(m, dir)[vp := e] else PagesOf(m, dir) - {vp}
  {
  }

  lemma OneTable(m: seq<u32>, m': seq<u32>, dir: nat, di: nat, f: nat)
    requires di < 1024 && f < 0x10_0000
    requires forall dj: nat | dj < 1024 :: Pde(m', dir, dj) == if dj == di then 4096 * f + 3 else Pde(m, dir, dj)
    ensures TablesOf(m', dir) == TablesOf(m, dir)[di := f]
  {
    TableWord(f);
    assert HasTable(m', dir, di) && TableOf(m', dir, di) == f by { hide Pde; }
    hide Present, FrameOf, Pde;
  }

  lemma TableWord(f: nat)
    requires f < 0x10_0000
    ensures Present(4096 * f + 3) && FrameOf(4096 * f + 3) == f
  {
  }

  lemma AddedValue<K, V>(m: map<K, V>, k: K, v: V)
    requires k !in m
    ensures m[k := v].Values == m.Values + {v}
  {
    var n := m[k := v];
    assert n[k] == v;
    forall w | w in m.Values ensures w in n.Values {
      var j :| j in m && m[j] == w;
      assert n[j] == w;
    }
  }

  lemma StillDistinct(ts: map<nat, nat>, dir: nat, lim: nat, di: nat, f: nat)
    requires DistinctTables(ts, dir, lim) && di < 1024 && 0 < f < lim && f !in ts.Values + {dir}
    ensures DistinctTables(ts[di := f], dir, lim)
  {
    forall dj | dj in ts ensures ts[dj] != f {
      assert ts[dj] in ts.Values;
    }
  }

  lemma TableIsMetadata(m: seq<u32>, dir: nat, di: nat)
    requires di < 1024 && HasTable(m, dir, di)
    ensures TableOf(m, dir, di) in Metadata(m, dir)
  {
    assert di in TablesOf(m, dir);
    assert TablesOf(m, dir)[di] in TablesOf(m, dir).Values;
  }

  /** What `paging_map` and `paging_unmap` do to the words, seen as maps: an
      entry without the present bit takes the page out. */
  lemma SetPage(m: seq<u32>, dir: nat, lim: nat, vp: nat, e: u32)
    requires TablesOk(m, dir, lim) && vp < 0x10_0000 && vp / 1024 in TablesOf(m, dir)
    ensures PteIndex(m, dir, vp) < |m|
    ensures var m' := m[PteIndex(m, dir, vp) := e];
      && TablesOk(m', dir, lim)
      && TablesOf(m', dir) == TablesOf(m, dir)
      && PagesOf(m', dir) == (if Present(e) then PagesOf(m, dir)[vp := e] else PagesOf(m, dir) - {vp})
      && SameOutside(m, m', Metadata(m, dir))
  {
    WritePte(m, dir, lim, vp, e);
    TableIsMetadata(m, dir, vp / 1024);
    var m' := m[PteIndex(m, dir, vp) := e];
    SameEntries(m, m', dir);
    OnePage(m, m', dir, vp, e);
    assert PteIndex(m, dir, vp) / 1024 == TableOf(m, dir, vp / 1024);
    hide TablesOf, PagesOf, Pte, Pde;
  }

  /** What the creation of a table does to the words, seen as maps. */
  lemma GrowTables(m: seq<u32>, dir: nat, lim: nat, di: nat, f: nat)
    requires TablesOk(m, dir, lim) && di < 1024 && di !in TablesOf(m, dir)
    requires 0 < f < lim && f < 0x10_0000 && f !in Metadata(m, dir)
    ensures PdeIndex(dir, di) < |m|
    ensures var m' := Zeroed(m, f)[PdeIndex(dir, di) := 4096 * f + 3];
      && TablesOk(m', dir, lim)
      && TablesOf(m', dir) == TablesOf(m, dir)[di := f]
      && PagesOf(m', dir) == PagesOf(m, dir)
      && Metadata(m', dir) == Metadata(m, dir) + {f}
      && SameOutside(m, m', Metadata(m', dir))
  {
    AddTable(m, dir, lim, di, f);
    AddedValue(TablesOf(m, dir), di, f);
    var m' := Zeroed(m, f)[PdeIndex(dir, di) := 4096 * f + 3];
    SamePages(m, m', dir);
    OneTable(m, m', dir, di, f);
    StillDistinct(TablesOf(m, dir), dir, lim, di, f);
    assert PdeIndex(dir, di) / 1024 == dir;
    hide TablesOf, PagesOf, Pte, Pde, DistinctTables;
  }

  /** Words outside the directory and the tables do not matter to translation. */
  lemma Unrelated(m: seq<u32>, m': seq<u32>, dir: nat, lim: nat, fs: set<nat>)
    requires TablesOk(m, dir, lim) && SameOutside(m, m', fs) && fs !! Metadata(m, dir)
    ensures TablesOk(m', dir, lim)
    ensures TablesOf(m', dir) == TablesOf(m, dir)
    ensures PagesOf(m', dir) == PagesOf(m, dir)
  {
    forall di: nat | di < 1024 ensures Pde(m', dir, di) == Pde(m, dir, di) {
      assert PdeIndex(dir, di) / 1024 == dir;
    }
    forall w: nat | w < 0x10_0000 ensures Pte(m', dir, w) == Pte(m, dir, w) {
      if HasTable(m, dir, w / 1024) {
        TableIsMetadata(m, dir, w / 1024);
        assert PteIndex(m, dir, w) / 1024 == TableOf(m, dir, w / 1024);
      }
    }
    SameEntries(m, m', dir);
    SamePages(m, m', dir);
  }

  /** The directory and the tables are sound, in used frames, and counted. */
  ghost predicate SpaceOk(m: seq<u32>, dir: nat, lim: nat, free: set<nat>, tableCount: int, mappedPages: int) {
    && TablesOk(m, dir, lim)
    && 0 !in free && Metadata(m, dir) !! free
    && tableCount == |TablesOf(m, dir)|
    && mappedPages == |PagesOf(m, dir)|
  }

  ghost function ViewOf(m: seq<u32>, dir: nat, free: set<nat>): AddressMap {
    AddressMap(TablesOf(m, dir), PagesOf(m, dir), free)
  }

  lemma TableCreated(m: seq<u32>, dir: nat, lim: nat, free: set<nat>, tc: int, mp: int, di: nat)
    requires SpaceOk(m, dir, lim, free, tc, mp) && di < 1024 && di !in TablesOf(m, dir)
    requires free != {} && Least(free) < lim && lim <= 0xF_FFFF
    ensures PdeIndex(dir, di) < |m| && 1024 * Least(free) + 1024 <= |m|
    ensures var f := Least(free); var m' := Zeroed(m, f)[PdeIndex(dir, di) := 4096 * f + 3];
      && SpaceOk(m', dir, lim, free - {f}, tc + 1, mp)
      && ViewOf(m', dir, free - {f}) == WithTable(ViewOf(m, dir, free), di)
      && SameOutside(m, m', Metadata(m', dir))
  {
    hide TablesOf, PagesOf, Zeroed, Metadata, SameOutside, Least;
    var f := Least(free);
    assert f in free;
    GrowTables(m, dir, lim, di, f);
  }

  /** A directory entry read from memory, in terms of the tables. */
  lemma DirectoryEntry(m: seq<u32>, dir: nat, lim: nat, free: set<nat>, tc: int, mp: int, di: nat)
    requires SpaceOk(m, dir, lim, free, tc, mp) && di < 1024 && lim <= 0xF_FFFF
    ensures PdeIndex(dir, di) < |m|
    ensures HasTable(m, dir, di) <==> di in TablesOf(m, dir)
    ensures HasTable(m, dir, di) ==> 0 < TablesOf(m, dir)[di] == TableOf(m, dir, di) < 0xF_FFFF
  {
  }

  /** A table entry read from memory, in terms of the pages. */
  lemma TableEntry(m: seq<u32>, dir: nat, lim: nat, free: set<nat>, tc: int, mp: int, vp: nat)
    requires SpaceOk(m, dir, lim, free, tc, mp) && vp < 0x10_0000 && vp / 1024 in TablesOf(m, dir)
    ensures PteIndex(m, dir, vp) == 1024 * TablesOf(m, dir)[vp / 1024] + vp % 1024 < |m|
    ensures Present(m[PteIndex(m, dir, vp)]) <==> vp in PagesOf(m, dir)
    ensures vp in PagesOf(m, dir) ==> PagesOf(m, dir)[vp] == m[PteIndex(m, dir, vp)]
  {
    hide PagesOf;
    assert Pte(m, dir, vp) == m[PteIndex(m, dir, vp)];
    PagesMembers(m, dir, vp);
  }

  lemma PagesMembers(m: seq<u32>, dir: nat, vp: nat)
    requires vp < 0x10_0000
    ensures Present(Pte(m, dir, vp)) <==> vp in PagesOf(m, dir)
    ensures vp in PagesOf(m, dir) ==> PagesOf(m, dir)[vp] == Pte(m, dir, vp)
  {
  }

  lemma PagesHaveTables(m: seq<u32>, dir: nat, vp: nat)
    requires vp in PagesOf(m, dir)
    ensures vp < 0x10_0000 && vp / 1024 in TablesOf(m, dir)
  {
  }

  /** An entry written where there is a table: one page more, or one replaced. */
  lemma PageMapped(m: seq<u32>, dir: nat, lim: nat, free: set<nat>, tc: int, mp: int, vp: nat, e: u32)
    requires SpaceOk(m, dir, lim, free, tc, mp) && vp < 0x10_0000 && vp / 1024 in TablesOf(m, dir) && Present(e)
    ensures PteIndex(m, dir, vp) < |m|
    ensures var m' := m[PteIndex(m, dir, vp) := e]; var a := ViewOf(m, dir, free);
      && SpaceOk(m', dir, lim, free, tc, if vp in a.pages then mp else mp + 1)
      && ViewOf(m', dir, free) == a.(pages := a.pages[vp := e])
      && SameOutside(m, m', Metadata(m, dir)) && Metadata(m', dir) == Metadata(m, dir)
  {
    hide TablesOf, PagesOf, TablesOk, SameOutside;
    SetPage(m, dir, lim, vp, e);
  }

  /** An entry cleared. */
  lemma PageUnmapped(m: seq<u32>, dir: nat, lim: nat, free: set<nat>, tc: int, mp: int, vp: nat)
    requires SpaceOk(m, dir, lim, free, tc, mp) && vp in PagesOf(m, dir)
    ensures vp < 0x10_0000 && vp / 1024 in TablesOf(m, dir) && PteIndex(m, dir, vp) < |m|
    ensures var m' := m[PteIndex(m, dir, vp) := 0]; var a := ViewOf(m, dir, free);
      && SpaceOk(m', dir, lim, free, tc, mp - 1)
      && ViewOf(m', dir, free) == a.(pages := a.pages - {vp})
      && SameOutside(m, m', Metadata(m, dir)) && Metadata(m', dir) == Metadata(m, dir)
  {
    hide TablesOf, PagesOf, TablesOk, SameOutside;
    PagesHaveTables(m, dir, vp);
    SetPage(m, dir, lim, vp, 0);
    RemovedCard(PagesOf(m, dir), vp);
  }

  lemma RemovedCard<V>(m: map<nat, V>, k: nat)
    requires k in m
    ensures |m - {k}| == |m| - 1
  {
    var n := m - {k};
    assert n.Keys == m.Keys - {k};
    assert |n| == |n.Keys| && |m| == |m.Keys|;
  }

  /** A cleared directory has no tables and maps no pages. */
  lemma EmptyDirectory(m: seq<u32>, dir: nat)
    requires 1024 * dir + 1024 <= |m|
    ensures TablesOf(Zeroed(m, dir), dir) == map[]
    ensures PagesOf(Zeroed(m, dir), dir) == map[]
  {
    var z := Zeroed(m, dir);
    forall di: nat | di < 1024 ensures Pde(z, dir, di) == 0 {
      assert PdeIndex(dir, di) < |m|;
    }
  }

  lemma DirectoryMade(m: seq<u32>, dir: nat, lim: nat, free: set<nat>)
    requires 1024 * dir + 1024 <= |m| && dir in free && 0 !in free
    ensures TablesOf(Zeroed(m, dir), dir) == map[]
    ensures PagesOf(Zeroed(m, dir), dir) == map[]
    ensures 1024 * lim <= |m| ==> SpaceOk(Zeroed(m, dir), dir, lim, free - {dir}, 0, 0)
  {
    EmptyDirectory(m, dir);
    hide TablesOf, PagesOf, Zeroed;
  }

  lemma TablesBelow(m: seq<u32>, dir: nat, lim: nat, free: set<nat>, tc: int, mp: int)
    requires SpaceOk(m, dir, lim, free, tc, mp)
    ensures forall di | di in TablesOf(m, dir) :: TablesOf(m, dir)[di] < lim
    ensures tc == |TablesOf(m, dir)| && mp == |PagesOf(m, dir)|
  {
  }

  /** A free frame taken or given back does not touch the tables. */
  lemma FreeChanged(m: seq<u32>, dir: nat, lim: nat, free: set<nat>, tc: int, mp: int, f: nat)
    requires SpaceOk(m, dir, lim, free, tc, mp)
    ensures SpaceOk(m, dir, lim, free - {f}, tc, mp)
    ensures 0 < f && f !in Metadata(m, dir) ==> SpaceOk(m, dir, lim, free + {f}, tc, mp)
  {
  }

  lemma SpaceSame(m: seq<u32>, m': seq<u32>, dir: nat, lim: nat, free: set<nat>, tc: int, mp: int, fs: set<nat>)
    requires SpaceOk(m, dir, lim, free, tc, mp) && SameOutside(m, m', fs) && fs !! Metadata(m, dir)
    ensures SpaceOk(m', dir, lim, free, tc, mp)
    ensures ViewOf(m', dir, free) == ViewOf(m, dir, free)
  {
    Unrelated(m, m', dir, lim, fs);
    hide TablesOf, PagesOf, TablesOk;
  }
}
