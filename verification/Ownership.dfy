/** Who owns each physical frame: free, directory, page table, page above the
    identity window, reserved at boot, handed out raw, or lost. */
module Ownership {
  import opened Pmm
  import opened PageTables
  import opened IdentityMap
  import opened Leaves

  /** Frames that paging does not own: reserved at boot, handed out by `alloc`,
      or lost when growth mapped over a page stranded by an earlier failure. */
  datatype Others = Others(reserved: set<nat>, raw: set<nat>, lost: set<nat>)

  /** Every frame has exactly one owner. */
  ghost predicate Partition(a: AddressMap, dir: nat, lim: nat, total: nat, o: Others) {
    && Sound(a, dir, lim, total) && dir < total && 0 !in a.free
    && DistinctTables(a.tables, dir, lim) && lim <= total
    && forall f: nat :: Classes(f, o, Owned(a, dir, lim)) == One(f < total)
  }

  ghost function AddRaw(o: Others, f: nat): Others { o.(raw := With(o.raw, f)) }

  /** Frame `f` is no longer raw, nor lost. */
  ghost function DropRaw(o: Others, f: nat): Others { o.(raw := Without(o.raw, f), lost := Without(o.lost, f)) }

  /** What leaves `before` for good joins the lost frames. */
  ghost function AddLost(o: Others, before: set<nat>, after: set<nat>): Others {
    o.(lost := o.lost + (before - after))
  }

  ghost function TakeFree(a: AddressMap, f: nat): AddressMap { a.(free := Without(a.free, f)) }

  ghost function GiveFree(a: AddressMap, f: nat): AddressMap { a.(free := With(a.free, f)) }

  /** In how many of the classes frame `f` is, when paging owns `owned`. */
  ghost function Classes(f: nat, o: Others, owned: set<nat>): nat {
    One(f in owned) + One(f in o.reserved) + One(f in o.raw) + One(f in o.lost)
  }

  ghost function Owners(f: nat, a: AddressMap, dir: nat, lim: nat, o: Others): nat
  {
    One(f in a.free) + One(f in a.tables.Values) + One(f == dir) + One(f in LeafFrames(a, lim))
    + One(f in o.reserved) + One(f in o.raw) + One(f in o.lost)
  }

  lemma OwnedOnce(a: AddressMap, dir: nat, lim: nat, total: nat, f: nat)
    requires Sound(a, dir, lim, total) && DistinctTables(a.tables, dir, lim)
    ensures One(f in a.free) + One(f in a.tables.Values) + One(f == dir) + One(f in LeafFrames(a, lim))
            == One(f in Owned(a, dir, lim))
  {
    LeavesNotFree(a, dir, lim, total);
    TableNotDir(a.tables, dir, lim);
    assert f in a.tables.Values + {dir} ==> f !in a.free;
    hide LeafFrames, LeavesOk, DistinctTables;
  }

  /** In a partition each frame is in one and only one of the seven classes. */
  lemma OneOwner(a: AddressMap, dir: nat, lim: nat, total: nat, o: Others, f: nat)
    requires Partition(a, dir, lim, total, o)
    ensures Owners(f, a, dir, lim, o) == One(f < total)
  {
    hide Sound, DistinctTables, LeafFrames, Owned;
    OwnedOnce(a, dir, lim, total, f);
    assert Classes(f, o, Owned(a, dir, lim)) == One(f < total);
  }

  lemma TableNotDir(ts: map<nat, nat>, dir: nat, lim: nat)
    requires DistinctTables(ts, dir, lim)
    ensures dir !in ts.Values
  {
  }

  // ---- counting ----

  lemma {:induction false} ImageCount(keys: set<nat>, m: map<nat, nat>)
    requires keys <= m.Keys
    requires forall i, j | i in keys && j in keys && i != j :: m[i] != m[j]
    ensures |set k | k in keys :: m[k]| == |keys|
  {
    var image := set k | k in keys :: m[k];
    if keys == {} {
      assert image == {};
    } else {
      var k :| k in keys;
      var rest := set j | j in keys - {k} :: m[j];
      ImageCount(keys - {k}, m);
      assert image == rest + {m[k]};
      assert m[k] !in rest;
    }
  }

  lemma TableFrameCount(ts: map<nat, nat>, dir: nat, lim: nat)
    requires DistinctTables(ts, dir, lim)
    ensures |ts.Values| == |ts|
  {
    ImageCount(ts.Keys, ts);
    assert ts.Values == set k | k in ts.Keys :: ts[k];
    assert |ts| == |ts.Keys|;
  }

  lemma {:induction false} SpanCount(lo: nat, hi: nat)
    requires lo <= hi
    ensures |Span(lo, hi)| == hi - lo
  {
    if lo < hi {
      SpanCount(lo, hi - 1);
      SpanMembers(lo, hi - 1);
    }
  }

  lemma UpperPages(a: AddressMap, lim: nat)
    requires forall vp: nat | vp < lim :: vp in a.pages
    ensures |a.pages.Keys - Span(0, lim)| == |a.pages| - lim
  {
    SpanMembers(0, lim);
    SpanCount(0, lim);
    assert Span(0, lim) <= a.pages.Keys;
    assert |a.pages| == |a.pages.Keys|;
    assert a.pages.Keys == (a.pages.Keys - Span(0, lim)) + Span(0, lim);
    DisjointCount(a.pages.Keys - Span(0, lim), Span(0, lim));
  }

  /** As many leaf frames as there are pages above the identity window. */
  lemma LeafFrameCount(a: AddressMap, dir: nat, lim: nat, total: nat)
    requires LeavesOk(a, dir, lim, total)
    ensures |LeafFrames(a, lim)| == |a.pages| - lim
  {
    var keys := a.pages.Keys - Span(0, lim);
    var frames := map vp | vp in a.pages.Keys :: LeafFrame(a, vp);
    UpperPages(a, lim);
    SpanMembers(0, lim);
    ImageCount(keys, frames);
    SameImage(a, lim, keys, frames);
  }

  lemma SameImage(a: AddressMap, lim: nat, keys: set<nat>, frames: map<nat, nat>)
    requires frames.Keys == a.pages.Keys && forall vp | vp in frames :: frames[vp] == LeafFrame(a, vp)
    requires forall vp: nat :: vp in keys <==> vp in a.pages && lim <= vp
    ensures LeafFrames(a, lim) == set vp | vp in keys :: frames[vp]
  {
  }

  lemma DisjointCount(a: set<nat>, b: set<nat>)
    requires a !! b
    ensures |a + b| == |a| + |b|
  {
  }

  lemma OwnedCount(a: AddressMap, dir: nat, lim: nat, total: nat)
    requires Sound(a, dir, lim, total) && DistinctTables(a.tables, dir, lim)
    ensures |Owned(a, dir, lim)| == |a.free| + |a.tables| + 1 + (|a.pages| - lim)
  {
    LeavesNotFree(a, dir, lim, total);
    TableNotDir(a.tables, dir, lim);
    TableFrameCount(a.tables, dir, lim);
    LeafFrameCount(a, dir, lim, total);
    hide LeafFrames, LeavesOk, DistinctTables;
    DisjointCount(a.free, a.tables.Values);
    DisjointCount(a.free + a.tables.Values, {dir});
    DisjointCount(a.free + a.tables.Values + {dir}, LeafFrames(a, lim));
  }

  lemma ClassesDisjoint(o: Others, owned: set<nat>, total: nat)
    requires forall f: nat :: Classes(f, o, owned) == One(f < total)
    ensures o.reserved !! o.raw && o.reserved + o.raw !! o.lost && o.reserved + o.raw + o.lost !! owned
    ensures forall f: nat :: f in o.reserved + o.raw + o.lost + owned <==> f < total
  {
    forall f: nat
      ensures f in o.reserved + o.raw + o.lost + owned <==> f < total
      ensures !(f in o.reserved && f in o.raw) && !(f in o.reserved + o.raw && f in o.lost)
      ensures !(f in o.reserved + o.raw + o.lost && f in owned)
    {
      assert Classes(f, o, owned) == One(f < total);
    }
  }

  /** The three counters of the kernel in one equation: used frames are the
      reserved ones, the directory, the tables, the pages mapped above the
      identity window, the raw ones and the lost ones. */
  lemma UsedFramesAddUp(a: AddressMap, dir: nat, lim: nat, total: nat, o: Others)
    requires Partition(a, dir, lim, total, o)
    ensures total - |a.free| ==
            |o.reserved| + 1 + |a.tables| + (|a.pages| - lim) + |o.raw| + |o.lost|
  {
    hide Sound, DistinctTables, LeafFrames, Owned, LeavesOk;
    OwnedCount(a, dir, lim, total);
    SpanCount(0, total);
    SpanMembers(0, total);
    var y := o.reserved + o.raw + o.lost;
    ClassesDisjoint(o, Owned(a, dir, lim), total);
    assert y + Owned(a, dir, lim) == Span(0, total);
    DisjointCount(o.reserved, o.raw);
    DisjointCount(o.reserved + o.raw, o.lost);
    DisjointCount(y, Owned(a, dir, lim));
  }

  // ---- how ownership moves ----

  /** Whatever paging gives up without freeing it is lost. */
  lemma GivenUp(a: AddressMap, b: AddressMap, dir: nat, lim: nat, total: nat, o: Others)
    requires Partition(a, dir, lim, total, o)
    requires Sound(b, dir, lim, total) && DistinctTables(b.tables, dir, lim) && 0 !in b.free
    requires Owned(b, dir, lim) <= Owned(a, dir, lim)
    ensures Partition(b, dir, lim, total, AddLost(o, Owned(a, dir, lim), Owned(b, dir, lim)))
  {
    hide Sound, DistinctTables, Owned;
    var x, y := Owned(a, dir, lim), Owned(b, dir, lim);
    forall f: nat ensures Classes(f, AddLost(o, x, y), y) == One(f < total) {
      assert Classes(f, o, x) == One(f < total);
    }
  }

  // ---- what growth loses ----

  /** The frames behind those of the `n` pages from `vp` on that are mapped. */
  ghost function FramesBehind(a: AddressMap, vp: nat, n: nat): set<nat> {
    set w | w in a.pages && vp <= w < vp + n :: LeafFrame(a, w)
  }

  /** How many pages growth maps before it fails, if it does. */
  ghost function Reached(a: AddressMap, vp: nat, n: nat, lim: nat): (r: nat)
    ensures r <= n
    decreases n
  {
    if n > 0 && CanGrow(a, vp, lim) then 1 + Reached(Grown(a, vp), vp + 1, n - 1, lim) else 0
  }

  /** Growth that stops short stops where no page can be had. */
  lemma {:induction false} GrowthStops(a: AddressMap, vp: nat, n: nat, lim: nat)
    ensures AllGrow(a, vp, n, lim) <==> Reached(a, vp, n, lim) == n
    ensures Reached(a, vp, n, lim) < n ==> !CanGrow(GrowPages(a, vp, n, lim), vp + Reached(a, vp, n, lim), lim)
    decreases n
  {
    hide Grown, CanGrow;
    if n > 0 && CanGrow(a, vp, lim) {
      HasFree(a, vp, lim);
      GrowthStops(Grown(a, vp), vp + 1, n - 1, lim);
    }
  }

  lemma HasFree(a: AddressMap, vp: nat, lim: nat)
    requires CanGrow(a, vp, lim)
    ensures a.free != {}
  {
  }

  /** A page given a fresh frame loses the frame it had, and no other. */
  lemma GrownLoses(a: AddressMap, dir: nat, lim: nat, total: nat, vp: nat)
    requires Sound(a, dir, lim, total) && lim <= vp && a.free != {}
    ensures Owned(Grown(a, vp), dir, lim) == Owned(a, dir, lim) - FramesBehind(a, vp, 1)
  {
    var b, f := Grown(a, vp), Least(a.free);
    GrownSound(a, dir, lim, total, vp);
    GrownOwned(a, dir, lim, total, vp);
    TableFrames(a.(free := a.free - {f}), vp / 1024);
    assert vp in a.pages ==> LeafFrame(a, vp) !in a.free + a.tables.Values + {dir};
    assert b.free + b.tables.Values + {f} == a.free + a.tables.Values;
    hide Grown, Least, Sound, LeafFrames, LeafFrame, FrameEntry, FramesBehind;
    OtherLeavesStay(a, b, dir, lim, vp);
    if vp in a.pages {
      OldFrameGone(a, b, dir, lim, total, vp);
    }
    NoFrameBehind(a, vp);
  }

  lemma NoFrameBehind(a: AddressMap, vp: nat)
    ensures FramesBehind(a, vp, 1) == if vp in a.pages then {LeafFrame(a, vp)} else {}
  {
  }

  lemma OtherLeavesStay(a: AddressMap, b: AddressMap, dir: nat, lim: nat, vp: nat)
    requires lim <= vp && a.free != {} && Least(a.free) < 0x10_0000
    requires b.pages == a.pages[vp := FrameEntry(Least(a.free))]
    ensures Least(a.free) in LeafFrames(b, lim)
    ensures LeafFrames(a, lim) - FramesBehind(a, vp, 1) <= LeafFrames(b, lim)
  {
    assert LeafFrame(b, vp) == Least(a.free);
    forall g | g in LeafFrames(a, lim) && g !in FramesBehind(a, vp, 1) ensures g in LeafFrames(b, lim) {
      var wp :| wp in a.pages && lim <= wp && LeafFrame(a, wp) == g;
      assert wp != vp;
      assert LeafFrame(b, wp) == g;
    }
  }

  /** Nobody has the old frame of a page that was mapped anew. */
  lemma OldFrameGone(a: AddressMap, b: AddressMap, dir: nat, lim: nat, total: nat, vp: nat)
    requires Sound(a, dir, lim, total) && lim <= vp && a.free != {} && vp in a.pages
    requires b.pages == a.pages[vp := FrameEntry(Least(a.free))]
    requires b.free + b.tables.Values <= a.free + a.tables.Values
    ensures LeafFrame(a, vp) !in Owned(b, dir, lim)
    ensures FramesBehind(a, vp, 1) == {LeafFrame(a, vp)}
  {
    var f := Least(a.free);
    assert LeafFrame(b, vp) == f;
    forall wp | wp in b.pages && lim <= wp ensures LeafFrame(b, wp) != LeafFrame(a, vp) {
      assert wp != vp ==> wp in a.pages && LeafFrame(b, wp) == LeafFrame(a, wp);
    }
  }

  /** What a growth loses, exactly: the frames behind the pages that it maps and
      that were mapped already. */
  lemma {:induction false} GrowthLoses(a: AddressMap, dir: nat, lim: nat, total: nat, vp: nat, n: nat)
    requires Sound(a, dir, lim, total) && lim <= vp
    ensures Owned(GrowPages(a, vp, n, lim), dir, lim) ==
            Owned(a, dir, lim) - FramesBehind(a, vp, Reached(a, vp, n, lim))
    decreases n
  {
    hide Sound, Owned, Grown, CanGrow;
    if n > 0 && CanGrow(a, vp, lim) {
      HasFree(a, vp, lim);
      GrownSound(a, dir, lim, total, vp);
      GrownLoses(a, dir, lim, total, vp);
      GrowthLoses(Grown(a, vp), dir, lim, total, vp + 1, n - 1);
      FramesBehindStep(a, Grown(a, vp), vp, Reached(Grown(a, vp), vp + 1, n - 1, lim));
    }
  }

  lemma FramesBehindStep(a: AddressMap, b: AddressMap, vp: nat, r: nat)
    requires vp in b.pages && b.pages == a.pages[vp := b.pages[vp]]
    ensures FramesBehind(a, vp, r + 1) == FramesBehind(a, vp, 1) + FramesBehind(b, vp + 1, r)
  {
    var all, first, rest := FramesBehind(a, vp, r + 1), FramesBehind(a, vp, 1), FramesBehind(b, vp + 1, r);
    forall g | g in all ensures g in first + rest {
      var w :| w in a.pages && vp <= w < vp + r + 1 && LeafFrame(a, w) == g;
      assert w != vp ==> w in b.pages && LeafFrame(b, w) == g;
    }
    forall g | g in rest ensures g in all {
      var w :| w in b.pages && vp + 1 <= w < vp + 1 + r && LeafFrame(b, w) == g;
      assert w in a.pages && LeafFrame(a, w) == g;
    }
  }

  /** So nothing is lost if and only if none of the pages that get mapped was. */
  lemma LosesNothing(a: AddressMap, dir: nat, lim: nat, total: nat, vp: nat, n: nat)
    requires Sound(a, dir, lim, total) && lim <= vp
    ensures Owned(GrowPages(a, vp, n, lim), dir, lim) == Owned(a, dir, lim) <==>
            forall w: nat | vp <= w < vp + Reached(a, vp, n, lim) :: w !in a.pages
  {
    var r := Reached(a, vp, n, lim);
    hide Sound, Grown, CanGrow, Reached, GrowPages;
    GrowthLoses(a, dir, lim, total, vp, n);
    forall w: nat | vp <= w < vp + r && w in a.pages ensures LeafFrame(a, w) in FramesBehind(a, vp, r) * Owned(a, dir, lim) {
      assert LeafFrame(a, w) in LeafFrames(a, lim);
    }
  }

  /** A page that was not mapped gets its frame from the free ones. */
  lemma FreshPageOwned(a: AddressMap, dir: nat, lim: nat, total: nat, vp: nat)
    requires Sound(a, dir, lim, total) && lim <= vp && a.free != {} && vp !in a.pages
    ensures Owned(Grown(a, vp), dir, lim) == Owned(a, dir, lim)
  {
    hide Sound, Owned, Grown;
    GrownLoses(a, dir, lim, total, vp);
  }

  lemma FreshFrame(a: AddressMap, dir: nat, lim: nat, total: nat, vp: nat)
    requires Sound(a, dir, lim, total) && lim <= vp && a.free != {}
    ensures Sound(Grown(a, vp), dir, lim, total)
    ensures vp in Grown(a, vp).pages && LeafFrame(Grown(a, vp), vp) == Least(a.free)
  {
    GrownSound(a, dir, lim, total, vp);
    hide Grown, Least;
  }

  /** Growth that runs out of frames midway leaves the page it began with mapped. */
  lemma StrandedPage(a: AddressMap, dir: nat, lim: nat, total: nat, vp: nat, p: nat)
    requires Sound(a, dir, lim, total) && lim <= vp && CanGrow(a, vp, lim) && 0 < p
    ensures var b := GrowPages(a, vp, p, lim);
      vp in b.pages && LeafFrame(b, vp) == Least(a.free) && Sound(b, dir, lim, total)
  {
    hide Grown, CanGrow, Least, Sound;
    HasFree(a, vp, lim);
    FreshFrame(a, dir, lim, total, vp);
    GrowPagesRange(Grown(a, vp), lim, vp + 1, p - 1, vp);
    GrowPagesSound(Grown(a, vp), dir, lim, total, vp + 1, p - 1);
  }

  lemma {:induction false} GrowPagesSound(a: AddressMap, dir: nat, lim: nat, total: nat, vp: nat, n: nat)
    requires Sound(a, dir, lim, total) && lim <= vp
    ensures Sound(GrowPages(a, vp, n, lim), dir, lim, total)
    decreases n
  {
    hide Sound, Grown;
    if n > 0 && CanGrow(a, vp, lim) {
      GrownSound(a, dir, lim, total, vp);
      GrowPagesSound(Grown(a, vp), dir, lim, total, vp + 1, n - 1);
    }
  }

  /** Growth over a page that is mapped loses the frame behind it. */
  lemma OvergrownPage(c: AddressMap, dir: nat, lim: nat, total: nat, vp: nat, q: nat)
    requires Sound(c, dir, lim, total) && lim <= vp && CanGrow(c, vp, lim) && 0 < q && vp in c.pages
    ensures LeafFrame(c, vp) in Owned(c, dir, lim)
    ensures LeafFrame(c, vp) !in Owned(GrowPages(c, vp, q, lim), dir, lim)
  {
    GrowthLoses(c, dir, lim, total, vp, q);
    hide CanGrow, Sound, GrowPages;
    assert LeafFrame(c, vp) in LeafFrames(c, lim);
    assert LeafFrame(c, vp) in FramesBehind(c, vp, Reached(c, vp, q, lim));
  }

  /** How a frame gets lost. There are fewer free frames than the `p` pages that
      growth is to map: it fails, and leaves the page at the break mapped. A raw
      frame `f` is freed, and growth is tried again: the page gets a new frame, and
      the one that it had first has no owner any more. */
  lemma FrameIsLost(a: AddressMap, dir: nat, lim: nat, total: nat, o: Others, vp: nat, p: nat, q: nat, f: nat)
    requires Partition(a, dir, lim, total, o) && 0 in o.reserved && f in o.raw && lim <= vp && vp !in a.pages
    requires 0xC_0000 <= vp && vp + p <= 0xC_0400 && 0xC_0000 / 1024 in a.tables
    requires 0 < |a.free| < p && 0 < q
    ensures var b := GrowPages(a, vp, p, lim); var c := GiveFree(b, f); var d := GrowPages(c, vp, q, lim);
      var g := Least(a.free);
      && g in a.free && !AllGrow(a, vp, p, lim) && g in Owned(c, dir, lim) && g !in Owned(d, dir, lim)
      && g in AddLost(DropRaw(o, f), Owned(c, dir, lim), Owned(d, dir, lim)).lost
  {
    hide Sound, Owned, AllGrow, Partition, GrowPages, CanGrow, Least;
    var b := GrowPages(a, vp, p, lim);
    var c := GiveFree(b, f);
    RawIsNotOwned(a, dir, lim, total, o, f);
    WindowCanGrow(a, vp, lim);
    WindowGrowth(a, lim, vp, p);
    StrandedPage(a, dir, lim, total, vp, p);
    GrowthLoses(a, dir, lim, total, vp, p);
    GrowPagesTables(a, vp, p, lim, 0xC_0000 / 1024);
    SoundWith(b, dir, lim, total, f);
    WindowCanGrow(c, vp, lim);
    OvergrownPage(c, dir, lim, total, vp, q);
  }

  lemma RawIsNotOwned(a: AddressMap, dir: nat, lim: nat, total: nat, o: Others, f: nat)
    requires Partition(a, dir, lim, total, o) && f in o.raw
    ensures Sound(a, dir, lim, total) && f < total && f !in Owned(a, dir, lim)
  {
    assert Classes(f, o, Owned(a, dir, lim)) == One(f < total);
  }

  lemma WindowCanGrow(a: AddressMap, vp: nat, lim: nat)
    requires 0xC_0000 <= vp < 0xC_0400 && 0xC_0000 / 1024 in a.tables
    ensures CanGrow(a, vp, lim) <==> a.free != {}
  {
    assert vp / 1024 == 0xC_0000 / 1024;
  }

  lemma UnmappedPartition(a: AddressMap, dir: nat, lim: nat, total: nat, vp: nat, o: Others)
    requires Partition(a, dir, lim, total, o) && vp in a.pages && lim <= vp
    requires LeafFrame(a, vp) != 0
    ensures Partition(Unmapped(a, vp), dir, lim, total, o)
    ensures Owned(Unmapped(a, vp), dir, lim) == Owned(a, dir, lim)
  {
    var b, f := Unmapped(a, vp), LeafFrame(a, vp);
    forall g | g in LeafFrames(a, lim) && g != f ensures g in LeafFrames(b, lim) {
      var wp :| wp in a.pages && lim <= wp && LeafFrame(a, wp) == g;
      assert wp in b.pages && LeafFrame(b, wp) == g;
    }
    UnmappedSound(a, dir, lim, total, vp);
    assert f in LeafFrames(a, lim);
    hide LeavesOk, DistinctTables;
    forall g ensures g in LeafFrames(b, lim) ==> g in LeafFrames(a, lim) {
      if g in LeafFrames(b, lim) {
        var wp :| wp in b.pages && lim <= wp && LeafFrame(b, wp) == g;
        assert LeafFrame(a, wp) == g;
      }
    }
    assert Owned(b, dir, lim) == Owned(a, dir, lim);
  }

  lemma UnmappedSound(a: AddressMap, dir: nat, lim: nat, total: nat, vp: nat)
    requires Sound(a, dir, lim, total) && vp in a.pages && lim <= vp
    ensures Sound(Unmapped(a, vp), dir, lim, total)
  {
    var b := Unmapped(a, vp);
    forall wp | wp in b.pages && lim <= wp
      ensures LeafFrame(b, wp) == LeafFrame(a, wp) && LeafFrame(a, wp) != LeafFrame(a, vp)
    {
      assert wp in a.pages && wp != vp;
    }
  }

  /** `alloc`: a free frame becomes raw. */
  lemma TakenRaw(a: AddressMap, dir: nat, lim: nat, total: nat, o: Others, f: nat)
    requires Partition(a, dir, lim, total, o) && f in a.free
    ensures Partition(TakeFree(a, f), dir, lim, total, AddRaw(o, f))
  {
    var b := TakeFree(a, f);
    assert LeafFrames(b, lim) == LeafFrames(a, lim);
    LeavesNotFree(a, dir, lim, total);
    SoundWithout(a, dir, lim, total, f);
    assert f !in a.tables.Values + {dir};
    assert Owned(b, dir, lim) == Owned(a, dir, lim) - {f};
    hide Sound, DistinctTables, LeafFrames, Owned;
    forall g: nat ensures Classes(g, AddRaw(o, f), Owned(b, dir, lim)) == One(g < total) {
      assert Classes(g, o, Owned(a, dir, lim)) == One(g < total);
    }
  }

  lemma SoundWithout(a: AddressMap, dir: nat, lim: nat, total: nat, f: nat)
    requires Sound(a, dir, lim, total)
    ensures Sound(TakeFree(a, f), dir, lim, total)
  {
    var b := TakeFree(a, f);
    assert forall vp | vp in a.pages :: LeafFrame(b, vp) == LeafFrame(a, vp);
  }

  /** `free` of a raw frame, or of a lost one. */
  lemma GivenBack(a: AddressMap, dir: nat, lim: nat, total: nat, o: Others, f: nat)
    requires Partition(a, dir, lim, total, o) && f in o.raw + o.lost && f != 0
    ensures Partition(GiveFree(a, f), dir, lim, total, DropRaw(o, f))
  {
    var b := GiveFree(a, f);
    assert LeafFrames(b, lim) == LeafFrames(a, lim);
    assert Classes(f, o, Owned(a, dir, lim)) == One(f < total);
    SoundWith(a, dir, lim, total, f);
    assert Owned(b, dir, lim) == Owned(a, dir, lim) + {f};
    hide Sound, DistinctTables, LeafFrames, Owned;
    forall g: nat ensures Classes(g, DropRaw(o, f), Owned(b, dir, lim)) == One(g < total) {
      assert Classes(g, o, Owned(a, dir, lim)) == One(g < total);
    }
  }

  /** `free` on a frame leaves every frame with one owner, whatever the books of raw
      and lost frames then say, exactly when the frame was raw, lost or free; the
      command itself does not check. */
  lemma FreeIsSafe(a: AddressMap, dir: nat, lim: nat, total: nat, o: Others, f: nat)
    requires Partition(a, dir, lim, total, o) && 0 in o.reserved && f < total
    ensures (exists o': Others :: o'.reserved == o.reserved && Partition(GiveFree(a, f), dir, lim, total, o'))
            <==> f in o.raw + o.lost + a.free
    ensures f in o.raw + o.lost + a.free ==> Partition(GiveFree(a, f), dir, lim, total, DropRaw(o, f))
  {
    var b := GiveFree(a, f);
    assert Classes(f, o, Owned(a, dir, lim)) == 1;
    if f in o.raw + o.lost {
      assert Classes(0, o, Owned(a, dir, lim)) <= 1;
      GivenBack(a, dir, lim, total, o, f);
    } else if f in a.free {
      assert b == a && DropRaw(o, f) == o;
    } else {
      if f in LeafFrames(a, lim) {
        var vp :| vp in a.pages && lim <= vp && LeafFrame(a, vp) == f;
        assert LeafFrame(b, vp) in b.free;
      }
      assert f in Owned(a, dir, lim) ==> !Sound(b, dir, lim, total);
      assert f in o.reserved ==> forall o': Others | o'.reserved == o.reserved :: Classes(f, o', Owned(b, dir, lim)) >= 2;
    }
  }

  lemma SoundWith(a: AddressMap, dir: nat, lim: nat, total: nat, f: nat)
    requires Sound(a, dir, lim, total) && f < total && f !in Owned(a, dir, lim)
    ensures Sound(GiveFree(a, f), dir, lim, total)
  {
    var b := GiveFree(a, f);
    forall vp | vp in a.pages && lim <= vp ensures LeafFrame(b, vp) == LeafFrame(a, vp) != f {
      assert LeafFrame(a, vp) in LeafFrames(a, lim);
    }
  }

  /** Boot: what `pmm_init` left used is reserved, and so nobody else's. */
  lemma BootPartition(a: AddressMap, dir: nat, lim: nat, total: nat, all: set<nat>)
    requires lim <= total <= 0xF_FFFF && dir < total && a.pages == IdentityPages(lim)
    requires a.free + a.tables.Values + {dir} == all && a.free !! a.tables.Values + {dir}
    requires DistinctTables(a.tables, dir, lim) && 0 !in all && forall f | f in all :: f < total
    ensures Partition(a, dir, lim, total, Others(Span(0, total) - all, {}, {}))
  {
    SpanMembers(0, total);
    assert LeafFrames(a, lim) == {};
  }
}
