/** The identity map that `paging_init` builds, on the finite map: which entries
    it makes, which frames it takes, and when there are enough of them. */
module IdentityMap {
  import opened Words
  import opened Pmm
  import opened PageTables

  /** Page `vp` mapped to frame `vp`, present and writable. */
  ghost function IdentityPages(k: nat): map<nat, u32>
    requires k <= 0x10_0000
  {
    map vp: nat | vp < k :: 4096 * vp + 3
  }

  /** Page tables that `k` pages from address 0 on need. */
  function TablesFor(k: nat): nat { (k + 1023) / 1024 }

  /** The free frames of `free` that a page table may take. */
  ghost function Below(free: set<nat>, lim: nat): set<nat> {
    set f | f in free && f < lim
  }

  function One(b: bool): nat { if b then 1 else 0 }

  /** The state after `k` pages, when boot began with the free frames `all` and
      the directory took frame `dir`. */
  ghost predicate Built(a: AddressMap, all: set<nat>, dir: nat, lim: nat, k: nat) {
    && k <= lim <= 0xF_FFFF
    && a.pages == IdentityPages(k)
    && (forall di: nat :: di in a.tables <==> di < TablesFor(k))
    && a.free + a.tables.Values + {dir} == all
    && |Below(a.free, lim)| + TablesFor(k) + One(dir < lim) == |Below(all, lim)|
  }

  lemma LeastBelow(free: set<nat>, lim: nat)
    ensures free != {} && Least(free) < lim <==> Below(free, lim) != {}
    ensures free != {} && Least(free) < lim ==>
              |Below(free - {Least(free)}, lim)| == |Below(free, lim)| - 1
  {
    if free != {} && Least(free) < lim {
      assert Least(free) in Below(free, lim);
      assert Below(free - {Least(free)}, lim) == Below(free, lim) - {Least(free)};
    }
  }

  lemma IdentityGrows(k: nat)
    requires k < 0x10_0000
    ensures IdentityPages(k + 1) == IdentityPages(k)[k := 4096 * k + 3]
  {
  }

  lemma TablesForStep(k: nat)
    ensures k / 1024 < TablesFor(k) ==> TablesFor(k + 1) == TablesFor(k)
    ensures k / 1024 >= TablesFor(k) ==> k / 1024 == TablesFor(k) && TablesFor(k + 1) == TablesFor(k) + 1
  {
  }

  /** The directory takes the least free frame. */
  lemma Start(all: set<nat>, lim: nat)
    requires all != {} && lim <= 0xF_FFFF
    ensures Built(AddressMap(map[], map[], all - {Least(all)}), all, Least(all), lim, 0)
  {
    LeastBelow(all, lim);
    if Least(all) >= lim {
      assert Below(all - {Least(all)}, lim) == Below(all, lim);
    }
  }

  /** One more page of the identity map. */
  lemma Step(a: AddressMap, all: set<nat>, dir: nat, lim: nat, k: nat)
    requires Built(a, all, dir, lim, k) && k < lim && TableAvailable(a, k / 1024, lim)
    ensures Built(Mapped(a, k, 4096 * k + 3), all, dir, lim, k + 1)
  {
    IdentityGrows(k);
    TablesForStep(k);
    if k / 1024 !in a.tables {
      LeastBelow(a.free, lim);
      AddedValue(a.tables, k / 1024, Least(a.free));
    }
    hide IdentityPages, Below, Least, TablesFor;
  }

  /** The identity map can only fail for want of a frame below `lim` ... */
  lemma Failed(a: AddressMap, all: set<nat>, dir: nat, lim: nat, k: nat)
    requires Built(a, all, dir, lim, k) && k < lim && !TableAvailable(a, k / 1024, lim)
    ensures |Below(all, lim)| < TablesFor(lim) + 1
  {
    LeastBelow(a.free, lim);
    TablesForStep(k);
  }

  /** ... and when it is complete there were enough, the directory's included. */
  lemma Complete(a: AddressMap, all: set<nat>, lim: nat)
    requires all != {} && Built(a, all, Least(all), lim, lim) && 0 < lim
    requires forall di | di in a.tables :: a.tables[di] < lim
    ensures Least(all) < lim
    ensures |Below(all, lim)| >= TablesFor(lim) + 1
  {
    assert 0 in a.tables && a.tables[0] in a.tables.Values;
    assert a.tables[0] in all;
  }

  lemma {:induction false} InitialKeys<V>(m: map<nat, V>, n: nat)
    requires forall k: nat :: k in m <==> k < n
    ensures |m| == n
  {
    if n == 0 {
      assert m.Keys == {};
    } else {
      var r := m - {n - 1};
      InitialKeys(r, n - 1);
      assert m.Keys == r.Keys + {n - 1};
      assert |m| == |m.Keys| && |r| == |r.Keys|;
    }
  }

  /** How many tables and pages there are when the identity map is complete. */
  lemma Counts(a: AddressMap, all: set<nat>, dir: nat, lim: nat)
    requires Built(a, all, dir, lim, lim)
    ensures |a.tables| == TablesFor(lim) && |a.pages| == lim
  {
    InitialKeys(a.tables, TablesFor(lim));
    InitialKeys(a.pages, lim);
  }

  lemma TwoBelow(free: set<nat>, lim: nat)
    requires free != {}
    ensures |Below(free, lim)| >= 2 <==>
              free - {Least(free)} != {} && Least(free - {Least(free)}) < lim
  {
    var rest := free - {Least(free)};
    LeastBelow(free, lim);
    LeastBelow(rest, lim);
    if rest != {} && Least(rest) < lim {
      assert Least(free) <= Least(rest);
    }
    assert Below(rest, lim) != {} ==> |Below(rest, lim)| >= 1;
    assert Least(free) >= lim ==> Below(free, lim) == {};
  }

  /** The least number of tables for `k` pages from 0 on. */
  lemma TablesSuffice(k: nat)
    ensures k <= 1024 * TablesFor(k) < k + 1024
  {
  }
}
