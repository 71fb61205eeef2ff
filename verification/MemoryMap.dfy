/** The walk over the memory map that the boot loader leaves behind. */
module MemoryMap {
  import opened Words

  const MAX_REGIONS: nat := 32
  const USABLE: u32 := 1

  type u64 = x: int | 0 <= x < 0x1_0000_0000_0000_0000

  /** Words after the six that every entry has, short enough for the size field. */
  type Extension = ws: seq<u32> | |ws| < 0x1000_0000

  /** One entry of the map as section 3.3 of the Multiboot Specification 0.6.96
      lays it out: 64-bit address and length, a type, possibly more words. */
  datatype Entry = Entry(addr: u64, len: u64, kind: u32, extra: Extension)

  /** What the kernel keeps of an entry. */
  datatype Region = Region(base: u32, len: u32, kind: u32)

  /** What the kernel keeps of the whole map. */
  datatype Tally = Tally(regions: seq<Region>, highest: u32, totalKb: u32, usableKb: u32)

  const NOTHING := Tally([], 0, 0, 0)

  /** The words of one entry: its size field does not count itself. */
  ghost function EncodeEntry(e: Entry): (ws: seq<u32>)
    ensures |ws| == 6 + |e.extra|
  {
    [20 + 4 * |e.extra|, Wrap(e.addr), Wrap(e.addr / 0x1_0000_0000), Wrap(e.len), Wrap(e.len / 0x1_0000_0000), e.kind]
    + e.extra
  }

  ghost function Encode(es: seq<Entry>): seq<u32> {
    if es == [] then [] else EncodeEntry(es[0]) + Encode(es[1..])
  }

  /** The 32-bit casts of `addr` and `len`. */
  function Truncate(e: Entry): Region {
    Region(Wrap(e.addr), Wrap(e.len), e.kind)
  }

  function End(r: Region): u32 { Add32(r.base, r.len) }

  /** One more region counted in. */
  function Count(t: Tally, r: Region): Tally {
    Tally(
      if |t.regions| < MAX_REGIONS then t.regions + [r] else t.regions,
      if r.kind == USABLE && End(r) > t.highest then End(r) else t.highest,
      Add32(t.totalKb, r.len / 1024),
      if r.kind == USABLE then Add32(t.usableKb, r.len / 1024) else t.usableKb)
  }

  function CountAll(t: Tally, es: seq<Entry>): Tally
    decreases |es|
  {
    if es == [] then t else CountAll(Count(t, Truncate(es[0])), es[1..])
  }

  /** The first 32 regions are recorded. */
  lemma {:induction false} RegionsRecorded(t: Tally, es: seq<Entry>)
    requires |t.regions| <= MAX_REGIONS
    decreases |es|
    ensures var rs := CountAll(t, es).regions;
      && |rs| == (if |t.regions| + |es| <= MAX_REGIONS then |t.regions| + |es| else MAX_REGIONS)
      && t.regions <= rs
      && forall i | |t.regions| <= i < |rs| :: rs[i] == Truncate(es[i - |t.regions|])
  {
    if es != [] {
      RegionsRecorded(Count(t, Truncate(es[0])), es[1..]);
    }
  }

  lemma {:induction false} HighestEnd(t: Tally, es: seq<Entry>)
    decreases |es|
    ensures var h := CountAll(t, es).highest;
      && t.highest <= h
      && (forall i | 0 <= i < |es| && es[i].kind == USABLE :: End(Truncate(es[i])) <= h)
      && (h == t.highest || exists i | 0 <= i < |es| :: es[i].kind == USABLE && End(Truncate(es[i])) == h)
  {
    if es != [] {
      var t' := Count(t, Truncate(es[0]));
      HighestEnd(t', es[1..]);
      var h := CountAll(t, es).highest;
      if h != t'.highest {
        var i :| 0 <= i < |es| - 1 && es[1..][i].kind == USABLE && End(Truncate(es[1..][i])) == h;
        assert es[i + 1].kind == USABLE;
      }
    }
  }

  /** `highest` is the largest end of a usable entry, of all entries and not only
      of the first 32. */
  lemma HighestIsMaximum(t: Tally, es: seq<Entry>)
    ensures var h := CountAll(t, es).highest;
      && t.highest <= h
      && (forall i | 0 <= i < |es| && es[i].kind == USABLE :: (Wrap(es[i].addr) + Wrap(es[i].len)) % 0x1_0000_0000 <= h)
      && (h == t.highest
          || exists i | 0 <= i < |es| ::
               es[i].kind == USABLE && (Wrap(es[i].addr) + Wrap(es[i].len)) % 0x1_0000_0000 == h)
  {
    hide CountAll, Wrap, End, Truncate;
    HighestEnd(t, es);
    forall i | 0 <= i < |es|
      ensures End(Truncate(es[i])) == (Wrap(es[i].addr) + Wrap(es[i].len)) % 0x1_0000_0000
    {
      EndWraps(es[i]);
    }
  }

  lemma EndWraps(e: Entry)
    ensures End(Truncate(e)) == (Wrap(e.addr) + Wrap(e.len)) % 0x1_0000_0000
  {
    SumWraps(Wrap(e.addr), Wrap(e.len));
  }

  /** The lengths of the entries as they are cut to 32 bits, in whole KB, added up. */
  function AllKb(es: seq<Entry>): nat {
    if es == [] then 0 else Wrap(es[0].len) / 1024 + AllKb(es[1..])
  }

  /** The same over the usable entries alone. */
  function UsableKb(es: seq<Entry>): nat {
    if es == [] then 0 else (if es[0].kind == 1 then Wrap(es[0].len) / 1024 else 0) + UsableKb(es[1..])
  }

  /** The totals are these sums modulo 2^32, over all entries and not only the first 32. */
  lemma {:induction false} TotalsAreSums(t: Tally, es: seq<Entry>)
    ensures CountAll(t, es).totalKb == Wrap(t.totalKb + AllKb(es))
    ensures CountAll(t, es).usableKb == Wrap(t.usableKb + UsableKb(es))
    decreases |es|
  {
    if es != [] {
      var r, k := Truncate(es[0]), Wrap(es[0].len) / 1024;
      TotalsAreSums(Count(t, r), es[1..]);
      AddedLater(t.totalKb, k, AllKb(es[1..]));
      AddedLater(t.usableKb, k, UsableKb(es[1..]));
    }
  }

  lemma AddedLater(x: u32, k: u32, rest: nat)
    ensures Wrap(Add32(x, k) + rest) == Wrap(x + (k + rest))
  {
  }

  /** What the walk reads at word `i` when the map's remaining entries `es` lie
      there, and where the next entry starts. */
  lemma WalkStep(mem: seq<u32>, i: nat, end: nat, es: seq<Entry>)
    requires es != []
    requires i <= end <= |mem|
    requires mem[i..end] == Encode(es)
    ensures i + 6 + |es[0].extra| <= end
    ensures mem[i] == 20 + 4 * |es[0].extra|
    ensures Region(mem[i + 1], mem[i + 3], mem[i + 5]) == Truncate(es[0])
    ensures mem[i + 6 + |es[0].extra|..end] == Encode(es[1..])
  {
    var w, x := mem[i..end], EncodeEntry(es[0]);
    assert w == x + Encode(es[1..]);
    assert mem[i] == w[0] == x[0];
    assert mem[i + 1] == w[1] == x[1];
    assert mem[i + 3] == w[3] == x[3];
    assert mem[i + 5] == w[5] == x[5];
    assert mem[i + |x|..end] == w[|x|..] == Encode(es[1..]);
  }

  /** The fields read through the entry pointer. */
  method ReadEntry(mem: seq<u32>, entry: u32, ghost i: nat, ghost end: nat, ghost es: seq<Entry>)
    returns (size: u32, r: Region)
    requires es != [] && entry == 4 * i && i <= end <= |mem| && mem[i..end] == Encode(es)
    ensures i + 6 + |es[0].extra| <= end
    ensures mem[i + 6 + |es[0].extra|..end] == Encode(es[1..])
    ensures size == 20 + 4 * |es[0].extra| && r == Truncate(es[0])
    ensures size == mem[i] && r == Region(mem[i + 1], mem[i + 3], mem[i + 5])
  {
    WalkStep(mem, i, end, es);
    var e := entry / 4;
    assert e == i;
    size, r := mem[e], Region(mem[e + 1], mem[e + 3], mem[e + 5]);
  }

  lemma NextEntry(entry: u32, size: u32, i: nat, extra: nat, end: nat)
    requires entry == 4 * i && size == 20 + 4 * extra && i + 6 + extra <= end && 4 * end < 0x1_0000_0000
    ensures Add32(Add32(entry, size), 4) == 4 * (i + 6 + extra)
  {
  }

  lemma MapEnds(addr: u32, length: u32)
    requires addr % 4 == 0 && length % 4 == 0 && addr + length < 0x1_0000_0000
    ensures Add32(addr, length) == 4 * ((addr + length) / 4) && addr == 4 * (addr / 4)
    ensures Add32(addr, length) / 4 == (addr + length) / 4
  {
  }

  class MemoryInfo {
    const regions: array<Region>
    var regionCount: nat
    var totalKb: u32
    var usableKb: u32
    var highest: u32

    ghost predicate Valid()
      reads this, regions
    {
      regions.Length == MAX_REGIONS && regionCount <= MAX_REGIONS
    }

    ghost function View(): Tally
      requires Valid()
      reads this, regions
    {
      Tally(regions[..regionCount], highest, totalKb, usableKb)
    }

    constructor ()
      ensures Valid() && fresh(regions) && View() == NOTHING
    {
      regions := new Region[MAX_REGIONS](_ => Region(0, 0, 0));
      regionCount, totalKb, usableKb, highest := 0, 0, 0, 0;
    }

    method Record(r: Region)
      requires Valid()
      modifies this, regions
      ensures Valid() && View() == Count(old(View()), r)
    {
      if regionCount < MAX_REGIONS {
        regions[regionCount] := r;
        regionCount := regionCount + 1;
      }
      totalKb := Add32(totalKb, r.len / 1024);
      if r.kind == USABLE {
        usableKb := Add32(usableKb, r.len / 1024);
        if Add32(r.base, r.len) > highest {
          highest := Add32(r.base, r.len);
        }
      }
    }

    /** `memory_init`: `mem` is physical memory as words, `mmapAddr` and
        `mmapLength` are the two fields of the boot information, and `es` is the
        map that lies there. Without flag bit 6 there is no map to read. */
    method Init(mem: seq<u32>, hasMap: bool, mmapAddr: u32, mmapLength: u32, ghost es: seq<Entry>)
      returns (ok: bool)
      requires Valid() && View() == NOTHING
      requires hasMap ==> mmapAddr % 4 == 0 && mmapLength % 4 == 0 && mmapAddr + mmapLength < 0x1_0000_0000
      requires hasMap ==> (mmapAddr + mmapLength) / 4 <= |mem|
      requires hasMap ==> mem[mmapAddr / 4..(mmapAddr + mmapLength) / 4] == Encode(es)
      modifies this, regions
      ensures Valid() && ok == hasMap
      ensures View() == if ok then CountAll(NOTHING, es) else NOTHING
      ensures ok ==> totalKb == Wrap(AllKb(es)) && usableKb == Wrap(UsableKb(es))
    {
      if !hasMap {
        return false;
      }
      hide AllKb, UsableKb, Count, Encode, Wrap, Truncate, EncodeEntry, Add32;
      MapEnds(mmapAddr, mmapLength);
      var entry := mmapAddr;
      var mapEnd := Add32(mmapAddr, mmapLength);
      ghost var rest, i, end := es, mmapAddr / 4, mapEnd / 4;
      while entry < mapEnd
        invariant Valid() && CountAll(View(), rest) == CountAll(NOTHING, es)
        invariant entry == 4 * i && i <= end <= |mem| && mapEnd == 4 * end && mem[i..end] == Encode(rest)
        decreases end - i
      {
        var size, r := ReadEntry(mem, entry, i, end, rest);
        Record(r);
        NextEntry(entry, size, i, |rest[0].extra|, end);
        entry := Add32(Add32(entry, size), 4);
        i, rest := i + 6 + |rest[0].extra|, rest[1..];
      }
      TotalsAreSums(NOTHING, es);
      return true;
    }
  }
}
