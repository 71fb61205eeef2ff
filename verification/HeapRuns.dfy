/** Whole runs of the heap, as its clients see them. */
module HeapRuns {
  import opened Blocks

  /** A client asks for `n` words, and if nothing fits the heap can grow by `grow`
      words, or not at all when `grow` is 0; or it gives back the block at `i`. */
  datatype Call = Ask(n: nat, grow: nat) | GiveBack(i: nat)

  /** What `align8` and `extend_heap` guarantee of the numbers. */
  predicate Sensible(c: Call) {
    c.Ask? ==> c.n >= 2 && c.n % 2 == 0 && (c.grow == 0 || (c.grow >= c.n + 4 && c.grow % 2 == 0))
  }

  /** `kmalloc` and `kfree` */
  ghost function Serve(bs: seq<Block>, c: Call): seq<Block> {
    match c
    case Ask(n, grow) =>
      if HasFit(bs, n) then Alloc(bs, n)
      else if grow >= 4 then Alloc(Extend(bs, grow), n)
      else bs
    case GiveBack(i) => if i in Live(bs, 0) then Free(bs, i) else bs
  }

  ghost function ServeAll(bs: seq<Block>, cs: seq<Call>): seq<Block>
    decreases |cs|
  {
    if cs == [] then bs else ServeAll(Serve(bs, cs[0]), cs[1..])
  }

  /** The client's own books: what it was given and has not given back. */
  ghost function Book(held: set<nat>, bs: seq<Block>, c: Call): set<nat> {
    match c
    case Ask(n, grow) =>
      if HasFit(bs, n) then held + {AllocAt(bs, 0, n)}
      else if grow >= 4 then held + {AllocAt(Extend(bs, grow), 0, n)}
      else held
    case GiveBack(i) => held - {i}
  }

  ghost function Books(held: set<nat>, bs: seq<Block>, cs: seq<Call>): set<nat>
    decreases |cs|
  {
    if cs == [] then held else Books(Book(held, bs, cs[0]), Serve(bs, cs[0]), cs[1..])
  }

  ghost predicate WellKept(bs: seq<Block>) { bs != [] && Shaped(bs) && Coalesced(bs) }

  lemma ServeKeeps(bs: seq<Block>, c: Call)
    requires WellKept(bs) && Sensible(c)
    ensures WellKept(Serve(bs, c)) && Extent(Serve(bs, c)) >= Extent(bs)
    ensures Live(Serve(bs, c), 0) == Book(Live(bs, 0), bs, c)
    ensures c.Ask? && Serve(bs, c) != bs ==> exists i :: i !in Live(bs, 0) && Live(Serve(bs, c), 0) == Live(bs, 0) + {i}
  {
    hide Shaped, Coalesced, Live, Alloc, AllocAt, Free, Extend;
    match c {
      case Ask(n, grow) =>
        var cs := if HasFit(bs, n) || grow < 4 then bs else Extend(bs, grow);
        if grow >= 4 {
          ExtendKeeps(bs, grow, n);
        }
        if HasFit(cs, n) {
          AllocKeeps(cs, 0, n);
          AllocShaped(cs, n);
          AllocCoalesced(cs, n);
        }
      case GiveBack(i) => FreeKeeps(bs, i);
    }
  }

  /** After any run of calls the list is sound, tiles at least as much memory as
      before, and its live blocks are those in the client's books. */
  lemma {:induction false} RunKeeps(bs: seq<Block>, cs: seq<Call>)
    requires WellKept(bs) && forall k | 0 <= k < |cs| :: Sensible(cs[k])
    ensures WellKept(ServeAll(bs, cs)) && Extent(ServeAll(bs, cs)) >= Extent(bs)
    ensures Live(ServeAll(bs, cs), 0) == Books(Live(bs, 0), bs, cs)
    decreases |cs|
  {
    if cs != [] {
      ServeKeeps(bs, cs[0]);
      RunKeeps(Serve(bs, cs[0]), cs[1..]);
    }
  }

  /** After any run, giving back what is in the books, in any order, leaves the
      heap as one free block. */
  lemma RunRecovers(bs: seq<Block>, cs: seq<Call>, order: seq<nat>)
    requires WellKept(bs) && forall k | 0 <= k < |cs| :: Sensible(cs[k])
    requires forall i | i in Books(Live(bs, 0), bs, cs) :: i in order
    ensures var end := FreeAll(ServeAll(bs, cs), order);
      |end| == 1 && end[0].free && 4 + end[0].len == Extent(ServeAll(bs, cs)) >= Extent(bs)
  {
    RunKeeps(bs, cs);
    FullRecovery(ServeAll(bs, cs), order);
  }
}
