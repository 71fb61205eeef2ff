/** The heap's block list as a value: what first fit, splitting, coalescing and
    growth do to it, without the memory it lives in. Sizes count 4-byte words;
    a header is 4 words. */
module Blocks {

  datatype Block = Block(len: nat, free: bool)

  /** The words that the blocks take, headers included. */
  function Extent(bs: seq<Block>): nat {
    if bs == [] then 0 else 4 + bs[0].len + Extent(bs[1..])
  }

  /** Every payload is a positive multiple of 8 bytes. */
  ghost predicate Shaped(bs: seq<Block>) {
    forall k | 0 <= k < |bs| :: bs[k].len >= 2 && bs[k].len % 2 == 0
  }

  /** No two neighbours are both free. */
  ghost predicate Coalesced(bs: seq<Block>) {
    forall k | 0 <= k < |bs| - 1 :: !(bs[k].free && bs[k + 1].free)
  }

  /** The header positions of the allocated blocks, when the first is at `at`. */
  ghost function Live(bs: seq<Block>, at: nat): set<nat> {
    if bs == [] then {}
    else (if bs[0].free then {} else {at}) + Live(bs[1..], at + 4 + bs[0].len)
  }

  /** `coalesce`: every run of free neighbours becomes one block. */
  function Merge(bs: seq<Block>): seq<Block>
    decreases |bs|
  {
    if |bs| < 2 then bs
    else if bs[0].free && bs[1].free then Merge([Join(bs[0], bs[1])] + bs[2..])
    else [bs[0]] + Merge(bs[1..])
  }

  function Join(b: Block, c: Block): Block { Block(b.len + 4 + c.len, true) }

  predicate Fits(b: Block, n: nat) { b.free && b.len >= n }

  predicate HasFit(bs: seq<Block>, n: nat) {
    bs != [] && (Fits(bs[0], n) || HasFit(bs[1..], n))
  }

  /** The block that first fit chooses, split when 16 bytes would remain. */
  function Carve(b: Block, n: nat): seq<Block> {
    if b.len >= n + 4 + 4 then [Block(n, false), Block(b.len - n - 4, true)] else [Block(b.len, false)]
  }

  function Alloc(bs: seq<Block>, n: nat): seq<Block> {
    if bs == [] then [] else if Fits(bs[0], n) then Carve(bs[0], n) + bs[1..] else [bs[0]] + Alloc(bs[1..], n)
  }

  /** Where the chosen block's header is. */
  function AllocAt(bs: seq<Block>, at: nat, n: nat): nat {
    if bs == [] || Fits(bs[0], n) then at else AllocAt(bs[1..], at + 4 + bs[0].len, n)
  }

  /** The block at position `i` marked free. */
  function SetFree(bs: seq<Block>, at: nat, i: nat): seq<Block> {
    if bs == [] then []
    else if at == i then [Block(bs[0].len, true)] + bs[1..]
    else [bs[0]] + SetFree(bs[1..], at + 4 + bs[0].len, i)
  }

  /** `kfree` of the block at `i`. */
  function Free(bs: seq<Block>, i: nat): seq<Block> { Merge(SetFree(bs, 0, i)) }

  /** `extend_heap` with `w` more words. */
  function Extend(bs: seq<Block>, w: nat): seq<Block>
    requires w >= 4
  {
    Merge(bs + [Block(w - 4, true)])
  }

  // ---- extent ----

  lemma {:induction false} ExtentAppend(a: seq<Block>, b: seq<Block>)
    ensures Extent(a + b) == Extent(a) + Extent(b)
  {
    if a == [] {
      assert a + b == b;
    } else {
      ExtentAppend(a[1..], b);
      assert (a + b)[1..] == a[1..] + b;
    }
  }

  lemma {:induction false} LiveAppend(a: seq<Block>, b: seq<Block>, at: nat)
    ensures Live(a + b, at) == Live(a, at) + Live(b, at + Extent(a))
  {
    if a == [] {
      assert a + b == b;
    } else {
      LiveAppend(a[1..], b, at + 4 + a[0].len);
      assert (a + b)[1..] == a[1..] + b;
    }
  }

  lemma {:induction false} LiveRange(bs: seq<Block>, at: nat)
    ensures forall i | i in Live(bs, at) :: at <= i && i + 4 <= at + Extent(bs)
  {
    if bs != [] {
      LiveRange(bs[1..], at + 4 + bs[0].len);
    }
  }

  // ---- coalescing ----

  /** Coalescing keeps the extent, the allocated blocks and the shape. */
  lemma {:induction false} MergeKeeps(bs: seq<Block>, at: nat)
    ensures Extent(Merge(bs)) == Extent(bs)
    ensures Live(Merge(bs), at) == Live(bs, at)
    ensures bs != [] ==> Merge(bs) != []
    decreases |bs|
  {
    if |bs| >= 2 {
      if bs[0].free && bs[1].free {
        var cs := [Join(bs[0], bs[1])] + bs[2..];
        assert cs[1..] == bs[2..] == bs[1..][1..];
        MergeKeeps(cs, at);
      } else {
        MergeKeeps(bs[1..], at + 4 + bs[0].len);
      }
    }
  }

  lemma {:induction false} MergeShaped(bs: seq<Block>)
    requires Shaped(bs)
    ensures Shaped(Merge(bs))
    decreases |bs|
  {
    if |bs| >= 2 {
      if bs[0].free && bs[1].free {
        MergeShaped([Join(bs[0], bs[1])] + bs[2..]);
      } else {
        MergeShaped(bs[1..]);
      }
    }
  }

  /** After coalescing no two neighbours are free; the first block stays first. */
  lemma {:induction false} MergeCoalesces(bs: seq<Block>)
    ensures Coalesced(Merge(bs))
    ensures bs != [] ==> Merge(bs) != [] && Merge(bs)[0].free == bs[0].free
    decreases |bs|
  {
    if |bs| >= 2 {
      if bs[0].free && bs[1].free {
        MergeCoalesces([Join(bs[0], bs[1])] + bs[2..]);
      } else {
        MergeCoalesces(bs[1..]);
      }
    }
  }

  lemma TailCoalesced(bs: seq<Block>)
    requires Coalesced(bs) && bs != []
    ensures Coalesced(bs[1..])
    ensures |bs| >= 2 ==> !(bs[0].free && bs[1].free)
  {
    forall k | 0 <= k < |bs[1..]| - 1 ensures !(bs[1..][k].free && bs[1..][k + 1].free) {
      assert !(bs[k + 1].free && bs[k + 2].free);
    }
  }

  lemma {:induction false} MergeIdle(bs: seq<Block>)
    requires Coalesced(bs)
    ensures Merge(bs) == bs
  {
    if |bs| >= 2 {
      assert !(bs[0].free && bs[1].free);
      TailCoalesced(bs);
      MergeIdle(bs[1..]);
    }
  }

  // ---- first fit ----

  /** The block whose header is at position `i`, when there is one. */
  ghost predicate IsBlock(bs: seq<Block>, at: nat, i: nat, b: Block) {
    bs != [] && ((at == i && bs[0] == b) || IsBlock(bs[1..], at + 4 + bs[0].len, i, b))
  }

  /** First fit takes the block with the lowest address of those that fit. */
  lemma {:induction false} AllocIsLowestFit(bs: seq<Block>, at: nat, n: nat)
    ensures HasFit(bs, n) ==> exists b: Block :: b.free && b.len >= n && IsBlock(bs, at, AllocAt(bs, at, n), b)
    ensures forall b, i: nat :: IsBlock(bs, at, i, b) && b.free && b.len >= n ==>
                                  HasFit(bs, n) && AllocAt(bs, at, n) <= i
  {
    if bs != [] {
      AllocIsLowestFit(bs[1..], at + 4 + bs[0].len, n);
      BlockRange(bs, at);
      if Fits(bs[0], n) {
        assert IsBlock(bs, at, at, bs[0]);
      } else if HasFit(bs, n) {
        var next := at + 4 + bs[0].len;
        var b: Block :| b.free && b.len >= n && IsBlock(bs[1..], next, AllocAt(bs[1..], next, n), b);
        assert IsBlock(bs, at, AllocAt(bs, at, n), b);
      }
    }
  }

  lemma {:induction false} BlockShape(bs: seq<Block>, at: nat, i: nat, b: Block)
    requires Shaped(bs) && IsBlock(bs, at, i, b)
    ensures b.len >= 2 && b.len % 2 == 0
  {
    if bs[0] != b {
      BlockShape(bs[1..], at + 4 + bs[0].len, i, b);
    }
  }

  lemma {:induction false} BlockRange(bs: seq<Block>, at: nat)
    ensures forall b, i: nat :: IsBlock(bs, at, i, b) ==> at <= i && i + 4 + b.len <= at + Extent(bs)
  {
    if bs != [] {
      BlockRange(bs[1..], at + 4 + bs[0].len);
    }
  }

  /** The tiling has no overlaps: two blocks are the same or apart. */
  lemma {:induction false} BlocksApart(bs: seq<Block>, at: nat, i: nat, b: Block, j: nat, c: Block)
    requires IsBlock(bs, at, i, b) && IsBlock(bs, at, j, c)
    ensures (i == j && b == c) || i + 4 + b.len <= j || j + 4 + c.len <= i
  {
    BlockRange(bs[1..], at + 4 + bs[0].len);
    if IsBlock(bs[1..], at + 4 + bs[0].len, i, b) && IsBlock(bs[1..], at + 4 + bs[0].len, j, c) {
      BlocksApart(bs[1..], at + 4 + bs[0].len, i, b, j, c);
    }
  }

  lemma {:induction false} LiveIsBlock(bs: seq<Block>, at: nat, i: nat)
    ensures i in Live(bs, at) <==> exists b :: IsBlock(bs, at, i, b) && !b.free
  {
    if bs != [] {
      LiveIsBlock(bs[1..], at + 4 + bs[0].len, i);
      if i in Live(bs, at) {
        if at == i && !bs[0].free {
          assert IsBlock(bs, at, i, bs[0]);
        } else {
          var b :| IsBlock(bs[1..], at + 4 + bs[0].len, i, b) && !b.free;
          assert IsBlock(bs, at, i, b);
        }
      }
    }
  }

  lemma CarveKeeps(b: Block, n: nat, at: nat)
    requires Fits(b, n)
    ensures Extent(Carve(b, n)) == 4 + b.len
    ensures Live(Carve(b, n), at) == {at}
    ensures !Carve(b, n)[0].free && Carve(b, n)[0].len >= n
  {
    if b.len >= n + 4 + 4 {
      var x, y := Block(n, false), Block(b.len - n - 4, true);
      assert Carve(b, n) == [x] + [y];
      ExtentAppend([x], [y]);
      LiveAppend([x], [y], at);
      Single(x, at);
      Single(y, at + 4 + n);
    } else {
      Single(Block(b.len, false), at);
    }
  }

  lemma Single(b: Block, at: nat)
    ensures Extent([b]) == 4 + b.len
    ensures Live([b], at) == if b.free then {} else {at}
  {
    assert [b][1..] == [];
  }

  /** Allocation adds one live block and moves none. */
  lemma {:induction false} AllocKeeps(bs: seq<Block>, at: nat, n: nat)
    requires HasFit(bs, n)
    ensures Extent(Alloc(bs, n)) == Extent(bs)
    ensures Live(Alloc(bs, n), at) == Live(bs, at) + {AllocAt(bs, at, n)}
    ensures AllocAt(bs, at, n) !in Live(bs, at)
  {
    AllocFresh(bs, at, n);
    if Fits(bs[0], n) {
      CarveKeeps(bs[0], n, at);
      ExtentAppend(Carve(bs[0], n), bs[1..]);
      LiveAppend(Carve(bs[0], n), bs[1..], at);
    } else {
      AllocKeeps(bs[1..], at + 4 + bs[0].len, n);
      assert Alloc(bs, n)[1..] == Alloc(bs[1..], n);
    }
  }

  lemma {:induction false} AllocFresh(bs: seq<Block>, at: nat, n: nat)
    requires HasFit(bs, n)
    ensures AllocAt(bs, at, n) !in Live(bs, at)
  {
    var next := at + 4 + bs[0].len;
    if Fits(bs[0], n) {
      LiveRange(bs[1..], next);
    } else {
      AllocFresh(bs[1..], next, n);
      AllocBounds(bs[1..], next, n);
    }
  }

  lemma {:induction false} AllocBounds(bs: seq<Block>, at: nat, n: nat)
    ensures at <= AllocAt(bs, at, n)
  {
    if bs != [] && !Fits(bs[0], n) {
      AllocBounds(bs[1..], at + 4 + bs[0].len, n);
    }
  }

  /** The block handed out is allocated and at least as large as asked for. */
  lemma {:induction false} AllocSize(bs: seq<Block>, at: nat, n: nat)
    requires HasFit(bs, n)
    ensures exists b :: IsBlock(Alloc(bs, n), at, AllocAt(bs, at, n), b) && !b.free && b.len >= n
  {
    if Fits(bs[0], n) {
      assert IsBlock(Alloc(bs, n), at, at, Carve(bs[0], n)[0]);
    } else {
      var next := at + 4 + bs[0].len;
      AllocSize(bs[1..], next, n);
      var b :| IsBlock(Alloc(bs[1..], n), next, AllocAt(bs[1..], next, n), b) && !b.free && b.len >= n;
      assert Alloc(bs, n)[1..] == Alloc(bs[1..], n);
      assert IsBlock(Alloc(bs, n), at, AllocAt(bs, at, n), b);
    }
  }

  /** It is split exactly when a header and 16 bytes would remain, and then it is as
      large as asked for and a free block of the rest follows; otherwise it is handed
      out whole. */
  lemma {:induction false} AllocSplits(bs: seq<Block>, at: nat, n: nat) returns (b: Block)
    requires HasFit(bs, n)
    ensures IsBlock(bs, at, AllocAt(bs, at, n), b) && b.free && b.len >= n
    ensures if b.len >= n + 8 then
              && IsBlock(Alloc(bs, n), at, AllocAt(bs, at, n), Block(n, false))
              && IsBlock(Alloc(bs, n), at, AllocAt(bs, at, n) + 4 + n, Block(b.len - n - 4, true))
            else IsBlock(Alloc(bs, n), at, AllocAt(bs, at, n), Block(b.len, false))
  {
    if Fits(bs[0], n) {
      b := bs[0];
      assert IsBlock(Alloc(bs, n), at, at, Carve(b, n)[0]);
      if b.len >= n + 8 {
        assert Alloc(bs, n)[1..] == [Block(b.len - n - 4, true)] + bs[1..];
        assert IsBlock(Alloc(bs, n)[1..], at + 4 + n, at + 4 + n, Block(b.len - n - 4, true));
      }
    } else {
      b := AllocSplits(bs[1..], at + 4 + bs[0].len, n);
      assert Alloc(bs, n)[1..] == Alloc(bs[1..], n);
    }
  }

  lemma {:induction false} AllocShaped(bs: seq<Block>, n: nat)
    requires Shaped(bs) && n >= 2 && n % 2 == 0
    ensures Shaped(Alloc(bs, n))
  {
    if bs != [] {
      AllocShaped(bs[1..], n);
    }
  }

  lemma {:induction false} AllocCoalesced(bs: seq<Block>, n: nat)
    requires Coalesced(bs)
    ensures Coalesced(Alloc(bs, n))
    ensures bs != [] ==> Alloc(bs, n) != [] && (!bs[0].free ==> !Alloc(bs, n)[0].free)
  {
    if bs != [] {
      TailCoalesced(bs);
      AllocCoalesced(bs[1..], n);
    }
  }

  // ---- freeing ----

  lemma {:induction false} SetFreeKeeps(bs: seq<Block>, at: nat, i: nat)
    ensures Extent(SetFree(bs, at, i)) == Extent(bs)
    ensures Live(SetFree(bs, at, i), at) == Live(bs, at) - {i}
    ensures |SetFree(bs, at, i)| == |bs|
    ensures Shaped(bs) ==> Shaped(SetFree(bs, at, i))
  {
    if bs != [] {
      var next := at + 4 + bs[0].len;
      LiveRange(bs[1..], next);
      if at != i {
        SetFreeKeeps(bs[1..], next, i);
      }
    }
  }

  /** `kfree` takes one block out of the live ones and leaves a coalesced tiling. */
  lemma FreeKeeps(bs: seq<Block>, i: nat)
    requires bs != []
    ensures Extent(Free(bs, i)) == Extent(bs)
    ensures Live(Free(bs, i), 0) == Live(bs, 0) - {i}
    ensures Shaped(bs) ==> Shaped(Free(bs, i))
    ensures Coalesced(Free(bs, i)) && Free(bs, i) != []
  {
    SetFreeKeeps(bs, 0, i);
    MergeKeeps(SetFree(bs, 0, i), 0);
    MergeCoalesces(SetFree(bs, 0, i));
    if Shaped(bs) {
      MergeShaped(SetFree(bs, 0, i));
    }
  }

  /** Releasing the first block, split for the allocation, joins it again. */
  lemma RejoinHead(bs: seq<Block>, at: nat, n: nat)
    requires Coalesced(bs) && bs != [] && Fits(bs[0], n) && bs[0].len >= n + 8
    ensures Merge(SetFree(Alloc(bs, n), at, at)) == bs
  {
    var rs := SetFree(Alloc(bs, n), at, at);
    assert rs == [Block(n, true), Block(bs[0].len - n - 4, true)] + bs[1..];
    assert [Join(rs[0], rs[1])] + rs[2..] == bs;
    MergeIdle(bs);
  }

  /** Releasing it unsplit just frees it. */
  lemma RefreeHead(bs: seq<Block>, at: nat, n: nat)
    requires Coalesced(bs) && bs != [] && Fits(bs[0], n) && bs[0].len < n + 8
    ensures Merge(SetFree(Alloc(bs, n), at, at)) == bs
  {
    assert SetFree(Alloc(bs, n), at, at) == bs;
    MergeIdle(bs);
  }

  lemma FitsHead(bs: seq<Block>, at: nat, n: nat)
    requires bs != [] && HasFit(bs, n)
    ensures Fits(bs[0], n) ==> AllocAt(bs, at, n) == at
    ensures !Fits(bs[0], n) ==> HasFit(bs[1..], n) && AllocAt(bs, at, n) == AllocAt(bs[1..], at + 4 + bs[0].len, n)
    ensures !Fits(bs[0], n) ==> Alloc(bs, n) == [bs[0]] + Alloc(bs[1..], n)
  {
  }

  /** Releasing a later block leaves the first one. */
  lemma SetFreeBehind(b: Block, rest: seq<Block>, at: nat, i: nat)
    requires i != at
    ensures SetFree([b] + rest, at, i) == [b] + SetFree(rest, at + 4 + b.len, i)
  {
    assert ([b] + rest)[1..] == rest;
  }

  /** `kfree(kmalloc(n))` without growth restores the block list. */
  lemma {:induction false} RoundTrip(bs: seq<Block>, at: nat, n: nat)
    requires Coalesced(bs) && HasFit(bs, n)
    ensures Merge(SetFree(Alloc(bs, n), at, AllocAt(bs, at, n))) == bs
  {
    assert bs != [];
    var next := at + 4 + bs[0].len;
    hide Alloc, SetFree, Merge, AllocAt;
    FitsHead(bs, at, n);
    if !Fits(bs[0], n) {
      TailCoalesced(bs);
      AllocBounds(bs[1..], next, n);
      RoundTrip(bs[1..], next, n);
      SetFreeBehind(bs[0], Alloc(bs[1..], n), at, AllocAt(bs, at, n));
      if bs[0].free {
        SetFreeHead(bs[1..], next, n);
      }
      MergeHead(bs[0], SetFree(Alloc(bs[1..], n), next, AllocAt(bs[1..], next, n)));
    } else if bs[0].len >= n + 8 {
      RejoinHead(bs, at, n);
    } else {
      RefreeHead(bs, at, n);
    }
  }

  /** Allocating and releasing behind an allocated block leaves that block. */
  lemma SetFreeHead(bs: seq<Block>, at: nat, n: nat)
    requires HasFit(bs, n) && !bs[0].free
    ensures var rs := SetFree(Alloc(bs, n), at, AllocAt(bs, at, n)); rs != [] && !rs[0].free
  {
    AllocBounds(bs[1..], at + 4 + bs[0].len, n);
  }

  lemma MergeHead(b: Block, rest: seq<Block>)
    requires rest != [] && !(b.free && rest[0].free)
    ensures Merge([b] + rest) == [b] + Merge(rest)
  {
    assert ([b] + rest)[1..] == rest;
  }

  lemma NeighboursFree(bs: seq<Block>, at: nat)
    requires |bs| >= 2 && Live(bs, at) == {}
    ensures bs[0].free && bs[1].free
  {
    assert Live(bs[1..], at + 4 + bs[0].len) == {};
  }

  /** With nothing allocated a coalesced heap is one block that spans it all. */
  lemma NothingLive(bs: seq<Block>, at: nat)
    requires bs != [] && Coalesced(bs) && Live(bs, at) == {}
    ensures bs == [Block(Extent(bs) - 4, true)]
  {
    if |bs| >= 2 {
      NeighboursFree(bs, at);
      assert false;
    }
    assert bs[1..] == [];
  }

  function FreeAll(bs: seq<Block>, order: seq<nat>): seq<Block>
    decreases |order|
  {
    if order == [] then bs else FreeAll(Free(bs, order[0]), order[1..])
  }

  /** Freeing every live allocation, in any order, leaves one free block. */
  lemma {:induction false} FullRecovery(bs: seq<Block>, order: seq<nat>)
    requires bs != [] && Coalesced(bs)
    requires forall i | i in Live(bs, 0) :: i in order
    ensures FreeAll(bs, order) == [Block(Extent(bs) - 4, true)]
    decreases |order|
  {
    if order == [] {
      assert Live(bs, 0) == {};
      NothingLive(bs, 0);
    } else {
      FreeKeeps(bs, order[0]);
      forall i | i in Live(Free(bs, order[0]), 0) ensures i in order[1..] {
        assert i in order && i != order[0];
      }
      FullRecovery(Free(bs, order[0]), order[1..]);
    }
  }

  // ---- growth ----

  lemma {:induction false} MergeFits(bs: seq<Block>, n: nat)
    requires HasFit(bs, n)
    ensures HasFit(Merge(bs), n)
    decreases |bs|
  {
    if |bs| >= 2 {
      if bs[0].free && bs[1].free {
        var cs := [Join(bs[0], bs[1])] + bs[2..];
        assert cs[1..] == bs[1..][1..];
        MergeFits(cs, n);
      } else if Fits(bs[0], n) {
      } else {
        MergeFits(bs[1..], n);
        assert ([bs[0]] + Merge(bs[1..]))[1..] == Merge(bs[1..]);
      }
    }
  }

  lemma {:induction false} AppendedFit(bs: seq<Block>, b: Block, n: nat)
    requires Fits(b, n)
    ensures HasFit(bs + [b], n)
  {
    if bs != [] {
      AppendedFit(bs[1..], b, n);
      assert (bs + [b])[1..] == bs[1..] + [b];
    }
  }

  /** Growth keeps what is live and makes room: the second search finds a block. */
  lemma ExtendKeeps(bs: seq<Block>, w: nat, n: nat)
    requires bs != [] && w >= 4
    ensures Extent(Extend(bs, w)) == Extent(bs) + w
    ensures Live(Extend(bs, w), 0) == Live(bs, 0)
    ensures Coalesced(Extend(bs, w)) && Extend(bs, w) != []
    ensures Shaped(bs) && w % 2 == 0 && w >= 6 ==> Shaped(Extend(bs, w))
    ensures w >= n + 4 ==> HasFit(Extend(bs, w), n)
  {
    var added := Block(w - 4, true);
    ExtentAppend(bs, [added]);
    LiveAppend(bs, [added], 0);
    MergeKeeps(bs + [added], 0);
    MergeCoalesces(bs + [added]);
    Single(added, Extent(bs));
    if Shaped(bs) && w % 2 == 0 && w >= 6 {
      MergeShaped(bs + [added]);
    }
    if w >= n + 4 {
      AppendedFit(bs, added, n);
      MergeFits(bs + [added], n);
    }
  }

  // ---- payloads ----

  /** Word `j` belongs to the payload of an allocated block. */
  ghost predicate InPayload(bs: seq<Block>, at: nat, j: nat) {
    bs != [] && ((!bs[0].free && at + 4 <= j < at + 4 + bs[0].len) || InPayload(bs[1..], at + 4 + bs[0].len, j))
  }

  lemma {:induction false} PayloadRange(bs: seq<Block>, at: nat, j: nat)
    requires InPayload(bs, at, j)
    ensures at + 4 <= j < at + Extent(bs)
  {
    if InPayload(bs[1..], at + 4 + bs[0].len, j) {
      PayloadRange(bs[1..], at + 4 + bs[0].len, j);
    }
  }

  lemma {:induction false} PayloadAppend(a: seq<Block>, b: seq<Block>, at: nat, k: nat, j: nat)
    requires k == at + Extent(a)
    ensures InPayload(a + b, at, j) <==> InPayload(a, at, j) || InPayload(b, k, j)
  {
    if a == [] {
      assert a + b == b;
    } else {
      PayloadAppend(a[1..], b, at + 4 + a[0].len, k, j);
      assert (a + b)[1..] == a[1..] + b;
    }
  }

  /** Headers and free blocks hold no payload word. */
  lemma NotPayload(a: seq<Block>, b: Block, d: seq<Block>, i: nat, k: nat, j: nat)
    requires i == Extent(a) && k == i + 4 + b.len
    requires i <= j < i + 4 || (b.free && i <= j < k)
    ensures !InPayload(a + ([b] + d), 0, j)
  {
    PayloadAppend(a, [b] + d, 0, i, j);
    assert ([b] + d)[1..] == d;
    if InPayload(a, 0, j) {
      PayloadRange(a, 0, j);
    }
    if InPayload(d, k, j) {
      PayloadRange(d, k, j);
    }
  }

  lemma {:induction false} MergePayload(bs: seq<Block>, at: nat, j: nat)
    ensures InPayload(Merge(bs), at, j) <==> InPayload(bs, at, j)
    decreases |bs|
  {
    if |bs| >= 2 {
      if bs[0].free && bs[1].free {
        var cs := [Join(bs[0], bs[1])] + bs[2..];
        assert cs[1..] == bs[2..] == bs[1..][1..];
        MergePayload(cs, at, j);
      } else {
        MergePayload(bs[1..], at + 4 + bs[0].len, j);
      }
    }
  }

  /** Allocation leaves the payloads of others alone and hands out new words. */
  lemma {:induction false} AllocPayload(bs: seq<Block>, at: nat, n: nat, j: nat)
    requires HasFit(bs, n)
    ensures InPayload(bs, at, j) ==> InPayload(Alloc(bs, n), at, j)
    ensures AllocAt(bs, at, n) + 4 <= j < AllocAt(bs, at, n) + 4 + n ==>
              InPayload(Alloc(bs, n), at, j) && !InPayload(bs, at, j)
  {
    var next := at + 4 + bs[0].len;
    AllocBounds(bs[1..], next, n);
    if InPayload(bs[1..], next, j) {
      PayloadRange(bs[1..], next, j);
    }
    if Fits(bs[0], n) {
      var cs := Carve(bs[0], n);
      PayloadAppend(cs, bs[1..], at, next, j) by {
        CarveKeeps(bs[0], n, at);
      }
    } else {
      AllocPayload(bs[1..], next, n, j);
      assert Alloc(bs, n)[1..] == Alloc(bs[1..], n);
    }
  }

  /** Freeing only takes payload words away, those of the block freed. */
  lemma {:induction false} SetFreePayload(bs: seq<Block>, at: nat, i: nat, j: nat)
    ensures InPayload(SetFree(bs, at, i), at, j) ==> InPayload(bs, at, j)
    ensures forall b | IsBlock(bs, at, i, b) && InPayload(bs, at, j) ::
              InPayload(SetFree(bs, at, i), at, j) || i + 4 <= j < i + 4 + b.len
  {
    if bs != [] {
      var next := at + 4 + bs[0].len;
      BlockRange(bs[1..], next);
      if at != i {
        SetFreePayload(bs[1..], next, i, j);
      }
    }
  }

  // ---- statistics ----

  /** `heap_used`: all headers, and the payloads that are handed out. */
  function UsedBytes(bs: seq<Block>): nat {
    if bs == [] then 0 else 16 + (if bs[0].free then 0 else 4 * bs[0].len) + UsedBytes(bs[1..])
  }

  /** The payloads of the free blocks. */
  function FreeBytes(bs: seq<Block>): nat {
    if bs == [] then 0 else (if bs[0].free then 4 * bs[0].len else 0) + FreeBytes(bs[1..])
  }

  /** The payload words of the live blocks. */
  ghost function PayloadWords(bs: seq<Block>, at: nat): set<nat> {
    set j: nat | at <= j < at + Extent(bs) && InPayload(bs, at, j)
  }

  /** Used are a header for each block and the payloads of the live ones. */
  lemma {:induction false} UsedIsHeadersAndPayloads(bs: seq<Block>, at: nat)
    ensures UsedBytes(bs) == 16 * |bs| + 4 * |PayloadWords(bs, at)|
  {
    if bs == [] {
      assert PayloadWords(bs, at) == {};
    } else {
      var next := at + 4 + bs[0].len;
      UsedIsHeadersAndPayloads(bs[1..], next);
      PayloadWordsStep(bs, at, next);
    }
  }

  lemma PayloadWordsStep(bs: seq<Block>, at: nat, next: nat)
    requires bs != [] && next == at + 4 + bs[0].len
    ensures |PayloadWords(bs, at)| == (if bs[0].free then 0 else bs[0].len) + |PayloadWords(bs[1..], next)|
  {
    var own, rest := if bs[0].free then {} else Interval(at + 4, bs[0].len), PayloadWords(bs[1..], next);
    forall j: nat | InPayload(bs[1..], next, j) ensures next + 4 <= j < next + Extent(bs[1..]) {
      PayloadRange(bs[1..], next, j);
    }
    assert own !! rest;
    forall j: nat ensures j in PayloadWords(bs, at) <==> j in own + rest {
      assert InPayload(bs, at, j) <==> j in own || InPayload(bs[1..], next, j);
    }
    assert PayloadWords(bs, at) == own + rest;
  }

  ghost function Interval(lo: nat, n: nat): (s: set<nat>)
    ensures |s| == n && forall j: nat :: j in s <==> lo <= j < lo + n
  {
    if n == 0 then {} else Interval(lo, n - 1) + {lo + n - 1}
  }

  /** Nothing is lost: what is not used is the sum of the free payloads. */
  lemma {:induction false} BytesAddUp(bs: seq<Block>)
    ensures UsedBytes(bs) + FreeBytes(bs) == 4 * Extent(bs)
  {
    if bs != [] {
      BytesAddUp(bs[1..]);
    }
  }
}
