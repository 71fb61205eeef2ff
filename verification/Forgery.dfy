/** Headers that are not there: when the words before a pointer look like the header
    of an allocated block without being one, and what `kfree` then does to the list. */
module Forgery {
  import opened Words
  import opened Blocks
  import opened HeapWords
  import opened HeapSteps

  // ---- what `kfree` does with a forged header ----

  /** The word at which the header of the last block is. */
  function LastAt(bs: seq<Block>): nat {
    if |bs| <= 1 then 0 else 4 + bs[0].len + LastAt(bs[1..])
  }

  /** A header at word `i` would have its flag where the last block has its link. */
  predicate CutsEnd(bs: seq<Block>, i: nat) { i + 1 == LastAt(bs) }

  lemma {:induction false} LastBelow(bs: seq<Block>)
    requires bs != []
    ensures LastAt(bs) + 4 <= Extent(bs)
  {
    if |bs| > 1 {
      LastBelow(bs[1..]);
    }
  }

  lemma LiveTail(bs: seq<Block>, at: nat, i: nat)
    requires bs != [] && i !in Live(bs, at)
    ensures i !in Live(bs[1..], at + 4 + bs[0].len) && (i == at ==> bs[0].free)
  {
  }

  /** The flag of a forged header is no word of a real one, but for the last link. */
  lemma {:induction false} FlagLinked(h: seq<u32>, at: nat, bs: seq<Block>, i: nat)
    requires Linked(h, at, bs, 0) && LooksLive(h, i) && i !in Live(bs, at)
    requires forall k | 0 <= k < |bs| :: bs[k].len > 0
    requires bs != [] ==> i + 1 != at + LastAt(bs)
    ensures Linked(h[i + 3 := 1], at, bs, 0)
    decreases |bs|
  {
    if bs != [] {
      LiveTail(bs, at, i);
      FlagLinked(h, at + 4 + bs[0].len, bs[1..], i);
      assert bs[0].len > 0;
    }
  }

  /** The list survives the flag that `kfree` sets for a forged header, ... */
  lemma ForgedFlag(h: seq<u32>, bs: seq<Block>, i: nat)
    requires ListOk(h, bs) && LooksLive(h, i) && i !in Live(bs, 0) && !CutsEnd(bs, i)
    ensures ListOk(h[i + 3 := 1], bs)
  {
    FlagLinked(h, 0, bs, i);
  }

  lemma {:induction false} NoOtherList(h: seq<u32>, at: nat, bs: seq<Block>, cs: seq<Block>)
    requires Linked(h, at, bs, 0) && bs != [] && at + LastAt(bs) + 2 < |h|
    requires cs != [] && Linked(h[at + LastAt(bs) + 2 := 1], at, cs, 0)
    ensures false
    decreases |bs|
  {
    var h' := h[at + LastAt(bs) + 2 := 1];
    if |bs| > 1 {
      assert h'[at + 1] == h[at + 1] && h'[at + 2] == h[at + 2];
      assert cs[0].len == bs[0].len && |cs| > 1;
      NoOtherList(h, at + 4 + bs[0].len, bs[1..], cs[1..]);
    }
  }

  /** `h` holds no list at all. */
  ghost predicate NoList(h: seq<u32>) {
    forall cs :: !ListOk(h, cs)
  }

  /** ... unless that flag is the link of the last block: then no list is left. */
  lemma ForgedCut(h: seq<u32>, bs: seq<Block>, i: nat)
    requires ListOk(h, bs) && LooksLive(h, i) && CutsEnd(bs, i)
    ensures NoList(h[i + 3 := 1])
  {
    var h' := h[i + 3 := 1];
    forall cs ensures !ListOk(h', cs) {
      if ListOk(h', cs) {
        NoOtherList(h, 0, bs, cs);
      }
    }
  }

  /** A header that would cut the list is not one of the list. */
  lemma {:induction false} CutIsForged(bs: seq<Block>, at: nat, i: nat)
    requires bs != [] && i + 1 == at + LastAt(bs)
    ensures i !in Live(bs, at)
  {
    if |bs| > 1 {
      CutIsForged(bs[1..], at + 4 + bs[0].len, i);
    } else {
      LiveRange(bs, at);
    }
  }

  // ---- coalescing a list that may be cut ----

  /** A coalesced list whose last link has been overwritten by 1. */
  ghost predicate CutOff(h: seq<u32>, bs: seq<Block>) {
    && bs != [] && Coalesced(bs) && LastAt(bs) + 2 < |h| && h[LastAt(bs) + 2] == 1
    && ListOk(h[LastAt(bs) + 2 := 0], bs)
  }

  lemma CutMade(h: seq<u32>, bs: seq<Block>, i: nat)
    requires ListOk(h, bs) && Coalesced(bs) && LooksLive(h, i) && CutsEnd(bs, i)
    ensures CutOff(h[i + 3 := 1], bs)
  {
    var h' := h[i + 3 := 1];
    assert h'[LastAt(bs) + 2 := 0] == h;
  }

  /** The walk of `coalesce`, over a sound list or over one whose end is cut off. On
      a list that is coalesced already it changes nothing. */
  ghost predicate Walk(cut: bool, h0: seq<u32>, bs0: seq<Block>, h: seq<u32>, pre: seq<Block>, rest: seq<Block>, i: nat) {
    && (if cut then CutOff(h0, bs0) && Standing(h0[LastAt(bs0) + 2 := 0], pre, rest, i)
        else Coalescing(h0, bs0, h, pre, rest, i))
    && (Coalesced(bs0) ==> h == h0 && pre + rest == bs0)
    && (!cut ==> MergedWords(h, rest, i) == MergedWords(h0, bs0, 0))
  }

  lemma WalkStart(cut: bool, h: seq<u32>, bs: seq<Block>)
    requires if cut then CutOff(h, bs) else ListOk(h, bs)
    ensures Walk(cut, h, bs, h, [], bs, 0)
  {
    assert [] + bs == bs;
    if !cut {
      CoalesceStart(h, bs);
    }
  }

  lemma {:induction false} LastAppend(pre: seq<Block>, rest: seq<Block>)
    requires rest != []
    ensures LastAt(pre + rest) == Extent(pre) + LastAt(rest)
  {
    if pre == [] {
      assert pre + rest == rest;
    } else {
      LastAppend(pre[1..], rest);
      assert (pre + rest)[1..] == pre[1..] + rest;
    }
  }

  /** What the walk reads, and that it meets no two free neighbours when there are
      none. */
  lemma WalkReads(cut: bool, h0: seq<u32>, bs0: seq<Block>, h: seq<u32>, pre: seq<Block>, rest: seq<Block>, i: nat,
          j: nat)
    requires Walk(cut, h0, bs0, h, pre, rest, i) && rest != [] && j == i + 4 + rest[0].len
    ensures i + 4 <= |h| && j <= |h| && h[i + 1] == 4 * rest[0].len && (h[i + 3] != 0 <==> rest[0].free)
    ensures h[i + 2] == if |rest| > 1 then Addr(j) else if cut then 1 else 0
    ensures |rest| > 1 ==> j + 4 + rest[1].len <= |h| && h[j + 1] == 4 * rest[1].len && (h[j + 3] != 0 <==> rest[1].free)
    ensures |rest| > 1 && Coalesced(bs0) ==> !(rest[0].free && rest[1].free)
  {
    hide Respects, SameAllocs;
    LastAppend(pre, rest);
    if |rest| > 1 {
      assert LastAt(rest) == 4 + rest[0].len + LastAt(rest[1..]);
      assert (pre + rest)[|pre|] == rest[0] && (pre + rest)[|pre| + 1] == rest[1];
    }
    var g := if cut then h0[LastAt(bs0) + 2 := 0] else h;
    Stand(g, pre, rest, i, j);
    hide ListOk, Linked, Coalescing, LastAt;
  }

  lemma WalkAdvance(cut: bool, h0: seq<u32>, bs0: seq<Block>, h: seq<u32>, pre: seq<Block>, rest: seq<Block>, i: nat,
          j: nat)
    requires Walk(cut, h0, bs0, h, pre, rest, i) && |rest| > 1 && j == i + 4 + rest[0].len
    requires !(rest[0].free && rest[1].free)
    ensures Walk(cut, h0, bs0, h, pre + [rest[0]], rest[1..], j)
  {
    hide ListOk, Coalesced, LastAt;
    assert pre + rest == (pre + [rest[0]]) + rest[1..];
    ExtentAppend(pre, [rest[0]]);
    Single(rest[0], 0);
    if !cut {
      CoalesceAdvance(h0, bs0, h, pre, rest, i, j);
    }
    hide Coalescing;
  }

  lemma WalkSwallow(cut: bool, h0: seq<u32>, bs0: seq<Block>, h: seq<u32>, pre: seq<Block>, rest: seq<Block>, i: nat,
          j: nat)
    requires Walk(cut, h0, bs0, h, pre, rest, i) && |rest| > 1 && j == i + 4 + rest[0].len
    requires rest[0].free && rest[1].free
    ensures !cut && !Coalesced(bs0)
    ensures Walk(cut, h0, bs0, Swallow(h, i, j, rest[0].len + 4 + rest[1].len), pre, [Join(rest[0], rest[1])] + rest[2..], i)
  {
    hide Standing, Coalescing, Swallow, MergedWords, CutOff, Coalesced, Join;
    NotCut(cut, h0, bs0, h, pre, rest, i, j);
    MergedSwallow(h, rest, i, j);
    CoalesceSwallow(h0, bs0, h, pre, rest, i, j, rest[0].len + 4 + rest[1].len);
  }

  lemma NotCut(cut: bool, h0: seq<u32>, bs0: seq<Block>, h: seq<u32>, pre: seq<Block>, rest: seq<Block>, i: nat, j: nat)
    requires Walk(cut, h0, bs0, h, pre, rest, i) && |rest| > 1 && j == i + 4 + rest[0].len
    requires rest[0].free && rest[1].free
    ensures !cut && !Coalesced(bs0)
  {
    hide Standing, Coalescing, MergedWords, Coalesced;
    WalkReads(cut, h0, bs0, h, pre, rest, i, j);
  }

  lemma MergedSwallow(h: seq<u32>, rest: seq<Block>, i: nat, j: nat)
    requires |rest| > 1 && j == i + 4 + rest[0].len && rest[0].free && rest[1].free
    ensures MergedWords(h, rest, i) ==
            MergedWords(Swallow(h, i, j, rest[0].len + 4 + rest[1].len), [Join(rest[0], rest[1])] + rest[2..], i)
  {
    hide Swallow, Join;
  }

  /** Where the walk ends: with what `Merge` makes of the list, or with the list as
      it was. */
  lemma WalkEnds(cut: bool, h0: seq<u32>, bs0: seq<Block>, h: seq<u32>, pre: seq<Block>, rest: seq<Block>, i: nat)
    requires Walk(cut, h0, bs0, h, pre, rest, i) && |rest| == 1
    ensures !cut ==> ListOk(h, Merge(bs0)) && Coalesced(Merge(bs0)) && SameAllocs(bs0, Merge(bs0)) && Respects(h0, h, bs0)
    ensures cut || Coalesced(bs0) ==> h == h0 && Merge(bs0) == bs0
    ensures !cut ==> h == MergedWords(h0, bs0, 0)
  {
    if Coalesced(bs0) {
      MergeIdle(bs0);
    }
    if !cut {
      CoalesceDone(h0, bs0, h, pre, rest, i);
    }
    hide Coalescing, Standing;
  }

  /** The word behind an accepted header set to 1: a live block is free, the list is
      as it was, or it is cut. */
  lemma Marked(h: seq<u32>, bs: seq<Block>, i: nat)
    requires ListOk(h, bs) && Coalesced(bs) && LooksLive(h, i)
    ensures i + 4 <= |h| && h[i + 3 := 1] == WithFlag(h, i, true)
    ensures i in Live(bs, 0) ==> !CutsEnd(bs, i) && ListOk(h[i + 3 := 1], SetFree(bs, 0, i))
    ensures i !in Live(bs, 0) && !CutsEnd(bs, i) ==> ListOk(h[i + 3 := 1], bs)
    ensures CutsEnd(bs, i) ==> CutOff(h[i + 3 := 1], bs) && NoList(h[i + 3 := 1])
  {
    hide ListOk, CutOff, NoList, LooksLive;
    assert i + 4 <= |h| by { Room(h, i); }
    ListNonEmpty(h, bs);
    if i in Live(bs, 0) {
      Released(h, bs, i);
    } else if !CutsEnd(bs, i) {
      ForgedFlag(h, bs, i);
    }
    if CutsEnd(bs, i) {
      CutIsForged(bs, 0, i);
      CutMade(h, bs, i);
      ForgedCut(h, bs, i);
    }
  }

  lemma Room(h: seq<u32>, i: nat)
    requires LooksLive(h, i)
    ensures i + 4 <= |h|
  {
  }

  // ---- how clients come by forged headers ----

  /** `kfree` takes for live exactly what is. */
  ghost predicate Exact(h: seq<u32>, bs: seq<Block>) {
    forall i: nat :: LooksLive(h, i) <==> i in Live(bs, 0)
  }

  /** While the magic word is found only where a header is or was, and no zero follows
      it but for live blocks, acceptance is exact. */
  lemma GenuineIsExact(h: seq<u32>, bs: seq<Block>)
    requires ListOk(h, bs) && Genuine(h, Live(bs, 0))
    ensures Exact(h, bs)
  {
    hide Genuine, Linked, LooksLive;
    forall i: nat ensures LooksLive(h, i) <==> i in Live(bs, 0) {
      AcceptsExactlyLive(h, bs, i);
    }
  }

  /** A client's store keeps headers genuine if and only if it spares them. */
  lemma PayloadStore(h: seq<u32>, bs: seq<Block>, k: nat, v: u32)
    requires ListOk(h, bs) && InPayload(bs, 0, k) && Genuine(h, Live(bs, 0))
    ensures k < |h| && (Genuine(h[k := v], Live(bs, 0)) <==> Spares(h, k, v))
  {
    hide ListOk, Live, Spares;
    PayloadWritten(h, bs, k, v);
    PayloadNotLive(bs, 0, k);
    if k >= 3 && k - 3 in Live(bs, 0) {
      HeaderHasNoPayload(bs, 0, k - 3, k);
    }
    StoreGenuine(h, Live(bs, 0), k, v);
  }

  lemma {:induction false} HeaderHasNoPayload(bs: seq<Block>, at: nat, i: nat, j: nat)
    requires i in Live(bs, at) && i <= j < i + 4
    ensures !InPayload(bs, at, j)
  {
    var next := at + 4 + bs[0].len;
    LiveRange(bs[1..], next);
    if InPayload(bs[1..], next, j) {
      PayloadRange(bs[1..], next, j);
    }
    if i in Live(bs[1..], next) {
      HeaderHasNoPayload(bs[1..], next, i, j);
    }
  }

  /** One store of a client into its payload keeps `kfree` exact if and only if it
      neither puts the magic word three words before a zero, nor a zero three words
      behind a magic word. The second needs no magic word from the client: a
      swallowed header leaves one. */
  lemma StoreExact(h: seq<u32>, bs: seq<Block>, k: nat, v: u32)
    requires ListOk(h, bs) && InPayload(bs, 0, k) && Exact(h, bs)
    ensures k < |h|
    ensures Exact(h[k := v], bs) <==>
              !(v == BLOCK_MAGIC && k + 4 <= |h| && h[k + 3] == 0) && !(v == 0 && k >= 3 && h[k - 3] == BLOCK_MAGIC)
  {
    hide ListOk, InPayload, Live;
    PayloadWritten(h, bs, k, v);
    PayloadNotLive(bs, 0, k);
    if k >= 3 && k - 3 in Live(bs, 0) {
      HeaderHasNoPayload(bs, 0, k - 3, k);
    }
    var h' := h[k := v];
    if v == BLOCK_MAGIC && k + 4 <= |h| && h[k + 3] == 0 {
      assert LooksLive(h', k);
    } else if v == 0 && k >= 3 && h[k - 3] == BLOCK_MAGIC {
      assert LooksLive(h', k - 3);
    } else {
      forall i: nat ensures LooksLive(h', i) <==> i in Live(bs, 0) {
        assert LooksLive(h, i) <==> i in Live(bs, 0);
      }
    }
  }

  /** One word suffices, too: the magic word at the end of the block before the last
      makes the last block's link its flag, and `kfree` then cuts the list. */
  lemma OneWordForgery(h: seq<u32>, bs: seq<Block>, j: nat)
    requires ListOk(h, bs) && InPayload(bs, 0, j) && CutsEnd(bs, j)
    ensures j + 3 < |h|
    ensures var h' := h[j := BLOCK_MAGIC];
      && ListOk(h', bs) && LooksLive(h', j) && j !in Live(bs, 0)
      && NoList(h'[j + 3 := 1])
  {
    LastBelow(bs);
    LastLink(h, 0, bs);
    PayloadWritten(h, bs, j, BLOCK_MAGIC);
    PayloadNotLive(bs, 0, j);
    ForgedCut(h[j := BLOCK_MAGIC], bs, j);
  }

  lemma {:induction false} LastLink(h: seq<u32>, at: nat, bs: seq<Block>)
    requires Linked(h, at, bs, 0) && bs != []
    ensures at + LastAt(bs) + 4 <= |h| && h[at + LastAt(bs) + 2] == 0
    decreases |bs|
  {
    if |bs| > 1 {
      LastLink(h, at + 4 + bs[0].len, bs[1..]);
    }
  }
}
