/** The steps of the heap's list walks, each as one lemma about the words and the
    block list before and after it. */
module HeapSteps {
  import opened Words
  import opened Blocks
  import opened HeapWords

  /** The words `h` hold exactly the list `bs`, from end to end. */
  ghost predicate ListOk(h: seq<u32>, bs: seq<Block>) {
    bs != [] && Shaped(bs) && Extent(bs) == |h| <= 0x10_0000 && Linked(h, 0, bs, 0)
  }

  /** A walk over the list stands at word `i`, before `rest`. */
  ghost predicate Standing(h: seq<u32>, pre: seq<Block>, rest: seq<Block>, i: nat) {
    ListOk(h, pre + rest) && rest != [] && i == Extent(pre)
  }

  lemma {:induction false} EvenExtent(bs: seq<Block>)
    requires Shaped(bs)
    ensures Extent(bs) % 2 == 0
  {
    if bs != [] {
      assert bs[0].len % 2 == 0;
      EvenExtent(bs[1..]);
    }
  }

  /** What the walk reads there. */
  lemma Stand(h: seq<u32>, pre: seq<Block>, rest: seq<Block>, i: nat, k: nat)
    requires Standing(h, pre, rest, i) && k == i + 4 + rest[0].len
    ensures Header(h, i, rest[0], First(rest[1..], k, 0))
    ensures k <= |h| && i % 2 == 0 && rest[0].len % 2 == 0 && rest[0].len >= 2
    ensures |rest| >= 2 ==> k + 4 + rest[1].len <= |h| && Header(h, k, rest[1], First(rest[2..], k + 4 + rest[1].len, 0))
    ensures |rest| >= 2 ==> rest[1].len % 2 == 0 && rest[1].len >= 2
  {
    ExtentAppend(pre, rest);
    assert rest == [rest[0]] + rest[1..];
    HeaderAt(h, pre, rest[0], rest[1..], i, k);
    assert forall m | 0 <= m < |pre| :: (pre + rest)[m] == pre[m];
    EvenExtent(pre);
    assert (pre + rest)[|pre|] == rest[0];
    if |rest| >= 2 {
      assert (pre + rest)[|pre| + 1] == rest[1];
      assert rest[1..][1..] == rest[2..];
    }
  }

  /** The same blocks are allocated, with the same payload words. */
  ghost predicate SameAllocs(bs: seq<Block>, cs: seq<Block>) {
    Live(bs, 0) == Live(cs, 0) && forall j: nat :: InPayload(bs, 0, j) <==> InPayload(cs, 0, j)
  }

  /** Nothing that the list `bs` promises about `h` is lost in `h'`. */
  ghost predicate Respects(h: seq<u32>, h': seq<u32>, bs: seq<Block>) {
    && |h| == |h'| && SamePayload(h, h', bs)
    && (Genuine(h, Live(bs, 0)) ==> Genuine(h', Live(bs, 0)))
  }

  lemma RespectsTrans(h: seq<u32>, h': seq<u32>, h'': seq<u32>, bs: seq<Block>, cs: seq<Block>)
    requires Respects(h, h', bs) && Respects(h', h'', cs) && SameAllocs(bs, cs)
    ensures Respects(h, h'', bs)
  {
  }

  // ---- coalesce ----

  /** The words that coalescing leaves when the list `bs` starts at word `at`. */
  ghost function MergedWords(h: seq<u32>, bs: seq<Block>, at: nat): (h': seq<u32>)
    ensures |h'| == |h|
    decreases |bs|
  {
    if |bs| < 2 then h
    else
      var next := at + 4 + bs[0].len;
      if bs[0].free && bs[1].free then
        MergedWords(Swallow(h, at, next, bs[0].len + 4 + bs[1].len), [Join(bs[0], bs[1])] + bs[2..], at)
      else MergedWords(h, bs[1..], next)
  }

  /** The words after `kfree` of the live block at `i`. */
  ghost function FreedWords(h: seq<u32>, bs: seq<Block>, i: nat): (h': seq<u32>)
    ensures |h'| == |h|
  {
    MergedWords(WithFlag(h, i, true), SetFree(bs, 0, i), 0)
  }

  /** The words after `n` words of the free block at `i` were handed out, split when
      that is worth it. */
  ghost function HandedWords(h: seq<u32>, i: nat, n: nat): (h': seq<u32>)
    ensures |h'| == |h|
  {
    if i + 4 > |h| then h
    else WithFlag(if h[i + 1] / 4 >= n + 8 then Split(h, i, h[i + 1] / 4, n, i + 4 + n) else h, i, false)
  }

  /** `coalesce`, begun on the list `bs0` in `h0`, stands at word `i`. */
  ghost predicate Coalescing(h0: seq<u32>, bs0: seq<Block>, h: seq<u32>, pre: seq<Block>, rest: seq<Block>, i: nat) {
    && Standing(h, pre, rest, i)
    && Merge(bs0) == pre + Merge(rest)
    && SameAllocs(bs0, pre + rest)
    && Respects(h0, h, bs0)
  }

  lemma CoalesceStart(h: seq<u32>, bs: seq<Block>)
    requires ListOk(h, bs)
    ensures Coalescing(h, bs, h, [], bs, 0)
  {
    assert [] + bs == bs && [] + Merge(bs) == Merge(bs);
  }

  /** On to the next block, when the two are not both free. */
  lemma CoalesceAdvance(h0: seq<u32>, bs0: seq<Block>, h: seq<u32>, pre: seq<Block>, rest: seq<Block>, i: nat, k: nat)
    requires Coalescing(h0, bs0, h, pre, rest, i) && |rest| >= 2 && k == i + 4 + rest[0].len
    requires !(rest[0].free && rest[1].free)
    ensures Coalescing(h0, bs0, h, pre + [rest[0]], rest[1..], k)
  {
    hide SameAllocs, Respects, ListOk;
    assert pre + rest == (pre + [rest[0]]) + rest[1..];
    assert pre + ([rest[0]] + Merge(rest[1..])) == (pre + [rest[0]]) + Merge(rest[1..]);
    ExtentAppend(pre, [rest[0]]);
    Single(rest[0], 0);
  }

  lemma JoinAllocs(pre: seq<Block>, x: Block, y: Block, d: seq<Block>)
    requires x.free && y.free
    ensures SameAllocs(pre + ([x, y] + d), pre + ([Join(x, y)] + d))
    ensures Extent(pre + ([x, y] + d)) == Extent(pre + ([Join(x, y)] + d))
  {
    var a, b := [x, y] + d, [Join(x, y)] + d;
    assert a[1..] == [y] + d && a[1..][1..] == d && b[1..] == d;
    var e := Extent(pre);
    ExtentAppend(pre, a);
    ExtentAppend(pre, b);
    LiveAppend(pre, a, 0);
    LiveAppend(pre, b, 0);
    forall j: nat ensures InPayload(pre + a, 0, j) <==> InPayload(pre + b, 0, j) {
      PayloadAppend(pre, a, 0, e, j);
      PayloadAppend(pre, b, 0, e, j);
    }
  }

  lemma JoinShaped(pre: seq<Block>, x: Block, y: Block, d: seq<Block>)
    requires Shaped(pre + ([x, y] + d))
    ensures Shaped(pre + ([Join(x, y)] + d))
  {
    var a, b := pre + ([x, y] + d), pre + ([Join(x, y)] + d);
    assert a[|pre|] == x && a[|pre| + 1] == y;
    forall m | 0 <= m < |b| ensures b[m].len >= 2 && b[m].len % 2 == 0 {
      if m < |pre| {
        assert b[m] == a[m];
      } else if m > |pre| {
        assert b[m] == a[m + 1];
      }
    }
  }

  /** The next block swallowed. */
  lemma CoalesceSwallow(h0: seq<u32>, bs0: seq<Block>, h: seq<u32>, pre: seq<Block>, rest: seq<Block>, i: nat, j: nat,
          len: nat)
    requires Coalescing(h0, bs0, h, pre, rest, i) && |rest| >= 2 && j == i + 4 + rest[0].len
    requires rest[0].free && rest[1].free && len == rest[0].len + 4 + rest[1].len
    ensures Coalescing(h0, bs0, Swallow(h, i, j, len), pre, [Join(rest[0], rest[1])] + rest[2..], i)
  {
    hide Swallow, Genuine, Linked, Shaped, SamePayload, Header, SameAllocs, Extent;
    var x, y, d := rest[0], rest[1], rest[2..];
    var h' := Swallow(h, i, j, len);
    assert rest == [x, y] + d == [x] + ([y] + d);
    Stand(h, pre, rest, i, j);
    JoinAllocs(pre, x, y, d);
    JoinShaped(pre, x, y, d);
    SwallowWritten(h, pre, x, y, d, i, j);
    SwallowPayload(h, pre, x, [y] + d, i, j, len);
    var next := First(d, j + 4 + y.len, 0);
    if Genuine(h, Live(bs0, 0)) {
      SwallowGenuine(h, Live(bs0, 0), i, j, y, next, len);
    }
    SameLive(bs0, pre + rest);
    RespectsTrans(h0, h, h', bs0, pre + rest);
    AllocsTrans(bs0, pre + rest, pre + ([Join(x, y)] + d));
  }

  lemma SameLive(bs: seq<Block>, cs: seq<Block>)
    requires SameAllocs(bs, cs)
    ensures Live(bs, 0) == Live(cs, 0)
  {
  }

  lemma AllocsTrans(bs: seq<Block>, cs: seq<Block>, ds: seq<Block>)
    requires SameAllocs(bs, cs) && SameAllocs(cs, ds)
    ensures SameAllocs(bs, ds)
  {
  }

  /** At the last block the list is what `Merge` makes of it. */
  lemma CoalesceDone(h0: seq<u32>, bs0: seq<Block>, h: seq<u32>, pre: seq<Block>, rest: seq<Block>, i: nat)
    requires Coalescing(h0, bs0, h, pre, rest, i) && |rest| < 2
    ensures ListOk(h, Merge(bs0)) && SameAllocs(bs0, Merge(bs0)) && Respects(h0, h, bs0)
    ensures Coalesced(Merge(bs0))
  {
    MergeCoalesces(bs0);
  }

  // ---- first fit ----

  /** The search for `n` words has passed `pre`, in which nothing fits. */
  ghost predicate Searching(bs: seq<Block>, pre: seq<Block>, rest: seq<Block>, i: nat, n: nat) {
    && bs == pre + rest && i == Extent(pre)
    && Alloc(bs, n) == pre + Alloc(rest, n)
    && (HasFit(bs, n) <==> HasFit(rest, n))
    && AllocAt(bs, 0, n) == AllocAt(rest, i, n)
  }

  lemma SearchStart(bs: seq<Block>, n: nat)
    ensures Searching(bs, [], bs, 0, n)
  {
    assert [] + bs == bs && [] + Alloc(bs, n) == Alloc(bs, n);
  }

  lemma SearchAdvance(bs: seq<Block>, pre: seq<Block>, rest: seq<Block>, i: nat, k: nat, n: nat)
    requires Searching(bs, pre, rest, i, n) && rest != [] && k == i + 4 + rest[0].len
    requires !Fits(rest[0], n)
    ensures Searching(bs, pre + [rest[0]], rest[1..], k, n)
  {
    assert pre + rest == (pre + [rest[0]]) + rest[1..];
    assert pre + ([rest[0]] + Alloc(rest[1..], n)) == (pre + [rest[0]]) + Alloc(rest[1..], n);
    ExtentAppend(pre, [rest[0]]);
    Single(rest[0], 0);
  }

  /** What handing out a block promises: the list is what first fit makes of it,
      the payloads of others are untouched, the new header is genuine. */
  ghost predicate Handed(h: seq<u32>, h': seq<u32>, bs: seq<Block>, n: nat) {
    && ListOk(h', Alloc(bs, n)) && |h'| == |h|
    && SamePayload(h, h', bs)
    && (Genuine(h, Live(bs, 0)) ==> Genuine(h', Live(Alloc(bs, n), 0)))
  }

  /** The search ends at a block that is not worth splitting. */
  lemma FoundWhole(h: seq<u32>, bs: seq<Block>, pre: seq<Block>, rest: seq<Block>, i: nat, n: nat)
    requires ListOk(h, bs) && Searching(bs, pre, rest, i, n) && rest != []
    requires Fits(rest[0], n) && rest[0].len < n + 8 && n >= 2 && n % 2 == 0
    ensures HasFit(bs, n) && AllocAt(bs, 0, n) == i
    ensures Handed(h, WithFlag(h, i, false), bs, n)
  {
    hide Genuine, Linked, Shaped, SamePayload, Header, WithFlag;
    var b, d := rest[0], rest[1..];
    var c := Block(b.len, false);
    assert rest == [b] + d && Alloc(rest, n) == [c] + d;
    Stand(h, pre, rest, i, i + 4 + b.len);
    FlagWritten(h, pre, b, d, false, i);
    FlagPayload(h, pre, b, d, false, i);
    AllocKeeps(bs, 0, n);
    AllocShaped(bs, n);
    if Genuine(h, Live(bs, 0)) {
      FlagGenuine(h, Live(bs, 0), i, false);
    }
  }

  /** The search ends at a block that is split. */
  lemma FoundSplit(h: seq<u32>, bs: seq<Block>, pre: seq<Block>, rest: seq<Block>, i: nat, n: nat, r: nat)
    requires ListOk(h, bs) && Searching(bs, pre, rest, i, n) && rest != [] && r == i + 4 + n
    requires Fits(rest[0], n) && rest[0].len >= n + 8 && n >= 2 && n % 2 == 0
    ensures HasFit(bs, n) && AllocAt(bs, 0, n) == i
    ensures Handed(h, WithFlag(Split(h, i, rest[0].len, n, r), i, false), bs, n)
  {
    hide Genuine, Linked, Shaped, SamePayload, Header, WithFlag, Split;
    var b, d := rest[0], rest[1..];
    var y := Block(b.len - n - 4, true);
    assert rest == [b] + d;
    var k := i + 4 + b.len;
    Stand(h, pre, rest, i, k);
    var h1 := Split(h, i, b.len, n, r);
    SplitWritten(h, pre, b, d, n, i, r);
    SplitPayload(h, pre, b, d, n, i, r);
    assert [Block(n, true), y] + d == [Block(n, true)] + ([y] + d);
    FlagWritten(h1, pre, Block(n, true), [y] + d, false, i);
    assert [Block(n, false)] + ([y] + d) == Alloc(rest, n);
    SplitFlagPayload(h, h1, bs, pre, b, d, i);
    AllocKeeps(bs, 0, n);
    AllocShaped(bs, n);
    if Genuine(h, Live(bs, 0)) {
      SplitGenuine(h, Live(bs, 0), i, b, First(d, k, 0), n, r);
      FlagGenuine(h1, Live(bs, 0), i, false);
    }
  }

  lemma SplitFlagPayload(h: seq<u32>, h1: seq<u32>, bs: seq<Block>, pre: seq<Block>, b: Block, d: seq<Block>, i: nat)
    requires SamePayload(h, h1, bs) && bs == pre + ([b] + d) && i == Extent(pre)
    ensures SamePayload(h, WithFlag(h1, i, false), bs)
  {
    FlagPayload(h1, pre, b, d, false, i);
  }

  // ---- kfree ----

  /** The position of a live block splits the list there. */
  lemma {:induction false} Locate(bs: seq<Block>, at: nat, i: nat) returns (pre: seq<Block>, b: Block, d: seq<Block>)
    requires i in Live(bs, at)
    ensures bs == pre + ([b] + d) && i == at + Extent(pre) && !b.free
    ensures SetFree(bs, at, i) == pre + ([Block(b.len, true)] + d)
  {
    if at == i && !bs[0].free {
      pre, b, d := [], bs[0], bs[1..];
    } else {
      var next := at + 4 + bs[0].len;
      LiveRange(bs[1..], next);
      var p, c, e := Locate(bs[1..], next, i);
      pre, b, d := [bs[0]] + p, c, e;
      assert pre[1..] == p;
      assert bs == [bs[0]] + bs[1..];
      assert at != i;
    }
  }

  /** Marking a live block free: the list, the other payloads, the headers. */
  lemma Released(h: seq<u32>, bs: seq<Block>, i: nat)
    requires ListOk(h, bs) && i in Live(bs, 0)
    ensures i + 4 <= |h| && i % 2 == 0
    ensures ListOk(WithFlag(h, i, true), SetFree(bs, 0, i))
    ensures SamePayload(h, WithFlag(h, i, true), bs)
    ensures Genuine(h, Live(bs, 0)) ==> Genuine(WithFlag(h, i, true), Live(SetFree(bs, 0, i), 0))
  {
    hide Genuine, Linked, Shaped, SamePayload, Header, WithFlag;
    var pre, b, d := Locate(bs, 0, i);
    assert ([b] + d)[1..] == d;
    Stand(h, pre, [b] + d, i, i + 4 + b.len);
    FlagWritten(h, pre, b, d, true, i);
    FlagPayload(h, pre, b, d, true, i);
    SetFreeKeeps(bs, 0, i);
    if Genuine(h, Live(bs, 0)) {
      FlagGenuine(h, Live(bs, 0), i, true);
    }
  }

  // ---- extend_heap ----

  /** New words at the end of the heap `h0` become one more block at the tail. */
  lemma Extended(h0: seq<u32>, h: seq<u32>, pre: seq<Block>, b: Block, t: nat, at: nat, w: nat)
    requires h0 <= h && at == |h0| && ListOk(h0, pre + [b]) && t == Extent(pre)
    requires at + w == |h| <= 0x10_0000 && w >= 6 && w % 2 == 0
    ensures at == t + 4 + b.len
    ensures ListOk(Appended(h, t, at, w), pre + [b] + [Block(w - 4, true)])
    ensures SamePayload(h0, Appended(h, t, at, w), pre + [b])
    ensures Genuine(h0, Live(pre + [b], 0)) && NoneFrom(h, at, BLOCK_MAGIC) ==>
              Genuine(Appended(h, t, at, w), Live(pre + [b] + [Block(w - 4, true)], 0))
  {
    hide Genuine, Linked, Header, Appended, NoneFrom;
    var bs, c := pre + [b], Block(w - 4, true);
    ExtentAppend(pre, [b]);
    Single(b, t);
    LinkedSame(h0, h, 0, bs, 0);
    AppendWritten(h, pre, b, t, at, w);
    AppendPayload(h, pre, b, t, at, w);
    ExtentAppend(bs, [c]);
    LiveAppend(bs, [c], 0);
    Single(c, 0 + Extent(bs));
    assert Live(bs + [c], 0) == Live(bs, 0);
    EvenExtent(bs);
    ShapedPrefix(bs, pre);
    EvenExtent(pre);
    assert h[..at] == h0;
    if Genuine(h0, Live(bs, 0)) && NoneFrom(h, at, BLOCK_MAGIC) {
      AppendGenuine(h, Live(bs, 0), t, at, w);
    }
  }

  lemma ShapedPrefix(bs: seq<Block>, pre: seq<Block>)
    requires Shaped(bs) && pre <= bs
    ensures Shaped(pre)
  {
  }

  /** The tail walk: `pre` passed, `rest` ahead. */
  lemma TailAdvance(h: seq<u32>, pre: seq<Block>, rest: seq<Block>, i: nat, k: nat)
    requires Standing(h, pre, rest, i) && |rest| >= 2 && k == i + 4 + rest[0].len
    ensures Standing(h, pre + [rest[0]], rest[1..], k)
    ensures pre + rest == pre + [rest[0]] + rest[1..]
  {
    assert pre + rest == (pre + [rest[0]]) + rest[1..];
    ExtentAppend(pre, [rest[0]]);
    Single(rest[0], 0);
  }

  /** The stores of a new free block of `w` words at `at` without a successor. */
  ghost function FreshHeader(h: seq<u32>, at: nat, w: nat): (h': seq<u32>)
    ensures |h'| == |h|
  {
    if at + 4 <= |h| <= 0x10_0000 && 4 <= w <= 0x10_0000 then
      h[at := BLOCK_MAGIC][at + 1 := 4 * (w - 4)][at + 2 := 0][at + 3 := 1]
    else h
  }

  /** One block that spans all of `h`. */
  lemma FirstBlock(h: seq<u32>, w: nat)
    requires |h| == w && 6 <= w <= 0x10_0000 && w % 2 == 0
    ensures var h' := FreshHeader(h, 0, w); var bs := [Block(w - 4, true)];
      && ListOk(h', bs) && Coalesced(bs) && Live(bs, 0) == {}
      && (NoneFrom(h, 0, BLOCK_MAGIC) ==> Genuine(h', {}))
  {
    var b := Block(w - 4, true);
    OneLinked(FreshHeader(h, 0, w), 0, b, 0);
    Single(b, 0);
  }

  lemma AppendedIs(h: seq<u32>, t: nat, at: nat, w: nat)
    requires t + 4 <= at && at + w == |h| <= 0x10_0000 && w >= 4
    ensures Appended(h, t, at, w) == FreshHeader(h, at, w)[t + 2 := Addr(at)]
  {
  }

  lemma FreshPrefix(h0: seq<u32>, h: seq<u32>, w: nat)
    requires h0 <= h && |h0| + w == |h|
    ensures h0 <= FreshHeader(h, |h0|, w)
  {
  }

  lemma PrefixAt(h0: seq<u32>, h: seq<u32>, k: nat)
    requires h0 <= h && k < |h0|
    ensures h[k] == h0[k]
  {
  }

  /** Growth as `extend_heap` writes it, before the lists are coalesced: `h` is the
      grown heap, `h0` its old words. */
  lemma ExtendedWritten(h0: seq<u32>, h: seq<u32>, pre: seq<Block>, b: Block, t: nat, at: nat, w: nat)
    requires h0 <= h && at == |h0| && ListOk(h0, pre + [b]) && t == Extent(pre)
    requires at + w == |h| <= 0x10_0000 && w >= 6 && w % 2 == 0
    ensures t + 4 <= at
    ensures var bs := pre + [b]; var cs := bs + [Block(w - 4, true)]; var h' := FreshHeader(h, at, w)[t + 2 := Addr(at)];
      && ListOk(h', cs)
      && SamePayload(h0, h', bs)
      && (Genuine(h0, Live(bs, 0)) && NoneFrom(h, at, BLOCK_MAGIC) ==> Genuine(h', Live(cs, 0)))
  {
    hide ListOk, SamePayload, Genuine, NoneFrom, Appended, FreshHeader;
    Extended(h0, h, pre, b, t, at, w);
    AppendedIs(h, t, at, w);
  }

  /** What growth promises in all: the list, the payloads, the genuine headers. */
  ghost predicate Enlarged(h0: seq<u32>, h: seq<u32>, bs: seq<Block>, w: nat, clean: bool) {
    && w >= 4 && |h| == |h0| + w
    && ListOk(h, Extend(bs, w)) && Coalesced(Extend(bs, w))
    && SamePayload(h0, h, bs)
    && (Genuine(h0, Live(bs, 0)) && clean ==> Genuine(h, Live(Extend(bs, w), 0)))
  }

  lemma EnlargedWeaken(h0: seq<u32>, h: seq<u32>, bs: seq<Block>, w: nat, clean: bool, weaker: bool)
    requires Enlarged(h0, h, bs, w, clean) && (weaker ==> clean)
    ensures Enlarged(h0, h, bs, w, weaker)
  {
  }

  /** The words after the append, and after the coalescing that follows it. */
  lemma EnlargedBy(h0: seq<u32>, h1: seq<u32>, h2: seq<u32>, bs: seq<Block>, w: nat, clean: bool)
    requires bs != [] && w >= 4 && |h1| == |h0| + w
    requires SamePayload(h0, h1, bs)
    requires Genuine(h0, Live(bs, 0)) && clean ==> Genuine(h1, Live(bs + [Block(w - 4, true)], 0))
    requires Respects(h1, h2, bs + [Block(w - 4, true)])
    requires ListOk(h2, Extend(bs, w)) && Coalesced(Extend(bs, w))
    ensures Enlarged(h0, h2, bs, w, clean)
  {
    hide ListOk, Genuine, Coalesced;
    var cs := bs + [Block(w - 4, true)];
    ExtendKeeps(bs, w, 0);
    MergeKeeps(cs, 0);
    forall j: nat | j < |h0| && InPayload(bs, 0, j) ensures h2[j] == h0[j] {
      PayloadAppend(bs, [Block(w - 4, true)], 0, Extent(bs), j);
      assert h1[j] == h0[j];
    }
  }

  // ---- what kmalloc and kfree promise ----

  /** Block `i` with `n` payload words has been allocated: the list `cs` has it in
      addition to what `bs` had, its words were nobody's, the payloads of the
      others are as they were, and headers stay genuine. */
  ghost predicate Granted(h: seq<u32>, h': seq<u32>, bs: seq<Block>, cs: seq<Block>, n: nat, i: nat, clean: bool) {
    && ListOk(h', cs) && Coalesced(cs) && SamePayload(h, h', bs)
    && i % 2 == 0 && i !in Live(bs, 0) && Live(cs, 0) == Live(bs, 0) + {i}
    && (forall j: nat | InPayload(bs, 0, j) :: InPayload(cs, 0, j))
    && (forall j: nat | i + 4 <= j < i + 4 + n :: InPayload(cs, 0, j) && !InPayload(bs, 0, j))
    && (Genuine(h, Live(bs, 0)) && clean ==> Genuine(h', Live(cs, 0)))
  }

  lemma GrantedNow(h: seq<u32>, h': seq<u32>, bs: seq<Block>, n: nat, clean: bool)
    requires ListOk(h, bs) && Coalesced(bs) && HasFit(bs, n) && Handed(h, h', bs, n)
    ensures Granted(h, h', bs, Alloc(bs, n), n, AllocAt(bs, 0, n), clean)
  {
    hide Genuine, SamePayload;
    var i := AllocAt(bs, 0, n);
    AllocKeeps(bs, 0, n);
    AllocCoalesced(bs, n);
    LiveEven(Alloc(bs, n), 0, i);
    forall j: nat ensures InPayload(bs, 0, j) ==> InPayload(Alloc(bs, n), 0, j)
      ensures i + 4 <= j < i + 4 + n ==> InPayload(Alloc(bs, n), 0, j) && !InPayload(bs, 0, j)
    {
      AllocPayload(bs, 0, n, j);
    }
  }

  lemma {:induction false} LiveEven(bs: seq<Block>, at: nat, i: nat)
    requires Shaped(bs) && at % 2 == 0 && i in Live(bs, at)
    ensures i % 2 == 0
  {
    if at != i {
      assert bs[0].len % 2 == 0;
      LiveEven(bs[1..], at + 4 + bs[0].len, i);
    }
  }

  /** The same after growth, where the second search always finds a block. */
  lemma GrantedAfterGrowth(h0: seq<u32>, h: seq<u32>, h': seq<u32>, bs: seq<Block>, w: nat, n: nat, clean: bool)
    requires bs != [] && Enlarged(h0, h, bs, w, clean) && HasFit(Extend(bs, w), n)
    requires Handed(h, h', Extend(bs, w), n)
    ensures Granted(h0, h', bs, Alloc(Extend(bs, w), n), n, AllocAt(Extend(bs, w), 0, n), clean)
  {
    hide Genuine, ListOk, Coalesced;
    var es := Extend(bs, w);
    ExtendKeeps(bs, w, 0);
    GrantedNow(h, h', es, n, clean);
    forall j: nat ensures InPayload(bs, 0, j) <==> InPayload(es, 0, j) {
      ExtendPayload(bs, w, j);
    }
  }

  lemma ExtendPayload(bs: seq<Block>, w: nat, j: nat)
    requires w >= 4
    ensures InPayload(Extend(bs, w), 0, j) <==> InPayload(bs, 0, j)
  {
    var c := Block(w - 4, true);
    MergePayload(bs + [c], 0, j);
    PayloadAppend(bs, [c], 0, Extent(bs), j);
    assert [c][1..] == [];
  }

  /** Block `i` has been freed: the list is coalesced, the payloads of the others
      are as they were, and headers stay genuine. */
  ghost predicate Freed(h: seq<u32>, h': seq<u32>, bs: seq<Block>, i: nat) {
    && ListOk(h', Free(bs, i)) && Coalesced(Free(bs, i)) && |h'| == |h| && SamePayload(h, h', Free(bs, i))
    && Live(Free(bs, i), 0) == Live(bs, 0) - {i}
    && (forall j: nat | InPayload(Free(bs, i), 0, j) :: InPayload(bs, 0, j))
    && (Genuine(h, Live(bs, 0)) ==> Genuine(h', Live(Free(bs, i), 0)))
  }

  lemma FreedBy(h: seq<u32>, h': seq<u32>, bs: seq<Block>, i: nat)
    requires ListOk(h, bs) && i in Live(bs, 0)
    requires Respects(WithFlag(h, i, true), h', SetFree(bs, 0, i)) && ListOk(h', Free(bs, i))
    ensures Freed(h, h', bs, i)
  {
    hide Genuine, ListOk, WithFlag;
    Released(h, bs, i);
    ListNonEmpty(h, bs);
    FreeKeeps(bs, i);
    SetFreeKeeps(bs, 0, i);
    MergeKeeps(SetFree(bs, 0, i), 0);
    var h1 := WithFlag(h, i, true);
    forall j: nat | InPayload(Free(bs, i), 0, j)
      ensures InPayload(bs, 0, j) && InPayload(SetFree(bs, 0, i), 0, j)
    {
      MergePayload(SetFree(bs, 0, i), 0, j);
      SetFreePayload(bs, 0, i, j);
    }
  }

  lemma ListNonEmpty(h: seq<u32>, bs: seq<Block>)
    requires ListOk(h, bs)
    ensures bs != []
  {
  }

  // ---- the stores as sequences of updates, and the ends of the walks ----

  lemma SearchStanding(h: seq<u32>, bs: seq<Block>, pre: seq<Block>, rest: seq<Block>, i: nat, n: nat)
    requires ListOk(h, bs) && Searching(bs, pre, rest, i, n)
    ensures bs != [] && (rest != [] ==> Standing(h, pre, rest, i))
    ensures rest == [] ==> !HasFit(bs, n)
    ensures rest != [] && Fits(rest[0], n) ==> HasFit(bs, n)
  {
  }

  lemma Found(h: seq<u32>, bs: seq<Block>, pre: seq<Block>, rest: seq<Block>, i: nat, n: nat)
    requires ListOk(h, bs) && Coalesced(bs) && Searching(bs, pre, rest, i, n)
    requires rest != [] && Fits(rest[0], n) && n >= 2 && n % 2 == 0
    ensures HasFit(bs, n) && AllocAt(bs, 0, n) == i && i + 4 + rest[0].len <= |h| && Coalesced(Alloc(bs, n))
    ensures var len := rest[0].len;
      var h' := WithFlag(if len >= n + 8 then Split(h, i, len, n, i + 4 + n) else h, i, false);
      Handed(h, h', bs, n) && ListOk(h', Alloc(bs, n)) && h' == HandedWords(h, i, n)
  {
    hide Genuine, SamePayload, Split, WithFlag, Linked, Shaped, Alloc, HasFit, AllocAt;
    SearchStanding(h, bs, pre, rest, i, n);
    Stand(h, pre, rest, i, i + 4 + rest[0].len);
    assert h[i + 1] == 4 * rest[0].len;
    if rest[0].len >= n + 8 {
      FoundSplit(h, bs, pre, rest, i, n, i + 4 + n);
    } else {
      FoundWhole(h, bs, pre, rest, i, n);
    }
    AllocCoalesced(bs, n);
  }

  lemma StandingStart(h: seq<u32>, bs: seq<Block>)
    requires ListOk(h, bs)
    ensures bs != [] && Standing(h, [], bs, 0)
  {
    assert [] + bs == bs;
  }

  lemma LastBlock(h: seq<u32>, pre: seq<Block>, b: Block, t: nat)
    requires ListOk(h, pre + [b]) && t == Extent(pre)
    ensures t + 4 + b.len == |h|
  {
    ExtentAppend(pre, [b]);
    Single(b, 0);
  }

  lemma SwallowStores(h: seq<u32>, i: nat, j: nat, x: nat, y: nat)
    requires j == i + 4 + x && j + 4 + y <= |h| <= 0x10_0000
    ensures Swallow(h, i, j, x + 4 + y) == h[i + 1 := 4 * x + 16 + 4 * y][i + 2 := h[j + 2]]
  {
  }

  lemma SplitStores(h: seq<u32>, i: nat, len: nat, n: nat, r: nat)
    requires r == i + 4 + n && n + 4 <= len && i + 4 + len <= |h| <= 0x10_0000
    ensures Split(h, i, len, n, r) ==
            h[r := BLOCK_MAGIC][r + 1 := 4 * len - 4 * n - 16][r + 2 := h[i + 2]][r + 3 := 1][i + 1 := 4 * n][i + 2 := Addr(r)]
  {
  }

  lemma FlagStore(h: seq<u32>, i: nat)
    requires i + 4 <= |h|
    ensures WithFlag(h, i, false) == h[i + 3 := 0] && WithFlag(h, i, true) == h[i + 3 := 1]
  {
  }

  lemma {:induction false} LiveBelow(bs: seq<Block>, at: nat, i: nat, end: nat)
    requires i in Live(bs, at) && end == at + Extent(bs) && Shaped(bs)
    ensures i + 6 <= end
  {
    if at != i || bs[0].free {
      LiveBelow(bs[1..], at + 4 + bs[0].len, i, end);
    } else {
      assert bs[0].len >= 2;
    }
  }

  lemma PassOne(pre: seq<Block>, rest: seq<Block>, i: nat, k: nat)
    requires rest != [] && i == Extent(pre) && k == i + 4 + rest[0].len
    ensures pre + rest == pre + [rest[0]] + rest[1..] && k == Extent(pre + [rest[0]])
  {
    assert pre + rest == (pre + [rest[0]]) + rest[1..];
    ExtentAppend(pre, [rest[0]]);
    Single(rest[0], 0);
  }

  lemma ListExtent(h: seq<u32>, bs: seq<Block>)
    requires ListOk(h, bs)
    ensures Extent(bs) == |h|
  {
  }

  /** Payload words are no headers: a task can write them without hurting the list. */
  lemma {:induction false} LinkedPoke(h: seq<u32>, at: nat, bs: seq<Block>, end: nat, i: nat, v: u32)
    requires Linked(h, at, bs, end) && InPayload(bs, at, i) && i < |h|
    ensures Linked(h[i := v], at, bs, end)
    decreases |bs|
  {
    var next := at + 4 + bs[0].len;
    if InPayload(bs[1..], next, i) {
      PayloadRange(bs[1..], next, i);
      LinkedPoke(h, next, bs[1..], end, i, v);
    } else {
      LinkedSame(h, h[i := v], next, bs[1..], end);
    }
  }

  lemma PayloadWritten(h: seq<u32>, bs: seq<Block>, i: nat, v: u32)
    requires ListOk(h, bs) && InPayload(bs, 0, i)
    ensures i < |h| && ListOk(h[i := v], bs)
  {
    PayloadRange(bs, 0, i);
    LinkedPoke(h, 0, bs, 0, i, v);
  }

  lemma {:induction false} PayloadNotLive(bs: seq<Block>, at: nat, j: nat)
    requires InPayload(bs, at, j)
    ensures j !in Live(bs, at)
  {
    var next := at + 4 + bs[0].len;
    LiveRange(bs[1..], next);
    if InPayload(bs[1..], next, j) {
      PayloadRange(bs[1..], next, j);
      PayloadNotLive(bs[1..], next, j);
    }
  }

  /** The exception to exact acceptance: a client that writes the magic word and
      a zero flag into its payload makes a live header of it, in a list that is
      otherwise sound. */
  lemma ForgedHeader(h: seq<u32>, bs: seq<Block>, j: nat)
    requires ListOk(h, bs) && InPayload(bs, 0, j) && InPayload(bs, 0, j + 3)
    ensures j + 3 < |h|
    ensures var h' := h[j := BLOCK_MAGIC][j + 3 := 0];
      ListOk(h', bs) && LooksLive(h', j) && j !in Live(bs, 0)
  {
    hide ListOk;
    PayloadWritten(h, bs, j, BLOCK_MAGIC);
    PayloadWritten(h[j := BLOCK_MAGIC], bs, j + 3, 0);
    PayloadNotLive(bs, 0, j);
  }
}
