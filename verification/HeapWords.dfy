/** The block list as it lies in the words of the heap: headers of four words,
    linked in address order. `h` is the heap as flat memory, word 0 being at
    0xC0000000. */
module HeapWords {
  import opened Words
  import opened Blocks

  const BLOCK_MAGIC: u32 := 0x4A41_5256

  // The heap window holds 4 MB, 0x10_0000 words.

  /** The virtual address of heap word `i`. */
  function Addr(i: nat): nat { 0xC000_0000 + 4 * i }

  function Flag(b: bool): u32 { if b then 1 else 0 }

  /** Header `i` of `h` describes `b` and points to `next`. */
  ghost predicate Header(h: seq<u32>, i: nat, b: Block, next: nat) {
    && i + 4 <= |h|
    && h[i] == BLOCK_MAGIC
    && h[i + 1] == 4 * b.len
    && h[i + 2] == next
    && h[i + 3] == Flag(b.free)
  }

  /** The blocks `bs` lie one after the other from word `i`, each pointing to the
      next and the last one to `end`. */
  ghost predicate Linked(h: seq<u32>, i: nat, bs: seq<Block>, end: nat)
    decreases |bs|
  {
    if bs == [] then true
    else
      && Header(h, i, bs[0], if |bs| == 1 then end else Addr(i + 4 + bs[0].len))
      && Linked(h, i + 4 + bs[0].len, bs[1..], end)
  }

  /** What the block before `bs` points to. */
  function First(bs: seq<Block>, i: nat, end: nat): nat { if bs == [] then end else Addr(i) }

  /** A list is linked as a whole when both of its parts are. */
  lemma {:induction false} LinkedAppend(h: seq<u32>, i: nat, a: seq<Block>, b: seq<Block>, end: nat, k: nat)
    requires k == i + Extent(a)
    decreases |a|
    ensures Linked(h, i, a + b, end) <==> Linked(h, i, a, First(b, k, end)) && Linked(h, k, b, end)
  {
    if a == [] {
      assert a + b == b;
    } else {
      LinkedAppend(h, i + 4 + a[0].len, a[1..], b, end, k);
      assert (a + b)[1..] == a[1..] + b;
      assert a[1..] == [] ==> Extent(a) == 4 + a[0].len;
    }
  }

  /** Only the words of a list matter to it. */
  lemma {:induction false} LinkedSame(h: seq<u32>, h': seq<u32>, i: nat, bs: seq<Block>, end: nat)
    requires Linked(h, i, bs, end) && |h| <= |h'|
    requires forall j | i <= j < i + Extent(bs) && j < |h| :: h'[j] == h[j]
    decreases |bs|
    ensures Linked(h', i, bs, end)
  {
    if bs != [] {
      LinkedSame(h, h', i + 4 + bs[0].len, bs[1..], end);
    }
  }

  lemma NonEmptyFirst(a: seq<Block>, b: seq<Block>, i: nat, end: nat)
    requires a != []
    ensures First(a + b, i, end) == Addr(i)
  {
  }

  /** Part `b` of a list, from word `i` up to `k`, replaced by `c`. */
  lemma LinkedReplace(h: seq<u32>, h': seq<u32>, a: seq<Block>, b: seq<Block>, c: seq<Block>, d: seq<Block>, i: nat,
          k: nat)
    requires Linked(h, 0, a + (b + d), 0) && |h| == |h'|
    requires i == Extent(a) && k == i + Extent(b) == i + Extent(c) && b != [] && c != []
    requires Linked(h', i, c, First(d, k, 0))
    requires forall j | 0 <= j < |h| && !(i <= j < k) :: h'[j] == h[j]
    ensures Linked(h', 0, a + (c + d), 0)
  {
    hide Linked, First, Addr, Header;
    LinkedAppend(h, 0, a, b + d, 0, i);
    LinkedAppend(h, i, b, d, 0, k);
    LinkedAppend(h', 0, a, c + d, 0, i);
    LinkedAppend(h', i, c, d, 0, k);
    NonEmptyFirst(b, d, i, 0);
    NonEmptyFirst(c, d, i, 0);
    LinkedSame(h, h', 0, a, Addr(i));
    LinkedSame(h, h', k, d, 0);
  }

  /** The header that the walk stands at: word `i`, with its successor at `k`. */
  lemma HeaderAt(h: seq<u32>, a: seq<Block>, b: Block, d: seq<Block>, i: nat, k: nat)
    requires Linked(h, 0, a + ([b] + d), 0) && i == Extent(a) && k == i + 4 + b.len
    ensures Header(h, i, b, First(d, k, 0))
    ensures Linked(h, k, d, 0)
  {
    LinkedAppend(h, 0, a, [b] + d, 0, i);
    assert ([b] + d)[1..] == d;
  }

  /** One header by itself is a list of one block. */
  lemma OneLinked(h: seq<u32>, i: nat, b: Block, end: nat)
    requires Header(h, i, b, end)
    ensures Linked(h, i, [b], end) && Extent([b]) == 4 + b.len
  {
    assert [b][1..] == [];
  }

  /** Two headers, the first pointing to the second. */
  lemma PairLinked(h: seq<u32>, i: nat, x: Block, y: Block, j: nat, end: nat)
    requires j == i + 4 + x.len && Header(h, i, x, Addr(j)) && Header(h, j, y, end)
    ensures Linked(h, i, [x, y], end) && Extent([x, y]) == 8 + x.len + y.len
  {
    assert [x, y][1..] == [y];
    OneLinked(h, j, y, end);
  }

  // ---- the stores of the heap operations ----

  /** `b->free = f` */
  ghost function WithFlag(h: seq<u32>, i: nat, f: bool): (h': seq<u32>)
    ensures |h'| == |h|
  {
    if i + 4 <= |h| then h[i + 3 := Flag(f)] else h
  }

  lemma FlagHeader(h: seq<u32>, i: nat, b: Block, next: nat, f: bool)
    requires Header(h, i, b, next)
    ensures Header(WithFlag(h, i, f), i, Block(b.len, f), next)
    ensures forall j | 0 <= j < |h| && !(i <= j < i + 4) :: WithFlag(h, i, f)[j] == h[j]
  {
  }

  lemma FlagWritten(h: seq<u32>, a: seq<Block>, b: Block, d: seq<Block>, f: bool, i: nat)
    requires Linked(h, 0, a + ([b] + d), 0) && i == Extent(a)
    ensures Linked(WithFlag(h, i, f), 0, a + ([Block(b.len, f)] + d), 0)
  {
    hide Linked, First, Addr, Header, WithFlag;
    var k := i + 4 + b.len;
    var next := First(d, k, 0);
    HeaderAt(h, a, b, d, i, k);
    FlagHeader(h, i, b, next, f);
    OneLinked(h, i, b, next);
    OneLinked(WithFlag(h, i, f), i, Block(b.len, f), next);
    LinkedReplace(h, WithFlag(h, i, f), a, [b], [Block(b.len, f)], d, i, k);
  }

  /** The six stores that cut `n` words off the block of `len` words at `i`; the
      new header is at `r`. */
  ghost function Split(h: seq<u32>, i: nat, len: nat, n: nat, r: nat): (h': seq<u32>)
    ensures |h'| == |h|
  {
    if r == i + 4 + n && n + 4 <= len && r + 4 <= |h| <= 0x10_0000 && len <= 0x10_0000 then
      h[r := BLOCK_MAGIC][r + 1 := 4 * (len - n - 4)][r + 2 := h[i + 2]][r + 3 := 1]
       [i + 1 := 4 * n][i + 2 := Addr(r)]
    else h
  }

  lemma SplitHeaders(h: seq<u32>, i: nat, b: Block, next: nat, n: nat, r: nat)
    requires Header(h, i, b, next) && n + 4 <= b.len && r == i + 4 + n
    requires i + 4 + b.len <= |h| <= 0x10_0000
    ensures Header(Split(h, i, b.len, n, r), i, Block(n, b.free), Addr(r))
    ensures Header(Split(h, i, b.len, n, r), r, Block(b.len - n - 4, true), next)
    ensures forall j | 0 <= j < |h| && !(i <= j < i + 4 + b.len) :: Split(h, i, b.len, n, r)[j] == h[j]
  {
  }

  lemma SplitWritten(h: seq<u32>, a: seq<Block>, b: Block, d: seq<Block>, n: nat, i: nat, r: nat)
    requires Linked(h, 0, a + ([b] + d), 0) && i == Extent(a) && r == i + 4 + n
    requires n + 4 <= b.len && i + 4 + b.len <= |h| <= 0x10_0000
    ensures Linked(Split(h, i, b.len, n, r), 0, a + ([Block(n, b.free), Block(b.len - n - 4, true)] + d), 0)
  {
    hide Linked, First, Addr, Header, Split;
    var k := i + 4 + b.len;
    var next := First(d, k, 0);
    HeaderAt(h, a, b, d, i, k);
    SplitHeaders(h, i, b, next, n, r);
    var x, y := Block(n, b.free), Block(b.len - n - 4, true);
    PairLinked(Split(h, i, b.len, n, r), i, x, y, r, next);
    OneLinked(h, i, b, next);
    LinkedReplace(h, Split(h, i, b.len, n, r), a, [b], [x, y], d, i, k);
  }

  /** The two stores by which the block at `i` swallows its successor at `j` and
      comes to have `len` words. */
  ghost function Swallow(h: seq<u32>, i: nat, j: nat, len: nat): (h': seq<u32>)
    ensures |h'| == |h|
  {
    if i + 4 <= |h| && j + 4 <= |h| && len <= 0x10_0000 then h[i + 1 := 4 * len][i + 2 := h[j + 2]] else h
  }

  lemma SwallowHeader(h: seq<u32>, i: nat, b: Block, j: nat, c: Block, next: nat)
    requires j == i + 4 + b.len && Header(h, i, b, Addr(j)) && Header(h, j, c, next) && b.free
    requires j + 4 + c.len <= |h| <= 0x10_0000
    ensures var h' := Swallow(h, i, j, b.len + 4 + c.len);
      && Header(h', i, Block(b.len + 4 + c.len, true), next)
      && forall k | 0 <= k < |h| && !(i <= k < i + 4) :: h'[k] == h[k]
  {
  }

  /** The first two headers of the part `[b, c] + d` of a list. */
  lemma TwoHeaders(h: seq<u32>, a: seq<Block>, b: Block, c: Block, d: seq<Block>, i: nat, j: nat, k: nat)
    requires Linked(h, 0, a + ([b, c] + d), 0)
    requires i == Extent(a) && j == i + 4 + b.len && k == j + 4 + c.len
    ensures Header(h, i, b, Addr(j)) && Header(h, j, c, First(d, k, 0))
  {
    LinkedAppend(h, 0, a, [b, c] + d, 0, i);
    assert ([b, c] + d)[1..] == [c] + d;
    assert ([c] + d)[1..] == d;
    assert Linked(h, j, [c] + d, 0);
  }

  lemma SwallowWritten(h: seq<u32>, a: seq<Block>, b: Block, c: Block, d: seq<Block>, i: nat, j: nat)
    requires Linked(h, 0, a + ([b, c] + d), 0) && b.free && c.free
    requires i == Extent(a) && j == i + 4 + b.len && j + 4 + c.len <= |h| <= 0x10_0000
    ensures Linked(Swallow(h, i, j, b.len + 4 + c.len), 0, a + ([Join(b, c)] + d), 0)
  {
    hide Linked, First, Addr, Header, Swallow;
    var k := j + 4 + c.len;
    var next := First(d, k, 0);
    TwoHeaders(h, a, b, c, d, i, j, k);
    PairLinked(h, i, b, c, j, next);
    SwallowHeader(h, i, b, j, c, next);
    OneLinked(Swallow(h, i, j, b.len + 4 + c.len), i, Join(b, c), next);
    LinkedReplace(h, Swallow(h, i, j, b.len + 4 + c.len), a, [b, c], [Join(b, c)], d, i, k);
  }

  /** New words `w` at the end of the heap: the stores of `extend_heap`, the last
      one through the old tail at `t`. */
  ghost function Appended(h: seq<u32>, t: nat, at: nat, w: nat): (h': seq<u32>)
    ensures |h'| == |h|
  {
    if t + 4 <= at && at + 4 <= |h| <= 0x10_0000 && 4 <= w <= 0x10_0000 then
      h[at := BLOCK_MAGIC][at + 1 := 4 * (w - 4)][at + 2 := 0][at + 3 := 1][t + 2 := Addr(at)]
    else h
  }

  lemma AppendHeaders(h: seq<u32>, t: nat, b: Block, at: nat, w: nat)
    requires Header(h, t, b, 0) && at == t + 4 + b.len && at + w == |h| <= 0x10_0000 && w >= 4
    ensures Header(Appended(h, t, at, w), t, b, Addr(at))
    ensures Header(Appended(h, t, at, w), at, Block(w - 4, true), 0)
    ensures forall j | 0 <= j < |h| && !(t <= j < t + 4) && !(at <= j < at + 4) :: Appended(h, t, at, w)[j] == h[j]
  {
  }

  lemma AppendWritten(h: seq<u32>, a: seq<Block>, b: Block, t: nat, at: nat, w: nat)
    requires Linked(h, 0, a + [b], 0) && t == Extent(a) && at == t + 4 + b.len
    requires at + w == |h| <= 0x10_0000 && w >= 4
    ensures Linked(Appended(h, t, at, w), 0, a + [b] + [Block(w - 4, true)], 0)
  {
    hide Linked, Addr, Header, Appended;
    var c := Block(w - 4, true);
    assert [b] + [] == [b];
    HeaderAt(h, a, b, [], t, at);
    AppendHeaders(h, t, b, at, w);
    var h' := Appended(h, t, at, w);
    PairLinked(h', t, b, c, at, 0);
    LinkedAppend(h, 0, a, [b], 0, t);
    NonEmptyFirst([b], [], t, 0);
    LinkedSame(h, h', 0, a, Addr(t));
    LinkedAppend(h', 0, a, [b, c], 0, t);
    NonEmptyFirst([b, c], [], t, 0);
    assert [b, c] + [] == [b, c];
    assert a + [b] + [c] == a + [b, c];
  }

  // ---- what the stores leave alone ----

  /** The payload words of allocated blocks are the same. */
  ghost predicate SamePayload(h: seq<u32>, h': seq<u32>, bs: seq<Block>) {
    |h| <= |h'| && forall j: nat | j < |h| && InPayload(bs, 0, j) :: h'[j] == h[j]
  }

  lemma FlagPayload(h: seq<u32>, a: seq<Block>, b: Block, d: seq<Block>, f: bool, i: nat)
    requires i == Extent(a)
    ensures SamePayload(h, WithFlag(h, i, f), a + ([b] + d))
  {
    if i + 4 <= |h| {
      NotPayload(a, b, d, i, i + 4 + b.len, i + 3);
    }
  }

  lemma SplitPayload(h: seq<u32>, a: seq<Block>, b: Block, d: seq<Block>, n: nat, i: nat, r: nat)
    requires i == Extent(a) && b.free && r == i + 4 + n && n + 4 <= b.len
    ensures SamePayload(h, Split(h, i, b.len, n, r), a + ([b] + d))
  {
    forall j: nat | i <= j < i + 4 + b.len ensures !InPayload(a + ([b] + d), 0, j) {
      NotPayload(a, b, d, i, i + 4 + b.len, j);
    }
  }

  lemma SwallowPayload(h: seq<u32>, a: seq<Block>, b: Block, d: seq<Block>, i: nat, j: nat, len: nat)
    requires i == Extent(a)
    ensures SamePayload(h, Swallow(h, i, j, len), a + ([b] + d))
  {
    NotPayload(a, b, d, i, i + 4 + b.len, i + 1);
    NotPayload(a, b, d, i, i + 4 + b.len, i + 2);
  }

  lemma AppendPayload(h: seq<u32>, a: seq<Block>, b: Block, t: nat, at: nat, w: nat)
    requires t == Extent(a) && at == t + 4 + b.len
    ensures SamePayload(h, Appended(h, t, at, w), a + [b])
  {
    assert [b] + [] == [b];
    NotPayload(a, b, [], t, at, t + 2);
    ExtentAppend(a, [b]);
    Single(b, t);
    forall j: nat | InPayload(a + [b], 0, j) ensures j < at {
      PayloadRange(a + [b], 0, j);
    }
  }

  // ---- genuine headers ----

  /** The magic word is found only where a header is or was: at even words, and
      with a zero flag behind it only at the header of a live block. */
  ghost predicate Genuine(h: seq<u32>, live: set<nat>) {
    forall i: nat | i < |h| && h[i] == BLOCK_MAGIC ::
      i % 2 == 0 && i + 4 <= |h| && (h[i + 3] == 0 ==> i in live)
  }

  /** The store of `v` at word `k` puts the magic word only at an even word with a
      flag behind it that is not zero, and no zero where such a flag is. */
  ghost predicate Spares(h: seq<u32>, k: nat, v: u32) {
    && (v == BLOCK_MAGIC ==> k % 2 == 0 && k + 4 <= |h| && h[k + 3] != 0)
    && (v == 0 && 3 <= k < |h| + 3 ==> h[k - 3] != BLOCK_MAGIC)
  }

  /** A store to a word that is neither header nor flag of a live block keeps headers
      genuine if and only if it spares them. */
  lemma StoreGenuine(h: seq<u32>, live: set<nat>, k: nat, v: u32)
    requires Genuine(h, live) && k < |h| && k !in live && (k >= 3 ==> k - 3 !in live)
    ensures Genuine(h[k := v], live) <==> Spares(h, k, v)
  {
    var h' := h[k := v];
    if v == 0 && k >= 3 && h[k - 3] == BLOCK_MAGIC {
      var i: nat := k - 3;
      assert h'[i] == BLOCK_MAGIC && h'[i + 3] == 0 && i !in live;
    } else if v == BLOCK_MAGIC && !Spares(h, k, v) {
      assert h'[k] == BLOCK_MAGIC && (k + 4 <= |h| ==> h'[k + 3] == h[k + 3]);
    } else {
      forall i: nat | i < |h'| && h'[i] == BLOCK_MAGIC
        ensures i % 2 == 0 && i + 4 <= |h'| && (h'[i + 3] == 0 ==> i in live)
      {
        assert i != k ==> h[i] == BLOCK_MAGIC;
      }
    }
  }

  lemma FlagGenuine(h: seq<u32>, live: set<nat>, i: nat, f: bool)
    requires Genuine(h, live) && i % 2 == 0
    ensures Genuine(WithFlag(h, i, f), if f then live - {i} else live + {i})
  {
    var h' := WithFlag(h, i, f);
    forall k: nat | k < |h'| && h'[k] == BLOCK_MAGIC
      ensures k % 2 == 0 && k + 4 <= |h'|
      ensures h'[k + 3] == 0 ==> k in if f then live - {i} else live + {i}
    {
      assert h[k] == BLOCK_MAGIC;
    }
  }

  lemma SplitGenuine(h: seq<u32>, live: set<nat>, i: nat, b: Block, next: nat, n: nat, r: nat)
    requires Genuine(h, live) && Header(h, i, b, next) && (next == 0 || next >= 0xC000_0000)
    requires i % 2 == 0 && r % 2 == 0 && 0 < n && n + 4 < b.len
    ensures Genuine(Split(h, i, b.len, n, r), live)
  {
    var h' := Split(h, i, b.len, n, r);
    forall k: nat | k < |h'| && h'[k] == BLOCK_MAGIC
      ensures k % 2 == 0 && k + 4 <= |h'| && (h'[k + 3] == 0 ==> k in live)
    {
      if h' != h && k != r {
        assert h[k] == BLOCK_MAGIC;
      }
    }
  }

  lemma SwallowGenuine(h: seq<u32>, live: set<nat>, i: nat, j: nat, c: Block, next: nat, len: nat)
    requires Genuine(h, live) && Header(h, j, c, next) && (next == 0 || next >= 0xC000_0000)
    requires i % 2 == 0 && 0 < len
    ensures Genuine(Swallow(h, i, j, len), live)
  {
    var h' := Swallow(h, i, j, len);
    forall k: nat | k < |h'| && h'[k] == BLOCK_MAGIC
      ensures k % 2 == 0 && k + 4 <= |h'| && (h'[k + 3] == 0 ==> k in live)
    {
      assert h[k] == BLOCK_MAGIC;
    }
  }

  /** Growth by words that hold no magic. */
  lemma AppendGenuine(h: seq<u32>, live: set<nat>, t: nat, at: nat, w: nat)
    requires at <= |h| && Genuine(h[..at], live)
    requires NoneFrom(h, at, BLOCK_MAGIC)
    requires t % 2 == 0 && at % 2 == 0 && w > 4
    ensures Genuine(Appended(h, t, at, w), live)
  {
    var h' := Appended(h, t, at, w);
    forall k: nat | k < |h'| && h'[k] == BLOCK_MAGIC
      ensures k % 2 == 0 && k + 4 <= |h'| && (h'[k + 3] == 0 ==> k in live)
    {
      if k < at {
        assert h[..at][k] == h[k] == BLOCK_MAGIC;
        assert h[..at][k + 3] == h[k + 3];
      }
    }
  }

  /** The header test of `kfree`. */
  predicate LooksLive(h: seq<u32>, i: nat) {
    i + 4 <= |h| && h[i] == BLOCK_MAGIC && h[i + 3] == 0
  }

  lemma {:induction false} LiveLooksLive(h: seq<u32>, at: nat, bs: seq<Block>, end: nat, i: nat)
    requires Linked(h, at, bs, end) && i in Live(bs, at)
    decreases |bs|
    ensures LooksLive(h, i)
  {
    if at != i || bs[0].free {
      LiveLooksLive(h, at + 4 + bs[0].len, bs[1..], end, i);
    }
  }

  /** `kfree` takes exactly the live blocks for live. */
  lemma AcceptsExactlyLive(h: seq<u32>, bs: seq<Block>, i: nat)
    requires Linked(h, 0, bs, 0) && Genuine(h, Live(bs, 0))
    ensures LooksLive(h, i) <==> i in Live(bs, 0)
  {
    if i in Live(bs, 0) {
      LiveLooksLive(h, 0, bs, 0, i);
    }
  }
}
