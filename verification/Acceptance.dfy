/** Runs of the heap: stores of its clients between the calls of `kmalloc` and `kfree`.
    `kfree` takes for live exactly what is, at every point of every run, as long as
    each store spares the headers; and a store that does not lets calls alone end it. */
module Acceptance {
  import opened Words
  import opened Blocks
  import opened HeapWords
  import opened HeapSteps
  import opened Forgery

  /** The heap's words, and the list that they hold. */
  datatype HeapState = HeapState(h: seq<u32>, bs: seq<Block>)

  /** A store of a client, `kmalloc` of `n` words that finds a block, one that makes
      the heap grow by `w` words, and `kfree` of the block at `i`. */
  datatype Action = Write(k: nat, v: u32) | Take(n: nat) | TakeMore(n: nat, w: nat) | Give(i: nat)

  /** Everything but growth determines the words that follow. */
  ghost function After(s: HeapState, c: Action): HeapState {
    match c
    case Write(k, v) => if k < |s.h| then s.(h := s.h[k := v]) else s
    case Take(n) => HeapState(HandedWords(s.h, AllocAt(s.bs, 0, n), n), Alloc(s.bs, n))
    case TakeMore(_, _) => s
    case Give(i) => HeapState(FreedWords(s.h, s.bs, i), Free(s.bs, i))
  }

  /** From `s` to `t`. The pages that growth maps do not hold the magic word. */
  ghost predicate Steps(s: HeapState, c: Action, t: HeapState) {
    match c
    case Write(k, v) => InPayload(s.bs, 0, k) && t == After(s, c)
    case Take(n) => n >= 2 && n % 2 == 0 && HasFit(s.bs, n) && t == After(s, c)
    case TakeMore(n, w) =>
      && w >= 4 && t.bs == Alloc(Extend(s.bs, w), n)
      && Granted(s.h, t.h, s.bs, t.bs, n, AllocAt(Extend(s.bs, w), 0, n), true)
    case Give(i) => i in Live(s.bs, 0) && t == After(s, c)
  }

  ghost predicate Kept(s: HeapState) { ListOk(s.h, s.bs) && Coalesced(s.bs) }

  ghost predicate AllGenuine(s: HeapState) { Genuine(s.h, Live(s.bs, 0)) }

  /** Only stores have to take care. */
  ghost predicate Fair(s: HeapState, c: Action) { c.Write? ==> Spares(s.h, c.k, c.v) }

  // ---- what the calls do to the words ----

  /** The search of `kmalloc` ends at the first block that fits. */
  lemma {:induction false} SearchEnds(bs: seq<Block>, pre: seq<Block>, rest: seq<Block>, i: nat, n: nat)
    returns (pre': seq<Block>, rest': seq<Block>, i': nat)
    requires Searching(bs, pre, rest, i, n) && HasFit(rest, n)
    ensures Searching(bs, pre', rest', i', n) && rest' != [] && Fits(rest'[0], n)
    decreases |rest|
  {
    if Fits(rest[0], n) {
      pre', rest', i' := pre, rest, i;
    } else {
      SearchAdvance(bs, pre, rest, i, i + 4 + rest[0].len, n);
      pre', rest', i' := SearchEnds(bs, pre + [rest[0]], rest[1..], i + 4 + rest[0].len, n);
    }
  }

  lemma HandedIs(h: seq<u32>, bs: seq<Block>, n: nat)
    requires ListOk(h, bs) && Coalesced(bs) && HasFit(bs, n) && n >= 2 && n % 2 == 0
    ensures Handed(h, HandedWords(h, AllocAt(bs, 0, n), n), bs, n)
    ensures ListOk(HandedWords(h, AllocAt(bs, 0, n), n), Alloc(bs, n)) && Coalesced(Alloc(bs, n))
  {
    hide ListOk, Searching, Handed, HandedWords, Coalesced;
    SearchStart(bs, n);
    var pre, rest, i := SearchEnds(bs, [], bs, 0, n);
    Found(h, bs, pre, rest, i, n);
  }

  /** The walk of `coalesce`, to its end. */
  lemma {:induction false} WalkOn(h0: seq<u32>, bs0: seq<Block>, h: seq<u32>, pre: seq<Block>, rest: seq<Block>, i: nat)
    requires Coalescing(h0, bs0, h, pre, rest, i)
    ensures var h' := MergedWords(h, rest, i);
      ListOk(h', Merge(bs0)) && SameAllocs(bs0, Merge(bs0)) && Respects(h0, h', bs0)
    decreases |rest|
  {
    hide ListOk, SameAllocs, Respects, Swallow;
    if |rest| < 2 {
      CoalesceDone(h0, bs0, h, pre, rest, i);
    } else {
      var next := i + 4 + rest[0].len;
      hide Coalescing;
      if rest[0].free && rest[1].free {
        var len := rest[0].len + 4 + rest[1].len;
        CoalesceSwallow(h0, bs0, h, pre, rest, i, next, len);
        WalkOn(h0, bs0, Swallow(h, i, next, len), pre, [Join(rest[0], rest[1])] + rest[2..], i);
      } else {
        CoalesceAdvance(h0, bs0, h, pre, rest, i, next);
        WalkOn(h0, bs0, h, pre + [rest[0]], rest[1..], next);
      }
    }
  }

  lemma FreedIs(h: seq<u32>, bs: seq<Block>, i: nat)
    requires ListOk(h, bs) && i in Live(bs, 0)
    ensures Freed(h, FreedWords(h, bs, i), bs, i)
  {
    hide ListOk, Respects, SameAllocs, Freed, WithFlag, MergedWords, SetFree, Merge, Genuine;
    Released(h, bs, i);
    var h1, cs := WithFlag(h, i, true), SetFree(bs, 0, i);
    CoalesceStart(h1, cs);
    WalkOn(h1, cs, h1, [], cs, 0);
    FreedBy(h, MergedWords(h1, cs, 0), bs, i);
  }

  // ---- runs ----

  ghost predicate IsRun(ss: seq<HeapState>, cs: seq<Action>) {
    && |ss| == |cs| + 1
    && forall j | 0 <= j < |cs| :: Steps(ss[j], cs[j], ss[j + 1])
  }

  ghost predicate FairRun(ss: seq<HeapState>, cs: seq<Action>) {
    IsRun(ss, cs) && forall j | 0 <= j < |cs| :: Fair(ss[j], cs[j])
  }

  lemma StepKeepsGenuine(s: HeapState, c: Action, t: HeapState)
    requires Kept(s) && Steps(s, c, t)
    ensures Kept(t)
    ensures AllGenuine(s) ==> (AllGenuine(t) <==> Fair(s, c))
  {
    hide Genuine, ListOk, Live, HandedWords, FreedWords, Alloc, Free, Extend, Spares, Coalesced;
    match c
    case Write(k, v) =>
      PayloadWritten(s.h, s.bs, k, v);
      if AllGenuine(s) {
        PayloadStore(s.h, s.bs, k, v);
      }
    case Take(n) =>
      HandedIs(s.h, s.bs, n);
      GrantedNow(s.h, t.h, s.bs, n, true);
    case TakeMore(_, _) =>
    case Give(i) =>
      FreedIs(s.h, s.bs, i);
  }

  /** In a run whose stores all spare the headers `kfree` takes for live exactly what
      is, at every point. */
  lemma {:induction false} RunsStayExact(ss: seq<HeapState>, cs: seq<Action>, j: nat)
    requires FairRun(ss, cs) && Kept(ss[0]) && AllGenuine(ss[0]) && j < |ss|
    ensures Kept(ss[j]) && AllGenuine(ss[j]) && Exact(ss[j].h, ss[j].bs)
  {
    hide Genuine, ListOk, Coalesced, Steps, Fair, Exact;
    if j > 0 {
      RunsStayExact(ss, cs, j - 1);
      assert Steps(ss[j - 1], cs[j - 1], ss[j - 1 + 1]) && Fair(ss[j - 1], cs[j - 1]);
      StepKeepsGenuine(ss[j - 1], cs[j - 1], ss[j]);
    }
    GenuineIsExact(ss[j].h, ss[j].bs);
  }

  // ---- what a store that does not spare the headers leads to ----

  /** Word `j` belongs to a header of the list. */
  ghost predicate OnHeader(bs: seq<Block>, at: nat, j: nat) {
    bs != [] && (at <= j < at + 4 || OnHeader(bs[1..], at + 4 + bs[0].len, j))
  }

  lemma {:induction false} PayloadOffHeader(bs: seq<Block>, at: nat, j: nat)
    requires InPayload(bs, at, j)
    ensures !OnHeader(bs, at, j)
  {
    var next := at + 4 + bs[0].len;
    if InPayload(bs[1..], next, j) {
      PayloadRange(bs[1..], next, j);
      PayloadOffHeader(bs[1..], next, j);
    } else {
      NoHeaderBelow(bs[1..], next, j);
    }
  }

  lemma {:induction false} NoHeaderBelow(bs: seq<Block>, at: nat, j: nat)
    requires j < at
    ensures !OnHeader(bs, at, j)
  {
    if bs != [] {
      NoHeaderBelow(bs[1..], at + 4 + bs[0].len, j);
    }
  }

  lemma {:induction false} LiveOnHeader(bs: seq<Block>, at: nat, i: nat)
    requires i in Live(bs, at)
    ensures OnHeader(bs, at, i + 3)
  {
    if i != at {
      LiveOnHeader(bs[1..], at + 4 + bs[0].len, i);
    }
  }

  lemma {:induction false} SetFreeOnHeader(bs: seq<Block>, at: nat, i: nat, j: nat)
    ensures OnHeader(SetFree(bs, at, i), at, j) <==> OnHeader(bs, at, j)
  {
    if bs != [] && at != i {
      SetFreeOnHeader(bs[1..], at + 4 + bs[0].len, i, j);
    }
  }

  lemma SwallowElsewhere(h: seq<u32>, i: nat, next: nat, len: nat, j: nat)
    requires j < |h| && !(i <= j < i + 4)
    ensures Swallow(h, i, next, len)[j] == h[j]
  {
  }

  /** Coalescing writes headers only, and makes no new ones. */
  lemma {:induction false} MergedElsewhere(h: seq<u32>, bs: seq<Block>, at: nat, j: nat)
    requires j < |h| && !OnHeader(bs, at, j)
    ensures MergedWords(h, bs, at)[j] == h[j] && !OnHeader(Merge(bs), at, j)
    decreases |bs|
  {
    if |bs| >= 2 {
      var next := at + 4 + bs[0].len;
      if bs[0].free && bs[1].free {
        var cs, len := [Join(bs[0], bs[1])] + bs[2..], bs[0].len + 4 + bs[1].len;
        assert cs[1..] == bs[1..][1..] == bs[2..];
        SwallowElsewhere(h, at, next, len, j);
        hide Swallow;
        MergedElsewhere(Swallow(h, at, next, len), cs, at, j);
      } else {
        MergedElsewhere(h, bs[1..], next, j);
      }
    }
  }

  /** A `kfree` leaves every word that is in no header, and puts no header there. */
  lemma FreedElsewhere(h: seq<u32>, bs: seq<Block>, i: nat, j: nat)
    requires j < |h| && !OnHeader(bs, 0, j) && i in Live(bs, 0)
    ensures FreedWords(h, bs, i)[j] == h[j] && !OnHeader(Free(bs, i), 0, j)
  {
    LiveOnHeader(bs, 0, i);
    SetFreeOnHeader(bs, 0, i, j);
    MergedElsewhere(WithFlag(h, i, true), SetFree(bs, 0, i), 0, j);
  }

  ghost predicate CallsOnly(cs: seq<Action>) { forall j | 0 <= j < |cs| :: !cs[j].Write? }

  lemma RunOn(s: HeapState, c: Action, ss: seq<HeapState>, cs: seq<Action>)
    requires IsRun(ss, cs) && Steps(s, c, ss[0])
    ensures IsRun([s] + ss, [c] + cs)
  {
    hide Steps;
    forall j | 0 <= j < |[c] + cs| ensures Steps(([s] + ss)[j], ([c] + cs)[j], ([s] + ss)[j + 1]) {
      if j > 0 {
        assert Steps(ss[j - 1], cs[j - 1], ss[j - 1 + 1]);
      }
    }
  }

  /** Giving back every block leaves one, and a word outside all headers as it was. */
  lemma {:induction false} GiveAll(s: HeapState, k: nat) returns (ss: seq<HeapState>, cs: seq<Action>)
    requires Kept(s) && k < |s.h| && !OnHeader(s.bs, 0, k)
    ensures IsRun(ss, cs) && CallsOnly(cs) && ss[0] == s
    ensures var t := ss[|cs|]; Kept(t) && |t.h| == |s.h| && t.bs == [Block(|s.h| - 4, true)] && t.h[k] == s.h[k]
    decreases |Live(s.bs, 0)|
  {
    hide Coalesced, FreedWords, Free, Shaped, Linked;
    if Live(s.bs, 0) == {} {
      NothingLive(s.bs, 0);
      ss, cs := [s], [];
    } else {
      var i :| i in Live(s.bs, 0);
      var t := After(s, Give(i));
      FreedIs(s.h, s.bs, i);
      FreedElsewhere(s.h, s.bs, i, k);
      var ts, ds := GiveAll(t, k);
      RunOn(s, Give(i), ts, ds);
      ss, cs := [s] + ts, [Give(i)] + ds;
    }
  }

  /** A magic word at an odd place looks live as soon as a header without a successor
      is put behind it, and `kfree` then cuts the list. */
  lemma OddMagicForges(s: HeapState, k: nat)
    requires Kept(s) && s.bs == [Block(|s.h| - 4, true)]
    requires k % 2 == 1 && 5 <= k && k + 9 <= |s.h| && s.h[k] == BLOCK_MAGIC
    ensures var t := After(s, Take(k - 3));
      && Steps(s, Take(k - 3), t) && Kept(t)
      && LooksLive(t.h, k) && k !in Live(t.bs, 0) && CutsEnd(t.bs, k)
  {
    hide ListOk, Coalesced, HandedWords, Alloc, AllocAt, HasFit, Handed, Live, LooksLive, CutsEnd;
    var n: nat := k - 3;
    OneBlock(s.bs, |s.h| - 4, n);
    FirstHeader(s.h, s.bs);
    HeaderBehind(s.h, k);
    HandedIs(s.h, s.bs, n);
  }

  lemma OneBlock(bs: seq<Block>, len: nat, n: nat)
    requires bs == [Block(len, true)] && n + 8 <= len
    ensures HasFit(bs, n) && AllocAt(bs, 0, n) == 0
    ensures Alloc(bs, n) == [Block(n, false), Block(len - n - 4, true)]
    ensures Live(Alloc(bs, n), 0) == {0} && CutsEnd(Alloc(bs, n), n + 3)
  {
    Single(Block(len - n - 4, true), n + 4);
  }

  lemma FirstHeader(h: seq<u32>, bs: seq<Block>)
    requires ListOk(h, bs) && bs == [Block(|h| - 4, true)]
    ensures 4 <= |h| <= 0x10_0000 && h[0] == BLOCK_MAGIC && h[1] == 4 * (|h| - 4) && h[2] == 0
  {
  }

  lemma HeaderBehind(h: seq<u32>, k: nat)
    requires 5 <= k && k + 9 <= |h| <= 0x10_0000 && h[1] == 4 * (|h| - 4) && h[2] == 0 && h[k] == BLOCK_MAGIC
    ensures LooksLive(HandedWords(h, 0, k - 3), k)
  {
  }

  /** A store that does not spare the headers ends exact acceptance, at once or by
      calls alone. */
  lemma UnsparedEnds(s: HeapState, k: nat, v: u32) returns (ss: seq<HeapState>, cs: seq<Action>)
    requires Kept(s) && AllGenuine(s) && InPayload(s.bs, 0, k) && !Spares(s.h, k, v)
    requires v == BLOCK_MAGIC ==> k + 9 <= |s.h|
    ensures IsRun(ss, cs) && CallsOnly(cs) && ss[0] == After(s, Write(k, v))
    ensures !Exact(ss[|cs|].h, ss[|cs|].bs)
  {
    hide Genuine, ListOk, Coalesced, HandedWords, FreedWords, CutsEnd;
    var t := After(s, Write(k, v));
    PayloadWritten(s.h, s.bs, k, v);
    PayloadRange(s.bs, 0, k);
    GenuineIsExact(s.h, s.bs);
    StoreExact(s.h, s.bs, k, v);
    if !Exact(t.h, t.bs) {
      ss, cs := [t], [];
    } else {
      PayloadOffHeader(s.bs, 0, k);
      ss, cs := GiveAll(t, k);
      var u := ss[|cs|];
      OddMagicForges(u, k);
      ss, cs := Longer(ss, cs, Take(k - 3), After(u, Take(k - 3)));
    }
  }

  lemma Longer(ss: seq<HeapState>, cs: seq<Action>, c: Action, t: HeapState)
    returns (ts: seq<HeapState>, ds: seq<Action>)
    requires IsRun(ss, cs) && CallsOnly(cs) && !c.Write? && Steps(ss[|cs|], c, t)
    ensures ts == ss + [t] && ds == cs + [c] && IsRun(ts, ds) && CallsOnly(ds)
  {
    hide Steps;
    ts, ds := ss + [t], cs + [c];
    forall j | 0 <= j < |ds| ensures Steps(ts[j], ds[j], ts[j + 1]) {
      if j < |cs| {
        assert Steps(ss[j], cs[j], ss[j + 1]);
      }
    }
  }

  /** `kfree` is exact at every point of every run from `s` in which later stores
      spare the headers. */
  ghost predicate StaysExact(s: HeapState) {
    forall ss: seq<HeapState>, cs: seq<Action> | FairRun(ss, cs) && ss[0] == s :: Exact(ss[|cs|].h, ss[|cs|].bs)
  }

  /** One store keeps `kfree` exact for good if and only if it spares the headers.
      (Behind a magic word in the last eight words of the heap no header finds room
      before the heap grows.) */
  lemma SparingIsSafe(s: HeapState, k: nat, v: u32)
    requires Kept(s) && AllGenuine(s) && InPayload(s.bs, 0, k)
    ensures Spares(s.h, k, v) ==> StaysExact(After(s, Write(k, v)))
    ensures StaysExact(After(s, Write(k, v))) && (v == BLOCK_MAGIC ==> k + 9 <= |s.h|) ==> Spares(s.h, k, v)
  {
    hide Genuine, ListOk, Coalesced, Exact, InPayload;
    var t := After(s, Write(k, v));
    PayloadRange(s.bs, 0, k);
    StepKeepsGenuine(s, Write(k, v), t);
    if Spares(s.h, k, v) {
      forall ss: seq<HeapState>, cs: seq<Action> | FairRun(ss, cs) && ss[0] == t
        ensures Exact(ss[|cs|].h, ss[|cs|].bs)
      {
        RunsStayExact(ss, cs, |cs|);
      }
    } else if v == BLOCK_MAGIC ==> k + 9 <= |s.h| {
      var ss, cs := UnsparedEnds(s, k, v);
      assert FairRun(ss, cs);
    }
  }

  // ---- sessions on the heap of `heap_init` ----

  /** After `kmalloc` of `a` and of `b` words and `kfree` of both, in a heap that was
      and is one free block. */
  ghost function Recycled(s: HeapState, a: nat, b: nat): HeapState {
    After(After(After(After(s, Take(a)), Take(b)), Give(0)), Give(a + 4))
  }

  /** A heap of one free block. */
  ghost predicate Whole(s: HeapState) {
    Kept(s) && s.bs == [Block(|s.h| - 4, true)]
  }

  /** What the two calls of `kmalloc` write. */
  ghost function TwoWritten(h: seq<u32>, a: nat, b: nat): seq<u32> {
    HandedWords(HandedWords(h, 0, a), a + 4, b)
  }

  lemma AllocSecond(a: nat, len: nat, b: nat)
    requires b + 8 <= len
    ensures var bs := [Block(a, false), Block(len, true)];
      && HasFit(bs, b) && AllocAt(bs, 0, b) == a + 4
      && Alloc(bs, b) == [Block(a, false), Block(b, false), Block(len - b - 4, true)]
  {
    var bs := [Block(a, false), Block(len, true)];
    assert bs[1..] == [Block(len, true)];
    OneBlock(bs[1..], len, b);
  }

  lemma TwoTaken(s: HeapState, a: nat, b: nat)
    requires Whole(s) && 2 <= a && 2 <= b && a + b + 16 <= |s.h|
    ensures var t := After(After(s, Take(a)), Take(b));
      && HasFit(s.bs, a) && AllocAt(s.bs, 0, a) == 0
      && HasFit(After(s, Take(a)).bs, b) && AllocAt(After(s, Take(a)).bs, 0, b) == a + 4
      && t == HeapState(TwoWritten(s.h, a, b), [Block(a, false), Block(b, false), Block(|s.h| - a - b - 12, true)])
  {
    hide HandedWords, Alloc, AllocAt, HasFit, ListOk, Coalesced, Live, CutsEnd;
    OneBlock(s.bs, |s.h| - 4, a);
    AllocSecond(a, |s.h| - a - 8, b);
  }

  lemma TwoTakenWords(h: seq<u32>, a: nat, b: nat)
    requires 2 <= a && 2 <= b && a + b + 16 <= |h| <= 0x10_0000 && h[0] == BLOCK_MAGIC && h[1] == 4 * (|h| - 4)
    requires h[2] == 0
    ensures var t := TwoWritten(h, a, b);
      && |t| == |h| && t[0] == BLOCK_MAGIC && t[1] == 4 * a
      && t[a + 4] == BLOCK_MAGIC && t[a + 5] == 4 * b && t[a + 6] == Addr(a + b + 8)
      && t[a + b + 8] == BLOCK_MAGIC && t[a + b + 10] == 0 && t[a + b + 11] == 1
      && forall j | 4 <= j < |h| && !(a + 4 <= j < a + 8) && !(a + b + 8 <= j < a + b + 12) :: t[j] == h[j]
  {
    var u := HandedWords(h, 0, a);
    assert u[0] == BLOCK_MAGIC && u[1] == 4 * a && u[2] == Addr(a + 4);
    assert u[a + 4] == BLOCK_MAGIC && u[a + 5] == 4 * (|h| - a - 8) && u[a + 6] == 0;
    assert forall j | 4 <= j < |h| && !(a + 4 <= j < a + 8) :: u[j] == h[j];
  }

  /** The first `kfree` merges nothing, the second everything. */
  lemma FirstFreed(h: seq<u32>, a: nat, b: nat, c: nat)
    ensures var bs := [Block(a, false), Block(b, false), Block(c, true)];
      && FreedWords(h, bs, 0) == WithFlag(h, 0, true) && Free(bs, 0) == bs[0 := Block(a, true)]
  {
    var bs := [Block(a, false), Block(b, false), Block(c, true)];
    var cs := [Block(a, true), Block(b, false), Block(c, true)];
    assert SetFree(bs, 0, 0) == cs && cs[1..] == [Block(b, false), Block(c, true)];
    MergeIdle(cs);
    MergedIdle(WithFlag(h, 0, true), cs, 0);
  }

  /** Coalescing a coalesced list writes nothing. */
  lemma {:induction false} MergedIdle(h: seq<u32>, bs: seq<Block>, at: nat)
    requires Coalesced(bs)
    ensures MergedWords(h, bs, at) == h
    decreases |bs|
  {
    if |bs| >= 2 {
      assert !(bs[0].free && bs[0 + 1].free);
      forall k | 0 <= k < |bs[1..]| - 1 ensures !(bs[1..][k].free && bs[1..][k + 1].free) {
        assert !(bs[k + 1].free && bs[k + 1 + 1].free);
      }
      MergedIdle(h, bs[1..], at + 4 + bs[0].len);
    }
  }

  lemma SetFreeSecond(a: nat, b: nat, c: nat)
    ensures SetFree([Block(a, true), Block(b, false), Block(c, true)], 0, a + 4) ==
            [Block(a, true), Block(b, true), Block(c, true)]
  {
    SetFreeBehind(Block(a, true), [Block(b, false), Block(c, true)], 0, a + 4);
    assert [Block(a, true)] + [Block(b, false), Block(c, true)] == [Block(a, true), Block(b, false), Block(c, true)];
  }

  lemma ThreeMerged(h: seq<u32>, a: nat, b: nat, c: nat)
    ensures var bs := [Block(a, true), Block(b, true), Block(c, true)];
      && Merge(bs) == [Block(a + b + c + 8, true)]
      && MergedWords(h, bs, 0) == Swallow(Swallow(h, 0, a + 4, a + 4 + b), 0, a + b + 8, a + b + c + 8)
  {
    var bs, cs := [Block(a, true), Block(b, true), Block(c, true)], [Block(a + 4 + b, true), Block(c, true)];
    var ds := [Block(a + b + c + 8, true)];
    assert [Join(bs[0], bs[1])] + bs[2..] == cs;
    assert [Join(cs[0], cs[1])] + cs[2..] == ds;
    hide Swallow;
    var g := Swallow(h, 0, a + 4, a + 4 + b);
    assert Merge(bs) == Merge(cs) == Merge(ds) == ds;
    assert MergedWords(h, bs, 0) == MergedWords(g, cs, 0);
    assert MergedWords(g, cs, 0) == MergedWords(Swallow(g, 0, a + 4 + b + 4, a + 4 + b + 4 + c), ds, 0);
  }

  /** What `Recycled` comes to. */
  lemma RecycledIs(s: HeapState, a: nat, b: nat)
    requires Whole(s) && 2 <= a && 2 <= b && a + b + 16 <= |s.h|
    ensures var c := |s.h| - a - b - 12; var u := WithFlag(WithFlag(TwoWritten(s.h, a, b), 0, true), a + 4, true);
      Recycled(s, a, b) ==
      HeapState(Swallow(Swallow(u, 0, a + 4, a + 4 + b), 0, a + b + 8, a + b + c + 8), [Block(|s.h| - 4, true)])
  {
    hide HandedWords, Swallow, WithFlag, SetFree, Merge, MergedWords, ListOk, Coalesced;
    var c, h := |s.h| - a - b - 12, TwoWritten(s.h, a, b);
    TwoTaken(s, a, b);
    FirstFreed(h, a, b, c);
    SetFreeSecond(a, b, c);
    var bs := [Block(a, false), Block(b, false), Block(c, true)];
    assert bs[0 := Block(a, true)] == [Block(a, true), Block(b, false), Block(c, true)];
    ThreeMerged(WithFlag(WithFlag(h, 0, true), a + 4, true), a, b, c);
    hide TwoWritten, FreedWords, Free;
  }

  /** Both freed, the headers swallowed are still in memory, flags and all. */
  lemma RecycledWords(s: HeapState, a: nat, b: nat)
    requires Whole(s) && 2 <= a && 2 <= b && a + b + 16 <= |s.h|
    ensures var t := Recycled(s, a, b);
      && |t.h| == |s.h| && t.bs == s.bs
      && t.h[0] == BLOCK_MAGIC && t.h[1] == 4 * (|s.h| - 4) && t.h[2] == 0
      && t.h[a + 4] == BLOCK_MAGIC && t.h[a + 7] == 1
      && forall j | 4 <= j < |s.h| && !(a + 4 <= j < a + 8) && !(a + b + 8 <= j < a + b + 12) :: t.h[j] == s.h[j]
  {
    FirstHeader(s.h, s.bs);
    TwoTakenWords(s.h, a, b);
    RecycledIs(s, a, b);
    hide Recycled, TwoWritten;
  }

  /** The four calls are a run. */
  lemma RecycledRun(s: HeapState, a: nat, b: nat)
    requires Whole(s) && 2 <= a && 2 <= b && a + b + 16 <= |s.h| && a % 2 == b % 2 == 0
    ensures var t := After(s, Take(a)); var u := After(t, Take(b)); var v := After(u, Give(0));
      && Steps(s, Take(a), t) && Steps(t, Take(b), u) && Steps(u, Give(0), v)
      && Steps(v, Give(a + 4), Recycled(s, a, b)) && Whole(Recycled(s, a, b))
      && (AllGenuine(s) ==> AllGenuine(Recycled(s, a, b)))
  {
    hide HandedWords, FreedWords, ListOk, Coalesced, Genuine, Alloc, HasFit, AllocAt, Exact;
    var t := After(s, Take(a));
    var u := After(t, Take(b));
    var v := After(u, Give(0));
    TwoTaken(s, a, b);
    StepKeepsGenuine(s, Take(a), t);
    StepKeepsGenuine(t, Take(b), u);
    Single(Block(|s.h| - a - b - 12, true), a + b + 8);
    assert Live(u.bs, 0) == {0, a + 4} by { assert u.bs[1..] == [u.bs[1], u.bs[2]]; }
    StepKeepsGenuine(u, Give(0), v);
    FreedIs(u.h, u.bs, 0);
    StepKeepsGenuine(v, Give(a + 4), Recycled(s, a, b));
    RecycledIs(s, a, b);
  }

  /** A heap in which `kmalloc(8)` was called twice, both blocks were freed, and
      `kmalloc(40)` has handed out the first. The header swallowed in between lies in
      its payload, and a client that clears the word that was the flag has forged a
      header without ever writing the magic word. */
  lemma StaleHeader(s: HeapState)
    requires Whole(s) && AllGenuine(s) && 24 <= |s.h|
    ensures var t := After(Recycled(s, 2, 2), Take(10)); var u := After(t, Write(9, 0));
      && Steps(Recycled(s, 2, 2), Take(10), t) && Exact(t.h, t.bs)
      && Steps(t, Write(9, 0), u) && Kept(u) && LooksLive(u.h, 6) && 6 !in Live(u.bs, 0)
  {
    hide FreedWords, ListOk, Coalesced, Genuine, Alloc, HasFit, AllocAt, Exact, Handed;
    RecycledRun(s, 2, 2);
    RecycledWords(s, 2, 2);
    var r := Recycled(s, 2, 2);
    var t := After(r, Take(10));
    hide Recycled;
    OneBlock(r.bs, |s.h| - 4, 10);
    StepKeepsGenuine(r, Take(10), t);
    GenuineIsExact(t.h, t.bs);
    assert InPayload(t.bs, 0, 9);
    StepKeepsGenuine(t, Write(9, 0), After(t, Write(9, 0)));
    assert t.h[6] == r.h[6];
  }

  /** Exactness is less than what calls keep. After `kmalloc(40)` a client stores 1 and
      then the magic word, and both stores leave `kfree` exact; but when the block is
      freed and `kmalloc(8)` puts a header behind that word, it looks live, and its
      `kfree` cuts the list. */
  lemma ExactIsNotKept(s: HeapState)
    requires Whole(s) && AllGenuine(s) && 24 <= |s.h|
    ensures var t := After(s, Take(10)); var u := After(t, Write(8, 1)); var v := After(u, Write(5, BLOCK_MAGIC));
      var w := After(v, Give(0)); var z := After(w, Take(2));
      && IsRun([s, t, u, v, w, z], [Take(10), Write(8, 1), Write(5, BLOCK_MAGIC), Give(0), Take(2)])
      && Exact(t.h, t.bs) && Exact(u.h, u.bs) && Exact(v.h, v.bs)
      && LooksLive(z.h, 5) && 5 !in Live(z.bs, 0) && NoList(z.h[8 := 1])
  {
    hide FreedWords, HandedWords, ListOk, Coalesced, Genuine, Alloc, HasFit, AllocAt, Exact, Handed, NoList, CutsEnd,
      LooksLive;
    var t := After(s, Take(10));
    var u := After(t, Write(8, 1));
    var v := After(u, Write(5, BLOCK_MAGIC));
    var w := After(v, Give(0));
    OneBlock(s.bs, |s.h| - 4, 10);
    StepKeepsGenuine(s, Take(10), t);
    GenuineIsExact(t.h, t.bs);
    assert InPayload(t.bs, 0, 8) && InPayload(t.bs, 0, 5);
    StepKeepsGenuine(t, Write(8, 1), u);
    GenuineIsExact(u.h, u.bs);
    StoreExact(u.h, u.bs, 5, BLOCK_MAGIC);
    StepKeepsGenuine(u, Write(5, BLOCK_MAGIC), v);
    PayloadOffHeader(v.bs, 0, 5);
    FreedElsewhere(v.h, v.bs, 0, 5);
    StepKeepsGenuine(v, Give(0), w);
    FreedIs(v.h, v.bs, 0);
    ListNonEmpty(w.h, w.bs);
    NothingLive(w.bs, 0);
    ListExtent(w.h, w.bs);
    OddMagicForges(w, 5);
    ForgedCut(After(w, Take(2)).h, After(w, Take(2)).bs, 5);
  }
}
