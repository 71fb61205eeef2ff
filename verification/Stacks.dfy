/** Task stacks as live heap blocks, and the context that a switch leaves on one. */
module Stacks {
  import opened Words
  import opened Blocks
  import opened HeapWords
  import opened HeapSteps

  // TASK_STACK_SIZE, 8192 bytes, is 2048 words.

  /** What `context_switch` keeps of a task: the flags, the eight registers that
      `pusha` stores, and the address to return to. */
  datatype Context = Context(eflags: u32, edi: u32, esi: u32, ebp: u32, esp: u32,
                             ebx: u32, edx: u32, ecx: u32, eax: u32, eip: u32)

  /** The saved context in memory, from the saved stack pointer up. */
  function Frame(c: Context): (ws: seq<u32>)
    ensures |ws| == 10
  {
    [c.eflags, c.edi, c.esi, c.ebp, c.esp, c.ebx, c.edx, c.ecx, c.eax, c.eip]
  }

  predicate FrameAt(stack: seq<u32>, k: nat, c: Context) {
    k + 10 <= |stack| && stack[k..k + 10] == Frame(c)
  }

  /** `pusha` from word `k` down, with the registers of `c`. */
  function PushedRegisters(stack: seq<u32>, k: nat, c: Context): (s: seq<u32>)
    requires 8 <= k <= |stack|
    ensures |s| == |stack|
  {
    stack[k - 1 := c.eax][k - 2 := c.ecx][k - 3 := c.edx][k - 4 := c.ebx]
      [k - 5 := c.esp][k - 6 := c.ebp][k - 7 := c.esi][k - 8 := c.edi]
  }

  /** `pusha` stores neither the flags nor the instruction pointer. */
  lemma OtherRegisters(stack: seq<u32>, k: nat, c: Context, d: Context)
    requires 8 <= k <= |stack| && c.(eip := d.eip, eflags := d.eflags) == d
    ensures PushedRegisters(stack, k, c) == PushedRegisters(stack, k, d)
  {
  }

  /** A whole context pushed from word `k` down. */
  function Pushed(stack: seq<u32>, k: nat, c: Context): seq<u32> {
    if 10 <= k <= |stack| then PushedRegisters(stack[k - 1 := c.eip], k - 1, c)[k - 10 := c.eflags] else stack
  }

  /** What a switch saves of the processor's registers `c`: `pusha` runs after the
      return address `ret` has been pushed. */
  function Leaving(c: Context, ret: u32): Context { c.(esp := Sub32(c.esp, 4), eip := ret) }

  /** What the processor has after a switch to a task that left `c` at `esp`. */
  function Resumed(c: Context, esp: u32): Context { c.(esp := Add32(esp, 40)) }

  lemma PushedFrame(stack: seq<u32>, k: nat, c: Context)
    requires 10 <= k <= |stack|
    ensures FrameAt(Pushed(stack, k, c), k - 10, c)
    ensures |Pushed(stack, k, c)| == |stack|
    ensures forall j: nat | j < |stack| && !(k - 10 <= j < k) :: Pushed(stack, k, c)[j] == stack[j]
  {
  }

  /** What `popa` finds from word `k` up. */
  predicate RegistersAt(stack: seq<u32>, k: nat, c: Context) {
    && k + 8 <= |stack|
    && stack[k] == c.edi && stack[k + 1] == c.esi && stack[k + 2] == c.ebp
    && stack[k + 4] == c.ebx && stack[k + 5] == c.edx && stack[k + 6] == c.ecx && stack[k + 7] == c.eax
  }

  lemma FrameSlots(stack: seq<u32>, k: nat, c: Context)
    requires FrameAt(stack, k, c)
    ensures k + 10 <= |stack| && RegistersAt(stack, k + 1, c)
    ensures stack[k] == c.eflags && stack[k + 1] == c.edi && stack[k + 2] == c.esi && stack[k + 3] == c.ebp
    ensures stack[k + 4] == c.esp && stack[k + 5] == c.ebx && stack[k + 6] == c.edx && stack[k + 7] == c.ecx
    ensures stack[k + 8] == c.eax && stack[k + 9] == c.eip
  {
    assert forall i | 0 <= i < 10 :: stack[k + i] == stack[k..k + 10][i] == Frame(c)[i];
  }

  /** The context of a task that has not run: all registers 0, interrupts on. */
  function Fresh(entry: u32): Context { Context(0x202, 0, 0, 0, 0, 0, 0, 0, 0, entry) }

  /** A live block with room for a stack, whose payload starts at heap word `w`. */
  ghost predicate StackOk(bs: seq<Block>, w: nat) {
    w >= 4 && w - 4 in Live(bs, 0) && forall j: nat | w <= j < w + 2048 :: InPayload(bs, 0, j)
  }

  /** The words of the stack at `w`. */
  ghost function StackWords(h: seq<u32>, w: nat): seq<u32> {
    if w + 2048 <= |h| then h[w..w + 2048] else []
  }

  lemma NoPayloadAtHeader(bs: seq<Block>, at: nat)
    ensures !InPayload(bs, at, at)
  {
    if InPayload(bs, at, at) {
      PayloadRange(bs, at, at);
    }
  }

  /** A live block whose first `n` payload words are payload has room for them. */
  lemma {:induction false} LiveSpan(bs: seq<Block>, at: nat, i: nat, n: nat)
    requires i in Live(bs, at)
    requires forall j: nat | i + 4 <= j < i + 4 + n :: InPayload(bs, at, j)
    ensures exists b :: IsBlock(bs, at, i, b) && !b.free && b.len >= n
  {
    var next := at + 4 + bs[0].len;
    LiveRange(bs[1..], next);
    if i == at && !bs[0].free {
      NoPayloadAtHeader(bs[1..], next);
      assert !InPayload(bs, at, next);
      assert IsBlock(bs, at, i, bs[0]);
    } else {
      assert i >= next;
      forall j: nat | i + 4 <= j < i + 4 + n ensures InPayload(bs[1..], next, j) {
        assert InPayload(bs, at, j);
      }
      LiveSpan(bs[1..], next, i, n);
      var b :| IsBlock(bs[1..], next, i, b) && !b.free && b.len >= n;
      assert IsBlock(bs, at, i, b);
    }
  }

  lemma StackIsBlock(bs: seq<Block>, w: nat)
    requires StackOk(bs, w)
    ensures exists b :: IsBlock(bs, 0, w - 4, b) && b.len >= 2048
  {
    LiveSpan(bs, 0, w - 4, 2048);
    var b :| IsBlock(bs, 0, w - 4, b) && !b.free && b.len >= 2048;
  }

  /** Two stacks are the same or share no word. */
  lemma StacksApart(bs: seq<Block>, w: nat, v: nat)
    requires StackOk(bs, w) && StackOk(bs, v)
    ensures w == v || w + 2048 <= v || v + 2048 <= w
  {
    StackIsBlock(bs, w);
    StackIsBlock(bs, v);
    var b :| IsBlock(bs, 0, w - 4, b) && b.len >= 2048;
    var c :| IsBlock(bs, 0, v - 4, c) && c.len >= 2048;
    BlocksApart(bs, 0, w - 4, b, v - 4, c);
  }

  lemma StackInHeap(h: seq<u32>, bs: seq<Block>, w: nat)
    requires ListOk(h, bs) && StackOk(bs, w)
    ensures w + 2048 <= |h| && |StackWords(h, w)| == 2048
    ensures forall j: nat | w <= j < w + 2048 :: InPayload(bs, 0, j)
  {
    assert InPayload(bs, 0, w + 2047);
    PayloadRange(bs, 0, w + 2047);
  }

  /** What respects the payloads respects the stacks. */
  lemma StackKept(h: seq<u32>, h': seq<u32>, bs: seq<Block>, w: nat)
    requires ListOk(h, bs) && StackOk(bs, w) && SamePayload(h, h', bs)
    ensures StackWords(h', w) == StackWords(h, w)
  {
    StackInHeap(h, bs, w);
  }

  /** A store into stack `w` is seen there and in no other stack. */
  lemma StackPoked(h: seq<u32>, bs: seq<Block>, w: nat, k: nat, x: u32, v: nat)
    requires ListOk(h, bs) && StackOk(bs, w) && StackOk(bs, v) && k < 2048
    ensures w + k < |h| && |StackWords(h, w)| == 2048
    ensures StackWords(h[w + k := x], w) == StackWords(h, w)[k := x]
    ensures v != w ==> StackWords(h[w + k := x], v) == StackWords(h, v)
  {
    StackInHeap(h, bs, w);
    StackInHeap(h, bs, v);
    StacksApart(bs, w, v);
  }

  /** A request granted leaves every stack a stack, and none of them is the new
      block; a request for 8192 bytes makes one more. */
  lemma StackGranted(h: seq<u32>, h': seq<u32>, bs: seq<Block>, cs: seq<Block>, n: nat, i: nat, clean: bool, w: nat)
    requires Granted(h, h', bs, cs, n, i, clean)
    ensures n >= 2048 ==> StackOk(cs, i + 4)
    ensures StackOk(bs, w) ==> StackOk(cs, w) && w != i + 4
  {
    hide ListOk, Coalesced, SamePayload, Genuine;
    if StackOk(bs, w) {
      assert w - 4 in Live(cs, 0);
    }
  }

  lemma PayloadSurvives(bs: seq<Block>, i: nat, b: Block, j: nat)
    requires IsBlock(bs, 0, i, b) && InPayload(bs, 0, j) && !(i + 4 <= j < i + 4 + b.len)
    ensures InPayload(Free(bs, i), 0, j)
  {
    SetFreePayload(bs, 0, i, j);
    MergePayload(SetFree(bs, 0, i), 0, j);
  }

  /** Freeing another block leaves a stack a stack. */
  lemma StackSurvives(bs: seq<Block>, i: nat, w: nat)
    requires i in Live(bs, 0) && StackOk(bs, w) && w != i + 4
    requires Live(Free(bs, i), 0) == Live(bs, 0) - {i}
    ensures StackOk(Free(bs, i), w)
  {
    LiveIsBlock(bs, 0, i);
    var b :| IsBlock(bs, 0, i, b) && !b.free;
    StackIsBlock(bs, w);
    var c :| IsBlock(bs, 0, w - 4, c) && c.len >= 2048;
    BlocksApart(bs, 0, i, b, w - 4, c);
    forall j: nat | w <= j < w + 2048 ensures InPayload(Free(bs, i), 0, j) {
      PayloadSurvives(bs, i, b, j);
    }
  }

  // ---- stacks and genuine headers ----

  /** Nothing outside the stack at `w` differs. */
  ghost predicate StackOnly(h: seq<u32>, h': seq<u32>, w: nat) {
    |h'| == |h| && forall j: nat | j < |h| && !(w <= j < w + 2048) :: h'[j] == h[j]
  }

  /** The word behind the stack at `w` that would be the flag of a header at its last
      even word is there and not zero. */
  ghost predicate BehindStack(h: seq<u32>, w: nat) { w + 2049 < |h| && h[w + 2049] != 0 }

  /** The word three behind word `j` of the stack `s` at `w` is not zero. */
  ghost predicate Flagged(h: seq<u32>, w: nat, s: seq<u32>, j: nat) {
    if j + 3 < |s| then s[j + 3] != 0 else BehindStack(h, w)
  }

  /** Words `lo` to `hi` of the stack `s` at `w`, just written, make no header look
      live: the magic word stands at even words only, with a word that is not zero
      three words on. */
  ghost predicate Sparing(h: seq<u32>, w: nat, s: seq<u32>, lo: nat, hi: nat) {
    forall j: nat | j < |s| && lo <= j + 3 && j < hi && s[j] == BLOCK_MAGIC ::
      j % 2 == 0 && Flagged(h, w, s, j)
  }

  /** The ten words that a switch away pushes from word `k` down are sparing. */
  ghost predicate SwitchSpares(h: seq<u32>, w: nat, s: seq<u32>, k: nat, c: Context) {
    Sparing(h, w, Pushed(s, k, c), if k < 10 then 0 else k - 10, k)
  }

  /** The header before a stack does not hold the magic word in its last three words. */
  lemma HeaderBefore(h: seq<u32>, bs: seq<Block>, w: nat)
    requires ListOk(h, bs) && StackOk(bs, w)
    ensures w % 2 == 0 && w + 2048 <= |h|
    ensures h[w - 3] != BLOCK_MAGIC && h[w - 2] != BLOCK_MAGIC && h[w - 1] != BLOCK_MAGIC
  {
    StackInHeap(h, bs, w);
    hide StackOk, Live, InPayload, Shaped, Linked;
    var pre, b, d := Locate(bs, 0, w - 4);
    assert ([b] + d)[1..] == d;
    Stand(h, pre, [b] + d, w - 4, w + b.len);
  }

  /** Nothing outside words `lo` to `hi` differs. */
  ghost predicate SameBut(h: seq<u32>, h': seq<u32>, lo: nat, hi: nat) {
    |h'| == |h| && forall i: nat | i < |h| && !(lo <= i < hi) :: h'[i] == h[i]
  }

  lemma StackPart(h: seq<u32>, h': seq<u32>, w: nat, lo: nat, hi: nat)
    requires StackOnly(h, h', w) && lo <= hi <= 2048 && w + 2048 <= |h|
    requires forall j: nat | j < 2048 && !(lo <= j < hi) :: StackWords(h', w)[j] == StackWords(h, w)[j]
    ensures SameBut(h, h', w + lo, w + hi)
  {
    forall i: nat | i < |h| && !(w + lo <= i < w + hi) ensures h'[i] == h[i] {
      if w <= i < w + 2048 {
        assert StackWords(h', w)[i - w] == StackWords(h, w)[i - w];
      }
    }
  }

  lemma Spared(h: seq<u32>, h': seq<u32>, live: set<nat>, w: nat, lo: nat, hi: nat, i: nat)
    requires Genuine(h, live) && SameBut(h, h', w + lo, w + hi) && w % 2 == 0 && 4 <= w && w + 2048 <= |h|
    requires h[w - 3] != BLOCK_MAGIC && h[w - 2] != BLOCK_MAGIC && h[w - 1] != BLOCK_MAGIC && lo < hi <= 2048
    requires Sparing(h, w, StackWords(h', w), lo, hi) && i < |h'| && h'[i] == BLOCK_MAGIC
    ensures i % 2 == 0 && i + 4 <= |h'| && (h'[i + 3] == 0 ==> i in live)
  {
    if w + lo <= i + 3 && w <= i < w + hi {
      var j := i - w;
      assert |StackWords(h', w)| == 2048 && StackWords(h', w)[j] == h'[i];
      if j + 3 < 2048 {
        assert StackWords(h', w)[j + 3] == h'[i + 3];
      } else {
        assert j == 2046 && BehindStack(h, w) && h'[w + 2049] == h[w + 2049];
      }
    } else {
      assert h[i] == BLOCK_MAGIC;
    }
  }

  lemma SparingNeeded(h: seq<u32>, h': seq<u32>, live: set<nat>, w: nat, lo: nat, hi: nat, j: nat)
    requires Genuine(h', live) && SameBut(h, h', w + lo, w + hi) && w % 2 == 0 && w + 2048 <= |h| && lo < hi <= 2048
    requires j < 2048 && StackWords(h', w)[j] == BLOCK_MAGIC && w + j !in live
    ensures j % 2 == 0 && Flagged(h, w, StackWords(h', w), j)
  {
    var i := w + j;
    assert h'[i] == BLOCK_MAGIC;
    assert j + 3 < 2048 ==> StackWords(h', w)[j + 3] == h'[i + 3];
  }

  /** New words on a stack keep headers genuine if and only if they are sparing. */
  lemma StackRewritten(h: seq<u32>, h': seq<u32>, bs: seq<Block>, w: nat, lo: nat, hi: nat)
    requires ListOk(h, bs) && StackOk(bs, w) && SameBut(h, h', w + lo, w + hi) && lo < hi <= 2048
    requires Genuine(h, Live(bs, 0))
    ensures |StackWords(h', w)| == 2048
    ensures Genuine(h', Live(bs, 0)) <==> Sparing(h, w, StackWords(h', w), lo, hi)
  {
    StackInHeap(h, bs, w);
    HeaderBefore(h, bs, w);
    var live, s := Live(bs, 0), StackWords(h', w);
    if Sparing(h, w, s, lo, hi) {
      forall i: nat | i < |h'| && h'[i] == BLOCK_MAGIC
        ensures i % 2 == 0 && i + 4 <= |h'| && (h'[i + 3] == 0 ==> i in live)
      {
        Spared(h, h', live, w, lo, hi, i);
      }
    }
    if Genuine(h', live) {
      forall j: nat | j < |s| && lo <= j + 3 && j < hi && s[j] == BLOCK_MAGIC
        ensures j % 2 == 0 && Flagged(h, w, s, j)
      {
        PayloadNotLive(bs, 0, w + j);
        SparingNeeded(h, h', live, w, lo, hi, j);
      }
      assert Sparing(h, w, s, lo, hi);
    }
  }

  /** Only the word behind a stack matters beyond it. */
  lemma SparingSame(h: seq<u32>, g: seq<u32>, w: nat, s: seq<u32>, k: nat, c: Context)
    requires BehindStack(h, w) <==> BehindStack(g, w)
    ensures SwitchSpares(h, w, s, k, c) <==> SwitchSpares(g, w, s, k, c)
  {
    hide BehindStack, Pushed;
    assert forall j: nat :: Flagged(h, w, Pushed(s, k, c), j) <==> Flagged(g, w, Pushed(s, k, c), j);
  }

  lemma NextHeader(h: seq<u32>, i: nat, b: Block, next: nat)
    requires Header(h, i, b, next) && b.len > 0
    ensures i + 4 <= |h| && h[i + 1] != 0
  {
  }

  /** The block that a stack is in has room for it. */
  lemma StackFills(bs: seq<Block>, pre: seq<Block>, b: Block, d: seq<Block>, w: nat)
    requires StackOk(bs, w) && bs == pre + ([b] + d) && w - 4 == Extent(pre)
    ensures b.len >= 2048
  {
    if b.len < 2048 {
      var j := w + b.len;
      assert InPayload(bs, 0, j);
      PayloadAppend(pre, [b] + d, 0, Extent(pre), j);
      assert ([b] + d)[1..] == d;
      if InPayload(pre, 0, j) {
        PayloadRange(pre, 0, j);
      }
      NoPayloadAtHeader(d, j);
    }
  }

  lemma BlockPayload(pre: seq<Block>, b: Block, d: seq<Block>, i: nat)
    requires !b.free && i == Extent(pre)
    ensures forall j: nat | i + 4 <= j < i + 4 + b.len :: InPayload(pre + ([b] + d), 0, j)
  {
    forall j: nat | i + 4 <= j < i + 4 + b.len ensures InPayload(pre + ([b] + d), 0, j) {
      PayloadAppend(pre, [b] + d, 0, i, j);
    }
  }

  /** A word behind a stack is in the slack of its block, in the next header, or
      behind the heap. */
  lemma BehindCases(h: seq<u32>, bs: seq<Block>, w: nat)
    requires ListOk(h, bs) && StackOk(bs, w)
    ensures w + 2048 == |h| || InPayload(bs, 0, w + 2049) || BehindStack(h, w)
    ensures w + 2048 <= |h| && (InPayload(bs, 0, w + 2049) ==> w + 2049 < |h|)
  {
    StackInHeap(h, bs, w);
    if InPayload(bs, 0, w + 2049) {
      PayloadRange(bs, 0, w + 2049);
    }
    hide ListOk, StackOk, Live, InPayload, BehindStack;
    var pre, b, d := StackBlock(bs, w);
    BehindBlock(h, bs, pre, b, d, w);
  }

  lemma StackBlock(bs: seq<Block>, w: nat) returns (pre: seq<Block>, b: Block, d: seq<Block>)
    requires StackOk(bs, w)
    ensures bs == pre + ([b] + d) && w - 4 == Extent(pre) && !b.free && b.len >= 2048
  {
    hide Live, InPayload, SetFree;
    pre, b, d := Locate(bs, 0, w - 4);
    StackFills(bs, pre, b, d, w);
  }

  lemma BehindBlock(h: seq<u32>, bs: seq<Block>, pre: seq<Block>, b: Block, d: seq<Block>, w: nat)
    requires ListOk(h, bs) && bs == pre + ([b] + d) && 4 <= w && w - 4 == Extent(pre) && !b.free && b.len >= 2048
    ensures w + 2048 == |h| || InPayload(bs, 0, w + 2049) || BehindStack(h, w)
  {
    hide ListOk, Header, InPayload;
    assert ([b] + d)[1..] == d;
    Stand(h, pre, [b] + d, w - 4, w + b.len);
    BlockPayload(pre, b, d, w - 4);
    if b.len > 2048 {
      assert b.len >= 2050;
    } else if d == [] {
      assert pre + ([b] + d) == pre + [b];
      LastBlock(h, pre, b, w - 4);
    } else {
      NextHeader(h, w + b.len, d[0], First(d[1..], w + b.len + 4 + d[0].len, 0));
    }
  }

  /** Freeing another block does not change what is behind a stack. */
  lemma BehindFreed(h: seq<u32>, h': seq<u32>, bs: seq<Block>, i: nat, w: nat)
    requires ListOk(h, bs) && Freed(h, h', bs, i) && i in Live(bs, 0) && StackOk(bs, w) && w != i + 4
    ensures BehindStack(h', w) <==> BehindStack(h, w)
  {
    hide ListOk, SamePayload, Free, Genuine, Coalesced, StackOk;
    StackSurvives(bs, i, w);
    BehindCases(h, bs, w);
    BehindCases(h', Free(bs, i), w);
    if InPayload(bs, 0, w + 2049) {
      SlackSurvives(bs, i, w);
      SlackKept(h, h', Free(bs, i), w + 2049);
    }
  }

  lemma SlackKept(h: seq<u32>, h': seq<u32>, bs: seq<Block>, j: nat)
    requires SamePayload(h, h', bs) && InPayload(bs, 0, j) && j < |h|
    ensures j < |h'| && h'[j] == h[j]
  {
  }

  lemma SlackSurvives(bs: seq<Block>, i: nat, w: nat)
    requires i in Live(bs, 0) && StackOk(bs, w) && w != i + 4 && InPayload(bs, 0, w + 2049)
    ensures InPayload(Free(bs, i), 0, w + 2049)
  {
    LiveIsBlock(bs, 0, i);
    var b :| IsBlock(bs, 0, i, b) && !b.free;
    StackIsBlock(bs, w);
    var c :| IsBlock(bs, 0, w - 4, c) && c.len >= 2048;
    BlocksApart(bs, 0, i, b, w - 4, c);
    PayloadSurvives(bs, i, b, w + 2049);
  }

  /** What `task_create` writes at the top of the new stack is sparing: the word below
      it must not be the magic word, nor the addresses of the task's code, except
      that of its entry when the word behind the stack is not zero. */
  ghost predicate SpawnSpares(h: seq<u32>, w: nat, entry: u32, exit: u32) {
    && w + 2048 <= |h| && h[w + 2036] != BLOCK_MAGIC && exit != BLOCK_MAGIC
    && (entry == BLOCK_MAGIC ==> BehindStack(h, w))
  }

  lemma StackCrafted(h: seq<u32>, h': seq<u32>, bs: seq<Block>, w: nat, entry: u32, exit: u32)
    requires ListOk(h, bs) && StackOk(bs, w) && SameBut(h, h', w + 2037, w + 2048) && Genuine(h, Live(bs, 0))
    requires var s := StackWords(h', w);
      && |s| == 2048 && s[2037] == 0x202 && s[2046] == entry && s[2047] == exit
      && forall j | 2038 <= j < 2046 :: s[j] == 0
    ensures Genuine(h', Live(bs, 0)) <==> SpawnSpares(h', w, entry, exit)
  {
    StackRewritten(h, h', bs, w, 2037, 2048);
    HeaderBefore(h, bs, w);
    var s := StackWords(h', w);
    assert s[2035] == h'[w + 2035] == h[w + 2035] && s[2036] == h'[w + 2036];
    assert BehindStack(h', w) <==> BehindStack(h, w);
    hide StackOk, ListOk, Live, StackWords, BehindStack;
    CraftedSparing(h, w, s, entry, exit);
  }

  lemma CraftedSparing(h: seq<u32>, w: nat, s: seq<u32>, entry: u32, exit: u32)
    requires |s| == 2048 && s[2035] != BLOCK_MAGIC && s[2037] == 0x202 && s[2046] == entry && s[2047] == exit
    requires forall j | 2038 <= j < 2046 :: s[j] == 0
    ensures Sparing(h, w, s, 2037, 2048) <==>
            s[2036] != BLOCK_MAGIC && exit != BLOCK_MAGIC && (entry == BLOCK_MAGIC ==> BehindStack(h, w))
  {
    hide BehindStack;
    assert Flagged(h, w, s, 2034) && !Flagged(h, w, s, 2036) && (Flagged(h, w, s, 2046) <==> BehindStack(h, w));
  }
}
