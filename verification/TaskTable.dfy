/** The task table together with the memory its stacks lie in: what isolation of
    the tasks means, and why each step of the kernel keeps it. */
module TaskTable {
  import opened Words
  import opened Blocks
  import opened HeapWords
  import opened HeapSteps
  import opened Forgery
  import opened RoundRobin
  import opened Stacks
  import opened TaskRuns

  /** `task_t`, without its name. */
  datatype Task = Task(esp: u32, stackBase: u32, id: u32, state: State, slices: u32, counter: u32)

  const NO_TASK := Task(0, 0, 0, Unused, 0, 0)

  /** The heap word at which the stack of `t` starts. */
  function StackAt(t: Task): nat { WordAt(t.stackBase) }

  /** Which word of the heap is at address `addr`. */
  function WordAt(addr: u32): nat { if addr >= 0xC000_0000 then (addr - 0xC000_0000) / 4 else 0 }

  /** The table, the heap's words and blocks, the words of the boot stack and
      where it starts; and, as history, the stack and the context of each task
      at the time it was last left. */
  datatype Machine = Machine(ts: seq<Task>, h: seq<u32>, bs: seq<Block>, boot: seq<u32>, lo: nat,
                             image: seq<seq<u32>>, saved: seq<Context>)

  ghost predicate Used(m: Machine, i: nat) {
    i < 8 && i < |m.ts| && m.ts[i].state != Unused
  }

  /** The stack of task `i`: slot 0 runs on the boot stack. */
  ghost function StackOf(m: Machine, i: nat): seq<u32> {
    if i == 0 || i >= |m.ts| then m.boot else StackWords(m.h, StackAt(m.ts[i]))
  }

  function Base(m: Machine, i: nat): nat {
    if i == 0 || i >= |m.ts| then m.lo else m.ts[i].stackBase
  }

  /** The stack pointer `esp` into `stack`, which starts at `base`, has the
      context `c` above it. */
  ghost predicate ParkedAt(esp: u32, base: nat, stack: seq<u32>, c: Context) {
    base <= esp && (esp - base) % 4 == 0 && FrameAt(stack, (esp - base) / 4, c)
  }

  /** Every task in use has a live heap block of its own for a stack. */
  ghost predicate Laid(m: Machine) {
    && |m.ts| == 8 && |m.boot| == 4096
    && (forall i | 0 < i < 8 && Used(m, i) ::
          StackOk(m.bs, StackAt(m.ts[i])) && m.ts[i].stackBase == Addr(StackAt(m.ts[i])))
    && (forall i, j | 0 < i < 8 && 0 < j < 8 && i != j && Used(m, i) && Used(m, j) ::
          StackAt(m.ts[i]) != StackAt(m.ts[j]))
  }

  /** Every task but the one the processor is on has its stack exactly as it left
      it, with its context at the saved stack pointer. */
  ghost predicate Parked(m: Machine, on: nat) {
    && |m.image| == 8 && |m.saved| == 8
    && forall i: nat | Used(m, i) && i != on ::
         StackOf(m, i) == m.image[i] && ParkedAt(m.ts[i].esp, Base(m, i), m.image[i], m.saved[i])
  }

  /** Isolation. */
  ghost predicate Isolated(m: Machine, on: nat) {
    ListOk(m.h, m.bs) && Laid(m) && Parked(m, on)
  }

  /** What slot `i` holds. */
  ghost function SeatOf(m: Machine, i: nat): Seat {
    if Used(m, i) then Seat(m.ts[i].esp, Base(m, i), StackOf(m, i)) else Vacant
  }

  ghost function SeatsOf(m: Machine): (ss: seq<Seat>)
    ensures |ss| == 8
  {
    seq(8, i requires 0 <= i < 8 => SeatOf(m, i))
  }

  function States(ts: seq<Task>): (ss: seq<State>)
    ensures |ss| == |ts|
  {
    seq(|ts|, i requires 0 <= i < |ts| => ts[i].state)
  }

  lemma StatesSet(ts: seq<Task>, i: nat, t: Task)
    requires i < |ts|
    ensures States(ts[i := t]) == States(ts)[i := t.state]
  {
  }

  lemma LaidSize(m: Machine)
    requires Laid(m)
    ensures |m.ts| == 8
  {
  }

  /** At the start only task 0 is in use. */
  lemma FirstMachine(m: Machine)
    requires ListOk(m.h, m.bs) && |m.ts| == 8 && |m.boot| == 4096 && |m.image| == 8 && |m.saved| == 8
    requires forall i | 0 < i < 8 :: m.ts[i].state == Unused
    ensures Isolated(m, 0)
  {
  }

  // ---- the heap under the stacks ----

  /** A request granted to anybody moves no stack. */
  lemma Allocated(m: Machine, on: nat, h': seq<u32>, cs: seq<Block>, n: nat, i: nat, clean: bool)
    requires Isolated(m, on) && Granted(m.h, h', m.bs, cs, n, i, clean)
    ensures Isolated(m.(h := h', bs := cs), on)
    ensures StackOf(m.(h := h', bs := cs), on) == StackOf(m, on) || !Used(m, on)
    ensures forall k | 0 < k < 8 && Used(m, k) :: StackAt(m.ts[k]) != i + 4
    ensures n >= 2048 ==> StackOk(cs, i + 4)
  {
    var m' := m.(h := h', bs := cs);
    StackGranted(m.h, h', m.bs, cs, n, i, clean, 0);
    GrantedFacts(m.h, h', m.bs, cs, n, i, clean);
    hide ListOk, StackOk, StackWords, Granted, SamePayload;
    forall k | 0 < k < 8 && Used(m, k)
      ensures StackOk(cs, StackAt(m.ts[k])) && StackAt(m.ts[k]) != i + 4 && StackOf(m', k) == StackOf(m, k)
    {
      StackGranted(m.h, h', m.bs, cs, n, i, clean, StackAt(m.ts[k]));
      StackKept(m.h, h', m.bs, StackAt(m.ts[k]));
    }
  }

  lemma GrantedFacts(h: seq<u32>, h': seq<u32>, bs: seq<Block>, cs: seq<Block>, n: nat, i: nat, clean: bool)
    requires Granted(h, h', bs, cs, n, i, clean)
    ensures ListOk(h', cs) && SamePayload(h, h', bs)
  {
  }

  lemma FreedFacts(h: seq<u32>, h': seq<u32>, bs: seq<Block>, i: nat)
    requires Freed(h, h', bs, i)
    ensures ListOk(h', Free(bs, i)) && SamePayload(h, h', Free(bs, i)) && |h'| == |h|
    ensures Live(Free(bs, i), 0) == Live(bs, 0) - {i}
  {
  }

  lemma StackFreed(h: seq<u32>, h': seq<u32>, bs: seq<Block>, i: nat, w: nat)
    requires ListOk(h, bs) && Freed(h, h', bs, i) && i in Live(bs, 0) && StackOk(bs, w) && w != i + 4
    ensures StackOk(Free(bs, i), w) && StackWords(h', w) == StackWords(h, w)
  {
    hide ListOk, Freed, SamePayload, Free;
    FreedFacts(h, h', bs, i);
    StackSurvives(bs, i, w);
    StackInHeap(h, bs, w);
    SameWords(h, h', Free(bs, i), w);
  }

  lemma SameWords(h: seq<u32>, h': seq<u32>, bs: seq<Block>, w: nat)
    requires StackOk(bs, w) && SamePayload(h, h', bs) && w + 2048 <= |h| && |h'| == |h|
    ensures StackWords(h', w) == StackWords(h, w)
  {
  }

  /** Freeing a block that is no task's stack moves no stack, either. */
  lemma OtherFreed(m: Machine, on: nat, h': seq<u32>, i: nat)
    requires Isolated(m, on) && Freed(m.h, h', m.bs, i) && i in Live(m.bs, 0)
    requires forall k | 0 < k < 8 && Used(m, k) :: StackAt(m.ts[k]) != i + 4
    ensures Isolated(m.(h := h', bs := Free(m.bs, i)), on)
    ensures Used(m, on) ==> StackOf(m.(h := h', bs := Free(m.bs, i)), on) == StackOf(m, on)
  {
    var m' := m.(h := h', bs := Free(m.bs, i));
    hide ListOk, StackOk, StackWords, Freed, Live, Free;
    FreedFacts(m.h, h', m.bs, i);
    forall k | 0 < k < 8 && Used(m, k)
      ensures StackOk(m'.bs, StackAt(m.ts[k])) && StackOf(m', k) == StackOf(m, k)
    {
      StackFreed(m.h, h', m.bs, i, StackAt(m.ts[k]));
    }
  }

  // ---- stores into stacks ----

  /** A store into a heap stack: into the one the processor is on, or into a new
      one that no task has yet. */
  lemma HeapStackPoked(m: Machine, on: nat, w: nat, k: nat, x: u32)
    requires Isolated(m, on) && StackOk(m.bs, w) && k < 2048
    requires forall i | 0 < i < 8 && Used(m, i) && i != on :: StackAt(m.ts[i]) != w
    requires ListOk(m.h, m.bs)
    ensures w + k < |m.h| && |StackWords(m.h, w)| == 2048
    ensures StackWords(m.h[w + k := x], w) == StackWords(m.h, w)[k := x]
    ensures ListOk(m.h[w + k := x], m.bs) ==> Isolated(m.(h := m.h[w + k := x]), on)
    ensures Used(m, on) && (on == 0 || StackAt(m.ts[on]) != w) ==>
              StackOf(m.(h := m.h[w + k := x]), on) == StackOf(m, on)
  {
    hide ListOk, StackOk, StackWords;
    StackPoked(m.h, m.bs, w, k, x, w);
    var m' := m.(h := m.h[w + k := x]);
    forall i | 0 < i < 8 && Used(m, i) && i != on ensures StackOf(m', i) == StackOf(m, i) {
      StackPoked(m.h, m.bs, w, k, x, StackAt(m.ts[i]));
    }
    if 0 < on && Used(m, on) {
      StackPoked(m.h, m.bs, w, k, x, StackAt(m.ts[on]));
    }
  }

  /** Word `w` of the heap is on the stack of task `k`. */
  ghost predicate OnStack(ts: seq<Task>, k: nat, w: nat) {
    0 < k < |ts| && StackAt(ts[k]) <= w < StackAt(ts[k]) + 2048
  }

  /** No task in use has word `w` of the heap on its stack. */
  ghost predicate OffStacks(ts: seq<Task>, w: nat) {
    forall i | 0 < i < 8 && i < |ts| && ts[i].state != Unused :: !OnStack(ts, i, w)
  }

  /** A store to a heap word that is on no task's stack. */
  lemma WordPoked(m: Machine, on: nat, k: nat, x: u32)
    requires Isolated(m, on) && k < |m.h| && OffStacks(m.ts, k) && ListOk(m.h[k := x], m.bs)
    ensures Isolated(m.(h := m.h[k := x]), on)
    ensures Used(m, on) ==> StackOf(m.(h := m.h[k := x]), on) == StackOf(m, on)
  {
    var m' := m.(h := m.h[k := x]);
    forall i | 0 < i < 8 && Used(m, i) ensures StackOf(m', i) == StackOf(m, i) {
      StackInHeap(m.h, m.bs, StackAt(m.ts[i]));
    }
    hide ListOk, StackOk, StackWords, FrameAt;
  }

  /** Of the heap's words only those on the stack of task `on` differ. */
  ghost predicate OwnOnly(h: seq<u32>, h': seq<u32>, ts: seq<Task>, on: nat) {
    if 0 < on < |ts| then StackOnly(h, h', StackAt(ts[on])) else h' == h
  }

  lemma OwnStore(h: seq<u32>, g: seq<u32>, ts: seq<Task>, on: nat, k: nat, x: u32)
    requires OwnOnly(h, g, ts, on) && 0 < on < |ts| && k < 2048 && StackAt(ts[on]) + k < |g|
    ensures OwnOnly(h, g[StackAt(ts[on]) + k := x], ts, on)
  {
  }

  /** First fit found the block for a new stack at word `w`, and only its top words
      have been written since. */
  ghost predicate FirstFitStack(h: seq<u32>, bs: seq<Block>, h': seq<u32>, bs': seq<Block>, w: nat) {
    && w == AllocAt(bs, 0, 2048) + 4 && bs' == Alloc(bs, 2048)
    && SameBut(HandedWords(h, AllocAt(bs, 0, 2048), 2048), h', w + 2037, w + 2048)
  }

  /** What `task_create` writes to a new stack, seen from the whole heap. */
  lemma CraftedOnly(h: seq<u32>, h': seq<u32>, bs: seq<Block>, w: nat, entry: u32, exit: u32)
    requires ListOk(h, bs) && StackOk(bs, w) && StackOnly(h, h', w) && w + 2048 <= |h|
    requires var s := StackWords(h', w);
      && |s| == 2048 && s[2037] == 0x202 && s[2046] == entry && s[2047] == exit
      && (forall j | 2038 <= j < 2046 :: s[j] == 0)
      && forall j | 0 <= j < 2037 :: s[j] == StackWords(h, w)[j]
    ensures SameBut(h, h', w + 2037, w + 2048)
    ensures Genuine(h, Live(bs, 0)) ==> (Genuine(h', Live(bs, 0)) <==> SpawnSpares(h', w, entry, exit))
  {
    hide StackOk, Genuine, Live, ListOk, SpawnSpares;
    StackPart(h, h', w, 2037, 2048);
    if Genuine(h, Live(bs, 0)) {
      StackCrafted(h, h', bs, w, entry, exit);
    }
  }

  /** A store to a word that is on the running task's stack or on none. */
  lemma OwnOrNone(m: Machine, on: nat, w: nat, x: u32)
    requires Isolated(m, on) && Used(m, on) && on < 8 && w < |m.h| && ListOk(m.h[w := x], m.bs)
    requires OnStack(m.ts, on, w) || OffStacks(m.ts, w)
    ensures Isolated(m.(h := m.h[w := x]), on)
    ensures OnStack(m.ts, on, w) ==> w - StackAt(m.ts[on]) < |StackOf(m, on)|
    ensures StackOf(m.(h := m.h[w := x]), on) ==
            if OnStack(m.ts, on, w) then StackOf(m, on)[w - StackAt(m.ts[on]) := x] else StackOf(m, on)
  {
    hide ListOk, StackOk, StackWords, FrameAt;
    if OnStack(m.ts, on, w) {
      HeapStackPoked(m, on, StackAt(m.ts[on]), w - StackAt(m.ts[on]), x);
    } else {
      WordPoked(m, on, w, x);
    }
  }

  lemma OwnStack(m: Machine, on: nat, k: nat)
    requires Isolated(m, on) && Used(m, on) && on != 0 && k < |StackOf(m, on)|
    ensures |m.ts| == 8 && on < 8 && ListOk(m.h, m.bs) && StackAt(m.ts[on]) + 2048 <= |m.h| && k < 2048
    ensures StackOf(m, on) == StackWords(m.h, StackAt(m.ts[on])) && InPayload(m.bs, 0, StackAt(m.ts[on]) + k)
  {
    hide ListOk, Parked;
    StackInHeap(m.h, m.bs, StackAt(m.ts[on]));
  }

  /** What the running task's stores to its own stack do to the genuineness of
      headers: nothing on the boot stack, on a heap stack what the words say. */
  lemma OwnStored(m: Machine, h': seq<u32>, on: nat, k: nat, x: u32)
    requires Isolated(m, on) && Used(m, on) && OwnOnly(m.h, h', m.ts, on) && Genuine(m.h, Live(m.bs, 0))
    requires k < |StackOf(m, on)|
    requires on != 0 ==> StackWords(h', StackAt(m.ts[on])) == StackOf(m, on)[k := x]
    ensures Genuine(h', Live(m.bs, 0)) <==> on == 0 || Spares(m.h, StackAt(m.ts[on]) + k, x)
  {
    hide Isolated, Genuine, Spares, StackWords, StackOnly, StackOf, ListOk, InPayload, Live;
    if on != 0 {
      var w := StackAt(m.ts[on]);
      OwnStack(m, on, k);
      OneWord(m.h, h', w, k, x);
      PayloadStore(m.h, m.bs, w + k, x);
    }
  }

  lemma OneWord(h: seq<u32>, h': seq<u32>, w: nat, k: nat, x: u32)
    requires StackOnly(h, h', w) && k < 2048 && w + 2048 <= |h|
    requires StackWords(h', w) == StackWords(h, w)[k := x]
    ensures h' == h[w + k := x]
  {
    StackPart(h, h', w, k, k + 1);
    assert h'[w + k] == StackWords(h', w)[k];
  }

  lemma OwnPushed(m: Machine, h': seq<u32>, on: nat, k: nat, c: Context)
    requires Isolated(m, on) && Used(m, on) && OwnOnly(m.h, h', m.ts, on) && Genuine(m.h, Live(m.bs, 0))
    requires 10 <= k <= |StackOf(m, on)|
    requires on != 0 ==> StackWords(h', StackAt(m.ts[on])) == Pushed(StackOf(m, on), k, c)
    ensures Genuine(h', Live(m.bs, 0)) <==>
            on == 0 || SwitchSpares(m.h, StackAt(m.ts[on]), StackOf(m, on), k, c)
  {
    if on != 0 {
      var w := StackAt(m.ts[on]);
      StackInHeap(m.h, m.bs, w);
      PushedFrame(StackOf(m, on), k, c);
      hide Pushed, FrameAt, Genuine, Sparing, ListOk, StackOk, Parked;
      StackPart(m.h, h', w, k - 10, k);
      StackRewritten(m.h, h', m.bs, w, k - 10, k);
    }
  }

  /** Freeing the stack of a task ends the isolation of the tasks ... */
  lemma StackTaken(m: Machine, on: nat, h': seq<u32>, i: nat, k: nat)
    requires Isolated(m, on) && Freed(m.h, h', m.bs, i) && 0 < k < 8 && Used(m, k) && StackAt(m.ts[k]) == i + 4
    ensures !Isolated(m.(h := h', bs := Free(m.bs, i)), on)
  {
    FreedFacts(m.h, h', m.bs, i);
    assert !StackOk(Free(m.bs, i), i + 4);
    hide ListOk, StackOk, StackWords, FrameAt, Free;
    assert Used(m.(h := h', bs := Free(m.bs, i)), k);
  }

  /** ... as does a change of a word on the stack of a task that is not running ... */
  lemma StackSpoilt(m: Machine, on: nat, w: nat, x: u32, k: nat)
    requires Isolated(m, on) && w < |m.h| && m.h[w] != x && 0 < k < 8 && k != on && Used(m, k) && OnStack(m.ts, k, w)
    ensures !Isolated(m.(h := m.h[w := x]), on)
  {
    var m' := m.(h := m.h[w := x]);
    var j := w - StackAt(m.ts[k]);
    StackInHeap(m.h, m.bs, StackAt(m.ts[k]));
    assert StackOf(m, k)[j] == m.h[w] && StackOf(m', k)[j] == x;
    hide ListOk, StackOk, StackWords, FrameAt, StackOf;
    assert Used(m', k);
  }

  /** ... and the loss of the list. */
  lemma ListGone(m: Machine, on: nat)
    requires NoList(m.h)
    ensures !Isolated(m, on)
  {
    hide ListOk;
  }

  lemma StackAddress(m: Machine, on: nat, k: nat)
    requires Isolated(m, on) && 0 < k < 8 && Used(m, k)
    ensures m.ts[k].stackBase == Addr(StackAt(m.ts[k])) && StackAt(m.ts[k]) - 4 in Live(m.bs, 0)
  {
    hide ListOk, Parked;
  }

  /** A store into the boot stack while the kernel task is on it. */
  lemma BootStackPoked(m: Machine, k: nat, x: u32)
    requires Isolated(m, 0) && k < 4096
    ensures Isolated(m.(boot := m.boot[k := x]), 0)
  {
    var m' := m.(boot := m.boot[k := x]);
    assert forall i: nat | Used(m, i) && i != 0 :: StackOf(m', i) == StackOf(m, i);
    hide ListOk, StackOk, StackWords, FrameAt;
  }

  // ---- changes of the table ----

  /** The stacks depend on the table only through who uses which block. */
  lemma SameStacks(m: Machine, m': Machine)
    requires m' == m.(ts := m'.ts, image := m'.image, saved := m'.saved) && |m'.ts| == |m.ts| == 8
    requires forall k | 0 <= k < 8 :: m'.ts[k].stackBase == m.ts[k].stackBase
    requires forall k | 0 <= k < 8 :: m'.ts[k].state == Unused <==> m.ts[k].state == Unused
    ensures forall k: nat :: Used(m', k) <==> Used(m, k)
    ensures forall k: nat :: StackOf(m', k) == StackOf(m, k) && Base(m', k) == Base(m, k)
    ensures Laid(m) ==> Laid(m')
  {
    hide StackOk, StackWords, Addr;
  }

  /** A change of state between ready, running and dead, or of a count. */
  lemma Relabelled(m: Machine, on: nat, i: nat, t: Task)
    requires Isolated(m, on) && Used(m, i) && t.state != Unused
    requires t.stackBase == m.ts[i].stackBase && (i == on || t.esp == m.ts[i].esp)
    ensures Isolated(m.(ts := m.ts[i := t]), on)
    ensures StackOf(m.(ts := m.ts[i := t]), on) == StackOf(m, on) && Base(m.(ts := m.ts[i := t]), on) == Base(m, on)
  {
    hide ListOk, Laid, StackOf, Base, ParkedAt;
    LaidSize(m);
    SameStacks(m, m.(ts := m.ts[i := t]));
  }

  /** A slot given up. */
  lemma Removed(m: Machine, on: nat, i: nat, t: Task)
    requires Isolated(m, on) && 0 < i < 8 && t.state == Unused
    ensures Isolated(m.(ts := m.ts[i := t]), on)
    ensures on != i ==> StackOf(m.(ts := m.ts[i := t]), on) == StackOf(m, on)
    ensures on != i ==> Base(m.(ts := m.ts[i := t]), on) == Base(m, on)
  {
    var m' := m.(ts := m.ts[i := t]);
    assert forall k: nat | Used(m', k) :: Used(m, k) && k != i;
    assert forall k: nat | Used(m', k) :: StackOf(m', k) == StackOf(m, k) && Base(m', k) == Base(m, k);
    hide ListOk, StackOk, StackWords, FrameAt;
  }

  /** A slot filled: its stack at `w` is nobody else's and holds a context. */
  lemma Added(m: Machine, on: nat, i: nat, t: Task, c: Context, w: nat)
    requires Isolated(m, on) && 0 < i < 8 && !Used(m, i) && i != on && t.state != Unused
    requires StackOk(m.bs, w) && t.stackBase == Addr(w)
    requires forall k | 0 < k < 8 && Used(m, k) :: StackAt(m.ts[k]) != w
    requires ParkedAt(t.esp, t.stackBase, StackWords(m.h, w), c)
    ensures var m' := m.(ts := m.ts[i := t], image := m.image[i := StackWords(m.h, w)], saved := m.saved[i := c]);
      Isolated(m', on) && StackOf(m', on) == StackOf(m, on)
  {
    var m' := m.(ts := m.ts[i := t], image := m.image[i := StackWords(m.h, w)], saved := m.saved[i := c]);
    assert StackAt(t) == w && StackOf(m', i) == StackWords(m.h, w) && Base(m', i) == t.stackBase;
    assert forall k: nat | k != i :: Used(m', k) <==> Used(m, k);
    assert forall k: nat | k != i :: StackOf(m', k) == StackOf(m, k) && Base(m', k) == Base(m, k);
    LaidAdded(m, i, t, w, m'.image, m'.saved);
    hide ListOk, Laid, StackOf, Base, ParkedAt, StackOk, StackWords;
  }

  lemma LaidAdded(m: Machine, i: nat, t: Task, w: nat, image: seq<seq<u32>>, saved: seq<Context>)
    requires Laid(m) && 0 < i < 8 && !Used(m, i) && t.state != Unused && StackOk(m.bs, w) && t.stackBase == Addr(w)
    requires forall k | 0 < k < 8 && Used(m, k) :: StackAt(m.ts[k]) != w
    ensures StackAt(t) == w && Laid(m.(ts := m.ts[i := t], image := image, saved := saved))
  {
    hide StackOk;
    assert StackAt(t) == w;
  }

  /** The processor leaves task `on`, whose context is now on its stack, for
      another task. */
  lemma TaskLeft(m: Machine, on: nat, esp: u32, c: Context, next: nat)
    requires Isolated(m, on) && Used(m, on) && Used(m, next)
    requires ParkedAt(esp, Base(m, on), StackOf(m, on), c)
    ensures var m' := m.(ts := m.ts[on := m.ts[on].(esp := esp)], image := m.image[on := StackOf(m, on)],
                         saved := m.saved[on := c]);
      Isolated(m', next) && StackOf(m', next) == StackOf(m, next) && Base(m', next) == Base(m, next)
  {
    var m' := m.(ts := m.ts[on := m.ts[on].(esp := esp)], image := m.image[on := StackOf(m, on)],
                 saved := m.saved[on := c]);
    hide ListOk, Laid, StackOf, Base, ParkedAt;
    LaidSize(m);
    SameStacks(m, m');
  }

  /** Where a task that is not on the processor is parked. */
  lemma ParkedSpot(m: Machine, on: nat, i: nat) returns (j: nat)
    requires Isolated(m, on) && Used(m, i) && i != on && m.lo < 0x100_0000
    ensures m.ts[i].esp == Base(m, i) + 4 * j && FrameAt(StackOf(m, i), j, m.saved[i]) && m.ts[i].esp < 0xE000_0000
    ensures StackOf(m, i) == m.image[i]
  {
    if i > 0 {
      StackInHeap(m.h, m.bs, StackAt(m.ts[i]));
    }
    hide StackOk, StackWords, Addr;
    j := (m.ts[i].esp - Base(m, i)) / 4;
  }

  // ---- what the tasks see ----

  /** Between two isolated states with the same history a parked stack is the same. */
  lemma ParkedSame(m: Machine, m': Machine, on: nat, on': nat, k: nat)
    requires Isolated(m, on) && Isolated(m', on') && k != on && k != on' && Used(m, k) && Used(m', k)
    requires k < |m.image| && k < |m'.image| && m'.image[k] == m.image[k]
    ensures StackOf(m', k) == StackOf(m, k)
  {
    hide ListOk, Laid, StackOf, ParkedAt, Base;
  }

  /** Table entries that name the same stacks, and the same current stack: then all
      slots are the same. */
  lemma SeatsKept(m: Machine, m': Machine, on: nat)
    requires Isolated(m, on) && Isolated(m', on) && m'.image == m.image && m'.lo == m.lo
    requires forall k | 0 <= k < 8 && k < |m.ts| && k < |m'.ts| ::
               m'.ts[k].esp == m.ts[k].esp && m'.ts[k].stackBase == m.ts[k].stackBase
               && (m'.ts[k].state == Unused <==> m.ts[k].state == Unused)
    requires Used(m, on) ==> StackOf(m', on) == StackOf(m, on)
    ensures SeatsOf(m') == SeatsOf(m)
  {
    TableSizes(m, m', on, on);
    hide Isolated, StackOf;
    forall k: nat | k < 8 ensures SeatOf(m', k) == SeatOf(m, k) {
      if Used(m, k) && k != on {
        ParkedSame(m, m', on, on, k);
      }
    }
  }

  lemma TableSizes(m: Machine, m': Machine, on: nat, on': nat)
    requires Isolated(m, on) && Isolated(m', on')
    ensures |m.ts| == |m'.ts| == |m.image| == |m'.image| == |m.saved| == |m'.saved| == 8
  {
    hide ListOk, StackOk;
  }

  /** One slot changed. */
  lemma SeatChanged(m: Machine, m': Machine, on: nat, on': nat, i: nat)
    requires Isolated(m, on) && Isolated(m', on') && i < 8 && m'.lo == m.lo
    requires forall k | 0 <= k < 8 && k != i && k < |m.ts| && k < |m'.ts| ::
               m'.ts[k].esp == m.ts[k].esp && m'.ts[k].stackBase == m.ts[k].stackBase
               && (m'.ts[k].state == Unused <==> m.ts[k].state == Unused)
    requires forall k: nat | k < 8 && k != i && k < |m.image| && k < |m'.image| :: m'.image[k] == m.image[k]
    requires on != i && Used(m, on) ==> StackOf(m', on) == StackOf(m, on)
    requires on' != i && Used(m, on') ==> StackOf(m', on') == StackOf(m, on')
    ensures SeatsOf(m') == SeatsOf(m)[i := SeatOf(m', i)]
  {
    TableSizes(m, m', on, on');
    hide Isolated, StackOf;
    forall k: nat | k < 8 && k != i ensures SeatOf(m', k) == SeatOf(m, k) {
      if Used(m, k) && k != on && k != on' {
        ParkedSame(m, m', on, on', k);
      }
    }
  }

  /** A parked task's registers are the context kept of it. */
  lemma ParkedContext(m: Machine, on: nat, i: nat)
    requires Isolated(m, on) && Used(m, i) && i != on
    ensures i < |m.ts| && i < |m.saved| && i < |m.image| && StackOf(m, i) == m.image[i]
    ensures Entered(SeatOf(m, i)) == Resumed(m.saved[i], m.ts[i].esp)
  {
    hide ListOk, Laid, StackOf, Base, FrameAt, ContextAt;
    FrameIsContext(StackOf(m, i), (m.ts[i].esp - Base(m, i)) / 4, m.saved[i]);
  }

  /** The slot of the task on the processor when it is left. */
  lemma LeftSeat(m: Machine, on: nat, c: Context, ret: u32, k: nat)
    requires Used(m, on) && c.esp == Base(m, on) + 4 * k
    ensures Left(SeatOf(m, on), c, ret) == Seat(Sub32(c.esp, 40), Base(m, on), Pushed(StackOf(m, on), k, Leaving(c, ret)))
  {
    hide Pushed, StackOf, Base;
  }

  /** A context switch, as the tasks see it. */
  lemma Swapped(m: Machine, m': Machine, prev: nat, next: nat, c: Context, ret: u32, k: nat)
    requires Isolated(m, prev) && Isolated(m', next) && prev != next && Used(m, prev) && Used(m, next)
    requires c.esp == Base(m, prev) + 4 * k && m'.lo == m.lo
    requires prev < |m.ts| && m'.ts == m.ts[prev := m.ts[prev].(esp := Sub32(c.esp, 40))]
    requires prev < |m.image| && m'.image == m.image[prev := Pushed(StackOf(m, prev), k, Leaving(c, ret))]
    requires next < |m.image| && StackOf(m', next) == m.image[next]
    ensures SeatsOf(m') == SeatsOf(m)[prev := Left(SeatsOf(m)[prev], c, ret)]
    ensures next < |m.saved| && Resumed(m.saved[next], m.ts[next].esp) == Entered(SeatsOf(m)[next])
  {
    hide Isolated, StackOf, Pushed, Entered, Left, Resumed;
    ParkedContext(m, prev, next);
    ParkedContext(m', next, prev);
    SeatChanged(m, m', prev, next, prev);
    LeftSeat(m, prev, c, ret, k);
  }

  // ---- slices ----

  /** All the times that the tasks in the table were switched to. */
  function SliceSum(ts: seq<Task>): nat {
    if ts == [] then 0 else ts[0].slices + SliceSum(ts[1..])
  }

  lemma {:induction false} SliceSumSet(ts: seq<Task>, i: nat, t: Task)
    requires i < |ts|
    ensures SliceSum(ts[i := t]) == SliceSum(ts) - ts[i].slices + t.slices
  {
    if i == 0 {
      assert ts[i := t][1..] == ts[1..];
    } else {
      SliceSumSet(ts[1..], i - 1, t);
      assert ts[i := t][1..] == ts[1..][i - 1 := t];
    }
  }
}
