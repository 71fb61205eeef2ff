/** Runs of the kernel as its tasks see them: registers, stack pointers and stacks,
    and the theorem that a task preempted goes on exactly where it was. */
module TaskRuns {
  import opened Words
  import opened RoundRobin
  import opened Stacks

  /** What a slot of the task table holds: a saved stack pointer, and a stack that
      starts at address `base`. */
  datatype Seat = Vacant | Seat(esp: u32, base: nat, stack: seq<u32>)

  /** The scheduler, the registers of the processor, and the slots. */
  datatype TaskView = TaskView(sched: Sched, cpu: Context, seats: seq<Seat>)

  predicate Shape(v: TaskView) {
    |v.seats| == 8 && |v.sched.states| == 8 && v.sched.current < 8
  }

  /** The context whose ten words lie in `stack` from word `k` on. */
  function ContextAt(stack: seq<u32>, k: nat): Context {
    if k + 10 <= |stack| then
      Context(stack[k], stack[k + 1], stack[k + 2], stack[k + 3], stack[k + 4],
              stack[k + 5], stack[k + 6], stack[k + 7], stack[k + 8], stack[k + 9])
    else Fresh(0)
  }

  /** The registers with which the task of a slot goes on: the context above its
      saved stack pointer, popped. */
  function Entered(s: Seat): Context {
    if s.Seat? && s.esp >= s.base then Resumed(ContextAt(s.stack, (s.esp - s.base) / 4), s.esp) else Fresh(0)
  }

  /** The slot of a task that the processor leaves with registers `c` for a call
      that is to return to `ret`. */
  function Left(s: Seat, c: Context, ret: u32): Seat {
    if s.Seat? && c.esp >= s.base then
      Seat(Sub32(c.esp, 40), s.base, Pushed(s.stack, (c.esp - s.base) / 4, Leaving(c, ret)))
    else s
  }

  /** There is room on the stack for the ten words of a context. */
  predicate Roomy(s: Seat, c: Context) {
    && s.Seat? && s.base <= c.esp && (c.esp - s.base) % 4 == 0
    && 10 <= (c.esp - s.base) / 4 <= |s.stack|
  }

  function SwitchView(v: TaskView, next: int, ret: u32): TaskView
    requires Shape(v) && next < 8
  {
    if next < 0 || next == v.sched.current then v
    else
      var prev := v.sched.current;
      TaskView(SwitchedTo(v.sched, next), Entered(v.seats[next]), v.seats[prev := Left(v.seats[prev], v.cpu, ret)])
  }

  function ReapSeats(v: TaskView, n: nat): seq<Seat>
    requires Shape(v)
  {
    seq(8, i requires 0 <= i < 8 =>
          if 0 < i < n && v.sched.states[i] == Dead && i != v.sched.current then Vacant else v.seats[i])
  }

  lemma ReapSeatStep(v: TaskView, n: nat)
    requires Shape(v) && 0 < n < 8
    ensures ReapSeats(v, 1) == v.seats && ReapSeats(v, n)[n] == v.seats[n]
    ensures ReapSeats(v, n + 1) ==
            if v.sched.states[n] == Dead && n != v.sched.current then ReapSeats(v, n)[n := Vacant] else ReapSeats(v, n)
  {
  }

  function TickView(v: TaskView, ret: u32): TaskView
    requires Shape(v)
  {
    if !v.sched.enabled then v
    else
      var w := v.(sched := Reaped(v.sched), seats := ReapSeats(v, 8));
      if w.sched.quantum > 1 then w.(sched := w.sched.(quantum := w.sched.quantum - 1))
      else
        PickInRange(w.sched.states, w.sched.current, 1);
        SwitchView(w, Pick(w.sched.states, w.sched.current, 1), ret)
  }

  function YieldView(v: TaskView, ret: u32): TaskView
    requires Shape(v)
  {
    if !v.sched.enabled then v
    else
      PickInRange(v.sched.states, v.sched.current, 1);
      SwitchView(v, Pick(v.sched.states, v.sched.current, 1), ret)
  }

  /** `seat` is what the new task gets; `Vacant` when there was no memory. */
  function SpawnView(v: TaskView, seat: Seat): TaskView
    requires Shape(v)
  {
    var k := FirstUnused(v.sched.states, 1);
    v.(sched := Created(v.sched, seat.Seat?), seats := if k < 8 && seat.Seat? then v.seats[k := seat] else v.seats)
  }

  /** A word of the running task's own stack. */
  function WorkView(v: TaskView, k: nat, x: u32): TaskView
    requires Shape(v)
  {
    var s := v.seats[v.sched.current];
    if s.Seat? && k < |s.stack| then v.(seats := v.seats[v.sched.current := s.(stack := s.stack[k := x])]) else v
  }

  /** Everything that can happen to tasks. `Other` is any operation of the memory
      stack: heap, page tables, frames. */
  datatype Op = TickOp(ret: u32) | YieldOp(ret: u32) | ExitOp | KillOp(id: nat) | SpawnOp(seat: Seat) | EnableOp(on: bool)
              | WorkOp(k: nat, x: u32) | ComputeOp(c: Context) | Other

  function Apply(v: TaskView, op: Op): TaskView {
    if !Shape(v) then v
    else
      match op
      case TickOp(ret) => TickView(v, ret)
      case YieldOp(ret) => YieldView(v, ret)
      case ExitOp => v.(sched := Step(v.sched, Exit))
      case KillOp(id) => v.(sched := Killed(v.sched, id))
      case SpawnOp(seat) => SpawnView(v, seat)
      case EnableOp(on) => v.(sched := Step(v.sched, Enable(on)))
      case WorkOp(k, x) => WorkView(v, k, x)
      case ComputeOp(c) => v.(cpu := c)
      case Other => v
  }

  function RunOps(v: TaskView, ops: seq<Op>): TaskView
    decreases |ops|
  {
    if ops == [] then v else RunOps(Apply(v, ops[0]), ops[1..])
  }

  /** What the scheduler sees of an operation. */
  function Events(op: Op): seq<Event> {
    match op
    case TickOp(_) => [Tick]
    case YieldOp(_) => [Yield]
    case ExitOp => [Exit]
    case KillOp(id) => [Kill(id)]
    case SpawnOp(seat) => [Create(seat.Seat?)]
    case EnableOp(on) => [Enable(on)]
    case _ => []
  }

  /** The kernel's own task does not exit. */
  predicate Allowed(v: TaskView, op: Op) { op == ExitOp ==> v.sched.current != 0 }

  ghost predicate AllowedRun(v: TaskView, ops: seq<Op>)
    decreases |ops|
  {
    ops == [] || (Allowed(v, ops[0]) && AllowedRun(Apply(v, ops[0]), ops[1..]))
  }

  /** The view moves as the scheduler's state machine does. */
  lemma ApplySched(v: TaskView, op: Op)
    requires Shape(v)
    ensures Shape(Apply(v, op))
    ensures Apply(v, op).sched == if Events(op) == [] then v.sched else Step(v.sched, Events(op)[0])
  {
    hide TickView, YieldView;
    if op.TickOp? {
      TickSched(v, op.ret);
    } else if op.YieldOp? {
      YieldSched(v, op.ret);
    }
  }

  lemma TickSched(v: TaskView, ret: u32)
    requires Shape(v)
    ensures Shape(TickView(v, ret)) && TickView(v, ret).sched == Ticked(v.sched)
  {
    hide Pick, Entered, Left;
    PickInRange(Reaped(v.sched).states, v.sched.current, 1);
  }

  lemma YieldSched(v: TaskView, ret: u32)
    requires Shape(v)
    ensures Shape(YieldView(v, ret)) && YieldView(v, ret).sched == Yielded(v.sched)
  {
    hide Pick, Entered, Left;
    PickInRange(v.sched.states, v.sched.current, 1);
  }

  /** A ready task's slot is untouched by a tick, short of the switch to it ... */
  lemma TickStays(v: TaskView, ret: u32, i: nat)
    requires Shape(v) && Ok(v.sched) && i < 8 && v.sched.states[i] == Ready && v.sched.current != i
    ensures var w := TickView(v, ret);
      |w.seats| == 8 && w.seats[i] == v.seats[i] && (w.sched.current == i ==> w.cpu == Entered(v.seats[i]))
  {
    hide Pick, Entered, Left;
    ReapedOk(v.sched, i);
    PickInRange(Reaped(v.sched).states, v.sched.current, 1);
  }

  /** ... or by a yield ... */
  lemma YieldStays(v: TaskView, ret: u32, i: nat)
    requires Shape(v) && i < 8 && v.sched.states[i] == Ready && v.sched.current != i
    ensures var w := YieldView(v, ret);
      |w.seats| == 8 && w.seats[i] == v.seats[i] && (w.sched.current == i ==> w.cpu == Entered(v.seats[i]))
  {
    hide Pick, Entered, Left;
    PickInRange(v.sched.states, v.sched.current, 1);
  }

  /** ... or by whatever else happens, short of killing it; and when the processor
      comes to it, it comes with the registers parked there. */
  lemma SeatStays(v: TaskView, op: Op, i: nat)
    requires Shape(v) && Ok(v.sched) && Allowed(v, op)
    requires i < 8 && v.sched.states[i] == Ready && op != KillOp(i)
    ensures var w := Apply(v, op);
      && Shape(w) && Ok(w.sched) && w.seats[i] == v.seats[i]
      && (w.sched.current == i ==> w.cpu == Entered(v.seats[i]))
      && (w.sched.current != i ==> w.sched.states[i] == Ready)
  {
    hide TickView, YieldView, Entered, FirstUnused;
    ApplySched(v, op);
    FirstUnusedIsFirst(v.sched.states, 1);
    StateStays(v, op, i);
    if op.TickOp? {
      TickStays(v, op.ret, i);
    } else if op.YieldOp? {
      YieldStays(v, op.ret, i);
    }
  }

  lemma StateStays(v: TaskView, op: Op, i: nat)
    requires Shape(v) && Ok(v.sched) && Allowed(v, op)
    requires i < 8 && v.sched.states[i] == Ready && op != KillOp(i)
    ensures v.sched.current != i
    ensures var w := Apply(v, op);
      && Shape(w) && Ok(w.sched) && (w.sched.current != i ==> w.sched.states[i] == Ready)
      && (!op.TickOp? && !op.YieldOp? ==> w.sched.current == v.sched.current)
  {
    hide TickView, YieldView, Apply, Pick;
    ApplySched(v, op);
    if Events(op) != [] {
      StepKeeps(v.sched, Events(op)[0]);
    }
    ReapedOk(v.sched, i);
    FirstUnusedIsFirst(v.sched.states, 1);
    PickInRange(v.sched.states, v.sched.current, 1);
    PickInRange(Reaped(v.sched).states, v.sched.current, 1);
  }

  // ---- whole runs ----

  function TickCount(ops: seq<Op>): nat {
    if ops == [] then 0 else (if ops[0].TickOp? then 1 else 0) + TickCount(ops[1..])
  }

  lemma PrefixRun(v: TaskView, ops: seq<Op>, k: nat)
    requires ops != [] && k < |ops|
    ensures RunOps(v, ops[..k + 1]) == RunOps(Apply(v, ops[0]), ops[1..][..k])
  {
    assert ops[..k + 1][1..] == ops[1..][..k];
  }

  /** Exact resumption. Over any run of ticks, yields, spawns, kills and exits of
      others, heap and page table operations, and arbitrary work of whoever runs:
      when a ready task next becomes current, its registers are those parked on
      its stack, and its stack and stack pointer have not changed since. */
  lemma {:induction false} ResumesExactly(v: TaskView, ops: seq<Op>, i: nat)
    requires Shape(v) && Ok(v.sched) && AllowedRun(v, ops) && ops != []
    requires i < 8 && v.sched.states[i] == Ready && KillOp(i) !in ops
    requires forall k | 0 < k < |ops| :: RunOps(v, ops[..k]).sched.current != i
    requires RunOps(v, ops).sched.current == i
    ensures var w := RunOps(v, ops); Shape(w) && w.cpu == Entered(v.seats[i]) && w.seats[i] == v.seats[i]
    decreases |ops|
  {
    hide Apply, Ok;
    var w := Apply(v, ops[0]);
    SeatStays(v, ops[0], i);
    if |ops| == 1 {
      assert RunOps(v, ops) == w by { assert ops[1..] == []; }
    } else {
      PrefixRun(v, ops, 0);
      assert RunOps(v, ops[..1]).sched.current != i;
      assert RunOps(w, []) == w && ops[1..][..0] == [];
      forall k | 0 < k < |ops[1..]| ensures RunOps(w, ops[1..][..k]).sched.current != i {
        PrefixRun(v, ops, k);
        assert RunOps(v, ops[..k + 1]).sched.current != i;
      }
      ResumesExactly(w, ops[1..], i);
    }
  }

  /** Ten words that are a context are read as that context. */
  lemma FrameIsContext(stack: seq<u32>, k: nat, c: Context)
    requires FrameAt(stack, k, c)
    ensures k + 10 <= |stack| && ContextAt(stack, k) == c
  {
    forall i | 0 <= i < 10 ensures stack[k + i] == Frame(c)[i] {
      assert stack[k..k + 10][i] == stack[k + i];
    }
  }

  /** A context pushed is the context popped. */
  lemma ContextPushed(s: Seat, c: Context, ret: u32)
    requires Roomy(s, c)
    ensures Entered(Left(s, c, ret)) == c.(eip := ret)
  {
    var k := (c.esp - s.base) / 4;
    var d := Leaving(c, ret);
    PushedFrame(s.stack, k, d);
    FrameIsContext(Pushed(s.stack, k, d), k - 10, d);
    hide Pushed, ContextAt;
    assert Left(s, c, ret).esp == c.esp - 40;
    assert (c.esp - 40 - s.base) / 4 == k - 10;
  }

  /** What leaving changes on a stack: the ten words below the stack pointer. */
  lemma LeftWords(s: Seat, c: Context, ret: u32, j: nat)
    requires Roomy(s, c) && j < |s.stack|
    ensures var k := (c.esp - s.base) / 4; var t := Left(s, c, ret);
      && t.Seat? && t.base == s.base && |t.stack| == |s.stack|
      && (!(k - 10 <= j < k) ==> t.stack[j] == s.stack[j])
  {
    PushedFrame(s.stack, (c.esp - s.base) / 4, Leaving(c, ret));
    hide Pushed;
  }

  /** A switch away from the running task `i` parks it. */
  lemma Parks(v: TaskView, op: Op, i: nat, ret: u32)
    requires Shape(v) && Ok(v.sched) && v.sched.current == i && v.sched.states[i] == Running
    requires op == TickOp(ret) || op == YieldOp(ret)
    requires Apply(v, op).sched.current != i
    ensures var w := Apply(v, op);
      Shape(w) && Ok(w.sched) && w.sched.states[i] == Ready && w.seats[i] == Left(v.seats[i], v.cpu, ret)
  {
    ApplySched(v, op);
    StepKeeps(v.sched, Events(op)[0]);
    PickInRange(v.sched.states, v.sched.current, 1);
    PickInRange(Reaped(v.sched).states, v.sched.current, 1);
    hide Pick, Entered, Left;
  }

  /** A tick or a yield moves no register and no stack unless it switches; then the slot
      left is parked with the registers, and the processor has what the slot entered
      was parked with. The slots of dead tasks given up are vacant, all others as
      they were. */
  lemma TicksAndYields(v: TaskView, op: Op, ret: u32)
    requires Shape(v) && Ok(v.sched) && (op == TickOp(ret) || op == YieldOp(ret))
    ensures var t := Apply(v, op); var c := v.sched.current; var n := t.sched.current;
      && Shape(t)
      && (n == c ==> t.cpu == v.cpu && t.seats[c] == v.seats[c])
      && (n != c ==> t.cpu == Entered(v.seats[n]) && t.seats[c] == Left(v.seats[c], v.cpu, ret))
      && forall i | 0 <= i < 8 && i != c ::
           t.seats[i] == if op == TickOp(ret) && v.sched.enabled && i > 0 && v.sched.states[i] == Dead then Vacant
                         else v.seats[i]
  {
    hide Pick, Entered, Left, Ok;
    if op == TickOp(ret) {
      TickPick(v.sched);
    } else {
      PickInRange(v.sched.states, v.sched.current, 1);
    }
  }

  lemma TickPick(s: Sched)
    requires Ok(s)
    ensures var r := Reaped(s);
      && Ok(r) && r.current == s.current
      && (var p := Pick(r.states, r.current, 1); 0 <= p < 8 && s.states[p] != Dead)
  {
    ReapedOk(s, 0);
    PickAlive(Reaped(s));
    hide Pick;
  }

  /** Whoever is preempted, or yields, with registers `c` has exactly these when it
      next runs, the stack pointer included, and goes on at the return address of
      the call that took the processor away; and of its stack only the ten words
      below the stack pointer have changed. */
  lemma PreemptedGoesOn(v: TaskView, op: Op, ret: u32, ops: seq<Op>, i: nat)
    requires Shape(v) && Ok(v.sched) && v.sched.current == i && v.sched.states[i] == Running
    requires (op == TickOp(ret) || op == YieldOp(ret)) && Roomy(v.seats[i], v.cpu)
    requires Apply(v, op).sched.current != i && AllowedRun(Apply(v, op), ops) && ops != [] && KillOp(i) !in ops
    requires forall k | 0 < k < |ops| :: RunOps(Apply(v, op), ops[..k]).sched.current != i
    requires RunOps(Apply(v, op), ops).sched.current == i
    ensures var w := RunOps(Apply(v, op), ops); var k := (v.cpu.esp - v.seats[i].base) / 4;
      && Shape(w) && w.cpu == v.cpu.(eip := ret)
      && w.seats[i].Seat? && |w.seats[i].stack| == |v.seats[i].stack|
      && forall j: nat | j < |w.seats[i].stack| && !(k - 10 <= j < k) :: w.seats[i].stack[j] == v.seats[i].stack[j]
  {
    hide Apply, RunOps, AllowedRun, Ok, Left, Entered;
    Parks(v, op, i, ret);
    ResumesExactly(Apply(v, op), ops, i);
    ContextPushed(v.seats[i], v.cpu, ret);
    LeftWords(v.seats[i], v.cpu, ret, 0);
    forall j: nat | j < |v.seats[i].stack|
      ensures var k := (v.cpu.esp - v.seats[i].base) / 4;
        !(k - 10 <= j < k) ==> Left(v.seats[i], v.cpu, ret).stack[j] == v.seats[i].stack[j]
    {
      LeftWords(v.seats[i], v.cpu, ret, j);
    }
  }

  /** And it does run again: with the scheduler on, before as many ticks have passed
      as its rank says, at most 35. */
  lemma {:induction false} ResumesInTime(v: TaskView, ops: seq<Op>, i: nat)
    requires Shape(v) && Ok(v.sched) && AllowedRun(v, ops) && v.sched.enabled
    requires i < 8 && v.sched.states[i] == Ready && KillOp(i) !in ops && EnableOp(false) !in ops
    requires TickCount(ops) >= Rank(v.sched, i)
    ensures exists n | 0 < n <= |ops| :: ResumedIn(RunOps(v, ops[..n]), v, i)
    decreases |ops|
  {
    hide Apply, Ok;
    RankPositive(v.sched, i);
    var w := Apply(v, ops[0]);
    SeatStays(v, ops[0], i);
    Closer(v, ops[0], i);
    PrefixRun(v, ops, 0);
    assert RunOps(w, ops[1..][..0]) == w by { assert ops[1..][..0] == []; }
    if w.sched.current == i {
      assert ResumedIn(RunOps(v, ops[..1]), v, i);
    } else {
      ResumesInTime(w, ops[1..], i);
      var n :| 0 < n <= |ops[1..]| && ResumedIn(RunOps(w, ops[1..][..n]), w, i);
      PrefixRun(v, ops, n);
      assert ResumedIn(RunOps(v, ops[..n + 1]), v, i);
    }
  }

  /** In `w` task `i` runs with what it was parked with in `v`. */
  ghost predicate ResumedIn(w: TaskView, v: TaskView, i: nat)
    requires Shape(v) && i < 8
  {
    Shape(w) && w.sched.current == i && w.cpu == Entered(v.seats[i]) && w.seats[i] == v.seats[i]
  }

  /** The views of the kernel between its operations, each of which moves the view by
      its `Apply`, are those of one run. */
  lemma {:induction false} ViewsAreARun(vs: seq<TaskView>, ops: seq<Op>, n: nat)
    requires |vs| == |ops| + 1 && n <= |ops|
    requires forall j | 0 <= j < |ops| :: vs[j + 1] == Apply(vs[j], ops[j])
    ensures vs[n] == RunOps(vs[0], ops[..n])
  {
    if n > 0 {
      ViewsAreARun(vs, ops, n - 1);
      RunOneMore(vs[0], ops[..n - 1], ops[n - 1]);
      assert ops[..n - 1] + [ops[n - 1]] == ops[..n];
      assert vs[n - 1 + 1] == Apply(vs[n - 1], ops[n - 1]);
    } else {
      assert ops[..0] == [];
    }
  }

  lemma {:induction false} RunOneMore(v: TaskView, ops: seq<Op>, op: Op)
    ensures RunOps(v, ops + [op]) == Apply(RunOps(v, ops), op)
    decreases |ops|
  {
    hide Apply;
    if ops == [] {
      assert (ops + [op])[1..] == [];
    } else {
      RunOneMore(Apply(v, ops[0]), ops[1..], op);
      assert (ops + [op])[1..] == ops[1..] + [op];
    }
  }

  lemma RankPositive(s: Sched, i: nat)
    requires Ok(s) && i < 8 && s.states[i] == Ready
    ensures 1 <= Rank(s, i) <= 35
  {
    RankBound(s, i);
  }

  /** An operation brings a ready task closer to running. */
  lemma Closer(v: TaskView, op: Op, i: nat)
    requires Shape(v) && Ok(v.sched) && Allowed(v, op) && v.sched.enabled
    requires i < 8 && v.sched.states[i] == Ready && op != KillOp(i) && op != EnableOp(false)
    ensures var w := Apply(v, op);
      && w.sched.enabled && w.sched.current < 8
      && (w.sched.current != i ==> Rank(w.sched, i) <= Rank(v.sched, i) - if op.TickOp? then 1 else 0)
  {
    ApplySched(v, op);
    if Events(op) != [] {
      RankFalls(v.sched, Events(op)[0], i);
    }
    hide Apply, Step, Rank;
  }

  /** The slot of a task that has not run: a context to enter `entry`, and above it
      the address to return to. */
  ghost predicate NewSeat(s: Seat, entry: u32, exit: u32) {
    && s.Seat? && |s.stack| == 2048 && s.base <= 0xC040_0000 && s.esp == s.base + 8148
    && FrameAt(s.stack, 2037, Fresh(entry)) && s.stack[2047] == exit
  }

  /** A new task enters its entry point with interrupts on and all registers 0, its
      stack pointer at the word that holds the address it returns to. */
  lemma NewTaskStarts(s: Seat, entry: u32, exit: u32)
    requires NewSeat(s, entry, exit)
    ensures var c := Entered(s);
      && c.eflags == 0x202 && c.eip == entry && c.esp == s.base + 8188
      && c.edi == c.esi == c.ebp == c.ebx == c.edx == c.ecx == c.eax == 0
    ensures s.stack[(Entered(s).esp - s.base) / 4] == exit
  {
    hide FrameAt, ContextAt;
    FrameIsContext(s.stack, 2037, Fresh(entry));
    assert (s.esp - s.base) / 4 == 2037;
  }
}
