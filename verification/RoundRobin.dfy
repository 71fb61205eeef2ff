/** The round-robin scheduler as a state machine over slot states: who runs, how
    long a ready task waits, and when a dead one is gone. */
module RoundRobin {

  // MAX_TASKS is 8.

  const TASK_QUANTUM: nat := 5

  datatype State = Unused | Ready | Running | Dead

  predicate Runnable(s: State) { s == Ready || s == Running }

  datatype Sched = Sched(states: seq<State>, current: nat, quantum: nat, enabled: bool)

  /** The kernel, slot 0, stays runnable; only the current task can be running;
      the current task is running unless it died. */
  ghost predicate Ok(s: Sched) {
    && |s.states| == 8 && s.current < 8 && 1 <= s.quantum <= 5
    && Runnable(s.states[0])
    && (s.states[s.current] == Running || s.states[s.current] == Dead)
    && forall i | 0 <= i < 8 && s.states[i] == Running :: i == s.current
  }

  const INITIAL := Sched([Running, Unused, Unused, Unused, Unused, Unused, Unused, Unused], 0, 5, true)

  /** The slot `step` places on, in a circle of 8. */
  function Slot(current: nat, step: nat): nat { (current + step) % 8 }

  /** `pick_next`, from `step` on; -1 when nothing is runnable. */
  function Pick(states: seq<State>, current: nat, step: nat): int
    requires |states| == 8
    decreases 9 - step
  {
    if step > 8 then -1
    else if Runnable(states[Slot(current, step)]) then Slot(current, step)
    else Pick(states, current, step + 1)
  }

  /** `switch_to` */
  function SwitchedTo(s: Sched, next: int): Sched
    requires |s.states| == 8 && s.current < 8 && next < 8
  {
    if next < 0 || next == s.current then s
    else
      var left := if s.states[s.current] == Running then s.states[s.current := Ready] else s.states;
      s.(states := left[next := Running], current := next, quantum := TASK_QUANTUM)
  }

  /** `reap` for the slots below `n` */
  function ReapedBelow(s: Sched, n: nat): Sched {
    s.(states := seq(|s.states|, i requires 0 <= i < |s.states| =>
                       if 0 < i < n && s.states[i] == Dead && i != s.current then Unused else s.states[i]))
  }

  /** `reap` */
  function Reaped(s: Sched): Sched { ReapedBelow(s, 8) }

  lemma ReapStep(s: Sched, n: nat)
    requires 0 < n < |s.states|
    ensures |ReapedBelow(s, n).states| == |s.states| && ReapedBelow(s, n).states[n] == s.states[n]
    ensures ReapedBelow(s, n + 1) ==
            if s.states[n] == Dead && n != s.current
            then ReapedBelow(s, n).(states := ReapedBelow(s, n).states[n := Unused]) else ReapedBelow(s, n)
    ensures ReapedBelow(s, 1) == s
  {
  }

  /** The first unused slot from `i` on; 8 when there is none. */
  function FirstUnused(states: seq<State>, i: nat): (k: nat)
    requires |states| == 8
    decreases 8 - i
  {
    if i >= 8 then 8 else if states[i] == Unused then i else FirstUnused(states, i + 1)
  }

  /** What can happen between two states of the scheduler. `memory` says whether
      the heap has room for another stack. */
  datatype Event = Tick | Yield | Exit | Kill(id: nat) | Create(memory: bool) | Enable(on: bool)

  function Ticked(s: Sched): Sched
    requires |s.states| == 8 && s.current < 8
  {
    if !s.enabled then s
    else
      var r := Reaped(s);
      if r.quantum > 1 then r.(quantum := r.quantum - 1)
      else
        PickInRange(r.states, r.current, 1);
        SwitchedTo(r, Pick(r.states, r.current, 1))
  }

  function Yielded(s: Sched): Sched
    requires |s.states| == 8 && s.current < 8
  {
    if !s.enabled then s
    else
      PickInRange(s.states, s.current, 1);
      SwitchedTo(s, Pick(s.states, s.current, 1))
  }

  function Killed(s: Sched, id: nat): Sched
    requires |s.states| == 8
  {
    if id == 0 || id >= 8 || s.states[id] == Unused then s else s.(states := s.states[id := Dead])
  }

  function Created(s: Sched, memory: bool): Sched
    requires |s.states| == 8
  {
    var k := FirstUnused(s.states, 1);
    if k < 8 && memory then s.(states := s.states[k := Ready]) else s
  }

  function Step(s: Sched, e: Event): Sched
    requires |s.states| == 8 && s.current < 8
  {
    match e
    case Tick => Ticked(s)
    case Yield => Yielded(s)
    case Exit => s.(states := s.states[s.current := Dead])
    case Kill(id) => Killed(s, id)
    case Create(memory) => Created(s, memory)
    case Enable(on) => s.(enabled := on)
  }

  /** The kernel's own loop never returns and so never exits. */
  predicate Legal(s: Sched, e: Event) { e == Exit ==> s.current != 0 }

  // ---- the scan ----

  lemma {:induction false} PickInRange(states: seq<State>, current: nat, step: nat)
    requires |states| == 8
    ensures -1 <= Pick(states, current, step) < 8
    decreases 9 - step
  {
    if step <= 8 && !Runnable(states[Slot(current, step)]) {
      PickInRange(states, current, step + 1);
    }
  }

  /** How many slots on from `from` slot `to` lies, once around for itself. */
  function Distance(from: nat, to: nat): (d: nat)
    requires from < 8 && to < 8
    ensures 1 <= d <= 8 && Slot(from, d) == to
  {
    if to > from then to - from else to - from + 8
  }

  lemma SlotDistance(from: nat, step: nat)
    requires from < 8 && 1 <= step <= 8
    ensures Slot(from, step) < 8 && Distance(from, Slot(from, step)) == step
  {
  }

  /** The scan finds the runnable slot that is nearest in circular order. */
  lemma {:induction false} PickIsNearest(states: seq<State>, current: nat, step: nat)
    requires |states| == 8 && current < 8 && 1 <= step <= 9
    ensures var p := Pick(states, current, step);
      && (p == -1 <==> forall i | 0 <= i < 8 && Distance(current, i) >= step :: !Runnable(states[i]))
      && (p != -1 ==> 0 <= p < 8 && Runnable(states[p]) && Distance(current, p) >= step)
      && forall i | 0 <= i < 8 && step <= Distance(current, i) && Runnable(states[i]) ::
           p != -1 && Distance(current, p) <= Distance(current, i)
    decreases 9 - step
  {
    if step <= 8 {
      SlotDistance(current, step);
      var k := Slot(current, step);
      if Runnable(states[k]) {
        assert Pick(states, current, step) == k;
      } else {
        PickIsNearest(states, current, step + 1);
      }
      forall i | 0 <= i < 8 && Distance(current, i) == step ensures i == k {
      }
    }
  }

  /** There is always somebody to run. */
  lemma PickAlive(s: Sched)
    requires Ok(s)
    ensures var p := Pick(s.states, s.current, 1); 0 <= p < 8 && Runnable(s.states[p])
  {
    PickIsNearest(s.states, s.current, 1);
    assert Runnable(s.states[0]);
  }

  // ---- safety ----

  lemma SwitchKeeps(s: Sched, next: int)
    requires Ok(s) && -1 <= next < 8 && (next >= 0 ==> Runnable(s.states[next]))
    ensures Ok(SwitchedTo(s, next))
  {
  }

  lemma LessQuantum(s: Sched)
    requires Ok(s) && s.quantum > 1
    ensures Ok(s.(quantum := s.quantum - 1))
  {
  }

  lemma EnlistedOk(s: Sched, i: nat)
    requires Ok(s) && i < 8 && s.states[i] == Unused
    ensures Ok(s.(states := s.states[i := Ready]))
  {
  }

  lemma GoneOk(s: Sched, i: nat)
    requires Ok(s) && 0 < i < 8 && i != s.current
    ensures Ok(s.(states := s.states[i := Unused]))
  {
  }

  /** Every step keeps the invariant. */
  lemma StepKeeps(s: Sched, e: Event)
    requires Ok(s) && Legal(s, e)
    ensures Ok(Step(s, e))
  {
    hide Pick;
    match e {
      case Tick =>
        ReapedOk(s, 0);
        PickAlive(Reaped(s));
        SwitchKeeps(Reaped(s), Pick(Reaped(s).states, s.current, 1));
        hide Reaped, ReapedBelow, SwitchedTo;
      case Yield =>
        PickAlive(s);
        SwitchKeeps(s, Pick(s.states, s.current, 1));
        hide SwitchedTo;
      case _ =>
    }
  }

  /** The states from `s` on when the events `es` happen one after the other. */
  function Run(s: Sched, es: seq<Event>): Sched
    requires |s.states| == 8 && s.current < 8
    ensures |Run(s, es).states| == 8 && Run(s, es).current < 8
    decreases |es|
  {
    if es == [] then s
    else
      StepShape(s, es[0]);
      Run(Step(s, es[0]), es[1..])
  }

  lemma StepShape(s: Sched, e: Event)
    requires |s.states| == 8 && s.current < 8
    ensures |Step(s, e).states| == 8 && Step(s, e).current < 8
  {
    PickInRange(s.states, s.current, 1);
    PickInRange(Reaped(s).states, s.current, 1);
  }

  /** Every event happens in a state that allows it. */
  ghost predicate LegalRun(s: Sched, es: seq<Event>)
    requires |s.states| == 8 && s.current < 8
    decreases |es|
  {
    es == [] || (Legal(s, es[0]) && (StepShape(s, es[0]); LegalRun(Step(s, es[0]), es[1..])))
  }

  lemma {:induction false} RunKeeps(s: Sched, es: seq<Event>)
    requires Ok(s) && LegalRun(s, es)
    ensures Ok(Run(s, es))
    decreases |es|
  {
    if es != [] {
      StepKeeps(s, es[0]);
      RunKeeps(Step(s, es[0]), es[1..]);
    }
  }

  // ---- bounded waiting ----

  /** An upper bound on the ticks until ready task `i` runs. */
  function Rank(s: Sched, i: nat): int
    requires s.current < 8 && i < 8
  {
    5 * (Distance(s.current, i) - 1) + s.quantum
  }

  function Ticks(es: seq<Event>): nat {
    if es == [] then 0 else (if es[0] == Tick then 1 else 0) + Ticks(es[1..])
  }

  /** A ready task other than the current one is at most 35 ticks away. */
  lemma RankBound(s: Sched, i: nat)
    requires Ok(s) && i < 8 && s.states[i] == Ready
    ensures i != s.current && 1 <= Rank(s, i) <= 35
  {
  }

  /** The task that the scan picks is on the way to every ready task. */
  lemma PickOnTheWay(s: Sched, i: nat)
    requires Ok(s) && i < 8 && s.states[i] == Ready
    ensures var p := Pick(s.states, s.current, 1);
      0 <= p < 8 && p != s.current && Runnable(s.states[p]) && Distance(s.current, p) <= Distance(s.current, i)
  {
    PickIsNearest(s.states, s.current, 1);
    assert Runnable(s.states[i]);
  }

  lemma DistanceLeft(c: nat, p: nat, i: nat)
    requires c < 8 && p < 8 && i < 8 && p != i && Distance(c, p) <= Distance(c, i)
    ensures Distance(p, i) == Distance(c, i) - Distance(c, p)
  {
  }

  /** A switch away from the current task gets strictly closer to task `i`, or
      runs it. */
  lemma SwitchCloser(s: Sched, i: nat)
    requires Ok(s) && i < 8 && s.states[i] == Ready
    ensures var p := Pick(s.states, s.current, 1);
      0 <= p < 8 && p != s.current && SwitchedTo(s, p).current == p
    ensures var t := SwitchedTo(s, Pick(s.states, s.current, 1));
      t.states[i] == Running || (t.states[i] == Ready && Rank(t, i) < Rank(s, i))
  {
    hide Pick, Distance;
    PickOnTheWay(s, i);
    var p := Pick(s.states, s.current, 1);
    if p != i {
      DistanceLeft(s.current, p, i);
    }
  }

  lemma ReapedOk(s: Sched, i: nat)
    requires Ok(s) && i < 8
    ensures Ok(Reaped(s)) && (s.states[i] == Ready ==> Reaped(s).states[i] == Ready)
  {
  }

  /** Whatever happens, as long as nobody kills task `i` or stops the scheduler,
      the rank of a ready task never grows, and falls with every tick and every
      switch, until the task runs. */
  lemma RankFalls(s: Sched, e: Event, i: nat)
    requires Ok(s) && Legal(s, e) && s.enabled && i < 8 && s.states[i] == Ready
    requires e != Kill(i) && e != Enable(false)
    ensures var t := Step(s, e);
      && Ok(t) && t.enabled
      && ((t.states[i] == Running && t.current == i)
          || (t.states[i] == Ready && t.current != i && Rank(t, i) <= Rank(s, i)
              && (e == Tick || t.current != s.current ==> Rank(t, i) < Rank(s, i))))
  {
    StepKeeps(s, e);
    ReapedOk(s, i);
    match e {
      case Tick => if s.quantum == 1 { SwitchCloser(Reaped(s), i); }
      case Yield => SwitchCloser(s, i);
      case _ =>
    }
  }

  /** Bounded waiting: a ready task runs before as many ticks have passed as its
      rank says, at most 35, whatever else happens in between. */
  lemma {:induction false} BoundedWait(s: Sched, es: seq<Event>, i: nat)
    requires Ok(s) && LegalRun(s, es) && s.enabled && i < 8 && s.states[i] == Ready
    requires Kill(i) !in es && Enable(false) !in es && Ticks(es) >= Rank(s, i)
    ensures exists k | 0 <= k <= |es| :: Run(s, es[..k]).current == i && Run(s, es[..k]).states[i] == Running
    decreases |es|
  {
    RankBound(s, i);
    var t := Step(s, es[0]);
    RankFalls(s, es[0], i);
    assert es[..1][1..] == [];
    if t.current == i {
      assert Run(s, es[..1]) == t;
    } else {
      BoundedWait(t, es[1..], i);
      var k :| 0 <= k <= |es| - 1 && Run(t, es[1..][..k]).current == i && Run(t, es[1..][..k]).states[i] == Running;
      assert es[..k + 1][1..] == es[1..][..k];
      assert Run(s, es[..k + 1]) == Run(t, es[1..][..k]);
    }
  }

  /** The bound is tight: with seven other tasks ready and a fresh quantum, the
      last in the circle runs on the 35th tick and not before. */
  lemma WaitIsTight()
    ensures var s := Sched([Running, Ready, Ready, Ready, Ready, Ready, Ready, Ready], 0, 5, true);
      Ok(s) && Rank(s, 7) == 35 && TickMany(s, 35).current == 7 && forall k | 0 <= k < 35 :: TickMany(s, k).current != 7
  {
    var s := Sched([Running, Ready, Ready, Ready, Ready, Ready, Ready, Ready], 0, 5, true);
    forall k | 0 <= k <= 35 ensures TickMany(s, k).current == k / 5 {
      FullCircle(k);
    }
  }

  function TickMany(s: Sched, n: nat): Sched
    requires |s.states| == 8 && s.current < 8
    ensures |TickMany(s, n).states| == 8 && TickMany(s, n).current < 8
  {
    if n == 0 then s
    else
      StepShape(TickMany(s, n - 1), Tick);
      Ticked(TickMany(s, n - 1))
  }

  ghost predicate Circle(s: Sched, c: nat, q: nat) {
    && |s.states| == 8 && c < 8 && s.current == c && s.quantum == q && 1 <= q <= 5 && s.enabled
    && forall i | 0 <= i < 8 :: s.states[i] == if i == c then Running else Ready
  }

  /** One tick moves the circle by a tick of the quantum, or to the next task. */
  lemma CircleStep(s: Sched, c: nat, q: nat)
    requires Circle(s, c, q) && (q > 1 || c < 7)
    ensures if q > 1 then Circle(Ticked(s), c, q - 1) else Circle(Ticked(s), c + 1, 5)
  {
    assert Reaped(s).states == s.states;
    if q == 1 {
      assert Pick(s.states, c, 1) == c + 1;
    }
  }

  lemma {:induction false} FullCircle(n: nat)
    requires n <= 35
    ensures var s := Sched([Running, Ready, Ready, Ready, Ready, Ready, Ready, Ready], 0, 5, true);
      Circle(TickMany(s, n), n / 5, 5 - n % 5)
  {
    if n > 0 {
      var s := Sched([Running, Ready, Ready, Ready, Ready, Ready, Ready, Ready], 0, 5, true);
      FullCircle(n - 1);
      CircleStep(TickMany(s, n - 1), (n - 1) / 5, 5 - (n - 1) % 5);
      hide Circle, Ticked;
    }
  }

  // ---- the dead ----

  /** Ticks until dead task `i` is reaped, at most 6. */
  function Remaining(s: Sched, i: nat): nat {
    if i == s.current then s.quantum + 1 else 1
  }

  /** A dead task stays dead until it is reaped: on the next tick unless it is
      still current. It never runs again. */
  lemma DeadStep(s: Sched, e: Event, i: nat)
    requires Ok(s) && Legal(s, e) && s.enabled && 0 < i < 8 && s.states[i] == Dead && e != Enable(false)
    ensures var t := Step(s, e);
      && Ok(t) && t.enabled
      && (e == Tick && i != s.current ==> t.states[i] == Unused)
      && (!(e == Tick && i != s.current) ==> t.states[i] == Dead && Remaining(t, i) <= Remaining(s, i))
      && (e == Tick && i == s.current ==> Remaining(t, i) < Remaining(s, i))
      && (t.current == i ==> s.current == i)
  {
    StepKeeps(s, e);
    ReapedOk(s, i);
    match e {
      case Tick => DeadTick(s, i);
      case Yield => PickAlive(s);
      case _ =>
    }
    hide Pick, Ok;
  }

  lemma DeadTick(s: Sched, i: nat)
    requires Ok(s) && s.enabled && 0 < i < 8 && s.states[i] == Dead
    ensures var t := Step(s, Tick);
      && t.enabled && t.states[i] == (if i == s.current then Dead else Unused)
      && (i == s.current ==> Remaining(t, i) < Remaining(s, i))
      && (t.current == i ==> s.current == i)
  {
    ReapedOk(s, i);
    if s.quantum == 1 {
      PickAlive(Reaped(s));
    }
    hide Pick, Ok;
  }

  /** From `s` on task `i` is dead for `k - 1` events and does not come back to the
      processor; then its slot is unused. */
  ghost predicate DiesIn(s: Sched, es: seq<Event>, i: nat, k: nat)
    requires |s.states| == 8 && s.current < 8 && i < 8 && k <= |es|
  {
    && Run(s, es[..k]).states[i] == Unused
    && (forall j | 0 <= j < k :: Run(s, es[..j]).states[i] == Dead)
    && (forall j, l | 0 <= j <= l <= k && Run(s, es[..l]).current == i :: Run(s, es[..j]).current == i)
  }

  /** A dead task is reaped within six ticks, within one when it is not current, and
      until then it stays dead and does not come back. */
  lemma {:induction false} DeadAreReaped(s: Sched, es: seq<Event>, i: nat) returns (k: nat)
    requires Ok(s) && LegalRun(s, es) && s.enabled && 0 < i < 8 && s.states[i] == Dead
    requires Enable(false) !in es && Ticks(es) >= Remaining(s, i)
    ensures 0 < k <= |es| && DiesIn(s, es, i, k)
    decreases |es|
  {
    var t := Step(s, es[0]);
    DeadStep(s, es[0], i);
    if t.states[i] == Unused {
      k := 1;
      assert es[..1][1..] == [];
      assert Run(s, es[..1]) == t;
    } else {
      k := DeadAreReaped(t, es[1..], i);
      k := k + 1;
      DiesLater(s, t, es, i, k);
    }
  }

  lemma DiesLater(s: Sched, t: Sched, es: seq<Event>, i: nat, k: nat)
    requires Ok(s) && 0 < i < 8 && s.states[i] == Dead && 1 < k <= |es|
    requires t == Step(s, es[0]) && |t.states| == 8 && t.current < 8 && (t.current == i ==> s.current == i)
    requires DiesIn(t, es[1..], i, k - 1)
    ensures DiesIn(s, es, i, k)
  {
    hide Step;
    RunsOn(s, t, es, k);
    forall j, l | 0 <= j <= l <= k && Run(s, es[..l]).current == i ensures Run(s, es[..j]).current == i {
      if l > 0 {
        assert Run(t, es[1..][..l - 1]).current == i;
        assert Run(t, es[1..][..0]).current == i;
        if j > 0 {
          assert Run(t, es[1..][..j - 1]).current == i;
        }
      }
    }
  }

  lemma RunsOn(s: Sched, t: Sched, es: seq<Event>, k: nat)
    requires |s.states| == 8 && s.current < 8 && |t.states| == 8 && t.current < 8 && 0 < k <= |es|
    requires t == Step(s, es[0])
    ensures Run(t, es[1..][..0]) == t && Run(s, es[..0]) == s
    ensures forall j: nat | 0 < j <= k :: Run(s, es[..j]) == Run(t, es[1..][..j - 1])
  {
    hide Step;
    forall j: nat | 0 < j <= k ensures Run(s, es[..j]) == Run(t, es[1..][..j - 1]) {
      assert es[..j][1..] == es[1..][..j - 1];
    }
  }

  /** What `kill` is for: in every run that begins with the kill of a task and has six
      ticks the task's slot is given up, and until then the task is dead and does not
      come back to the processor. */
  lemma KilledAreGone(s: Sched, es: seq<Event>, id: nat) returns (k: nat)
    requires Ok(s) && LegalRun(s, es) && s.enabled && 0 < id < 8 && s.states[id] != Unused
    requires es != [] && es[0] == Kill(id) && Enable(false) !in es && Ticks(es) >= 6
    ensures 1 < k <= |es| && Run(s, es[..k]).states[id] == Unused
    ensures forall j | 1 <= j < k :: Run(s, es[..j]).states[id] == Dead
    ensures forall j, l | 0 <= j <= l <= k && Run(s, es[..l]).current == id :: Run(s, es[..j]).current == id
  {
    var t := Step(s, es[0]);
    StepKeeps(s, es[0]);
    k := DeadAreReaped(t, es[1..], id);
    k := k + 1;
    RunsOn(s, t, es, k);
    forall j, l | 0 <= j <= l <= k && Run(s, es[..l]).current == id ensures Run(s, es[..j]).current == id {
      if l > 0 {
        assert Run(t, es[1..][..l - 1]).current == id;
        assert Run(t, es[1..][..0]).current == id;
        if j > 0 {
          assert Run(t, es[1..][..j - 1]).current == id;
        }
      }
    }
  }

  // ---- what the events do, slot by slot ----

  /** `pick_next` comes to the runnable slot that is first in the circle behind `c`. */
  lemma FirstInCircle(states: seq<State>, c: nat)
    requires |states| == 8 && c < 8 && (states[0] == Ready || states[0] == Running)
    ensures var p := Pick(states, c, 1);
      && 0 <= p < 8 && (states[p] == Ready || states[p] == Running)
      && forall i | 0 <= i < 8 && (states[i] == Ready || states[i] == Running) ::
           (if p > c then p - c else p - c + 8) <= (if i > c then i - c else i - c + 8)
  {
    PickIsNearest(states, c, 1);
    assert Runnable(states[0]);
    hide Pick, Slot;
    forall i | 0 <= i < 8 && (states[i] == Ready || states[i] == Running)
      ensures (if Pick(states, c, 1) > c then Pick(states, c, 1) - c else Pick(states, c, 1) - c + 8)
              <= (if i > c then i - c else i - c + 8)
    {
      assert Runnable(states[i]) && Distance(c, Pick(states, c, 1)) <= Distance(c, i);
    }
  }

  /** `switch_to`, slot by slot. */
  lemma SwitchesSlots(s: Sched, p: nat)
    requires Ok(s) && p < 8 && Runnable(s.states[p])
    ensures var t := SwitchedTo(s, p);
      && |t.states| == 8 && t.current == p && t.enabled == s.enabled && t.states[p] == Running
      && (p == s.current ==> t == s)
      && (p != s.current ==>
            && t.quantum == 5 && t.states[s.current] == (if s.states[s.current] == Running then Ready else Dead)
            && forall i | 0 <= i < 8 && i != s.current && i != p :: t.states[i] == s.states[i])
  {
  }

  /** `task_yield`: the current slot becomes the runnable one that comes first in the
      circle behind it, and the slot left is ready unless it is dead. */
  lemma YieldSwitches(s: Sched)
    requires Ok(s)
    ensures var t := Step(s, Yield);
      && |t.states| == 8 && t.current < 8 && t.enabled == s.enabled
      && (!s.enabled || t.current == s.current ==> t == s)
      && (s.enabled ==>
            && (s.states[t.current] == Ready || s.states[t.current] == Running) && t.states[t.current] == Running
            && forall i | 0 <= i < 8 && (s.states[i] == Ready || s.states[i] == Running) ::
                 (if t.current > s.current then t.current - s.current else t.current - s.current + 8)
                 <= (if i > s.current then i - s.current else i - s.current + 8))
      && (t.current != s.current ==>
            && t.quantum == 5 && t.states[s.current] == (if s.states[s.current] == Running then Ready else Dead)
            && forall i | 0 <= i < 8 && i != s.current && i != t.current :: t.states[i] == s.states[i])
  {
    hide Pick, SwitchedTo;
    FirstInCircle(s.states, s.current);
    SwitchesSlots(s, Pick(s.states, s.current, 1));
    hide Ok;
  }

  /** `scheduler_tick`: dead slots other than the current one are given up; the quantum
      falls, or when it is used up the next runnable slot runs as after a yield. */
  lemma TickSwitches(s: Sched)
    requires Ok(s)
    ensures var t := Step(s, Tick);
      && |t.states| == 8 && t.current < 8 && t.enabled == s.enabled
      && (!s.enabled ==> t == s)
      && (s.enabled ==>
            forall i | 0 <= i < 8 && i != s.current && i != t.current ::
              t.states[i] == if i > 0 && s.states[i] == Dead then Unused else s.states[i])
      && (s.enabled && s.quantum > 1 ==> t.current == s.current && t.quantum == s.quantum - 1)
      && (t.current == s.current ==> t.states[s.current] == s.states[s.current])
      && (s.enabled && s.quantum == 1 ==>
            && (s.states[t.current] == Ready || s.states[t.current] == Running) && t.states[t.current] == Running
            && (forall i | 0 <= i < 8 && (s.states[i] == Ready || s.states[i] == Running) ::
                  (if t.current > s.current then t.current - s.current else t.current - s.current + 8)
                  <= (if i > s.current then i - s.current else i - s.current + 8))
            && t.quantum == if t.current == s.current then 1 else 5)
      && (t.current != s.current ==> t.states[s.current] == (if s.states[s.current] == Running then Ready else Dead))
  {
    hide Pick, SwitchedTo;
    if s.enabled {
      var r := Reaped(s);
      ReapedOk(s, 0);
      assert forall i | 0 <= i < 8 ::
          r.states[i] == if 0 < i && s.states[i] == Dead && i != s.current then Unused else s.states[i];
      if r.quantum == 1 {
        FirstInCircle(r.states, r.current);
        SwitchesSlots(r, Pick(r.states, r.current, 1));
      }
      hide Ok, Reaped, ReapedBelow;
    }
  }

  /** `task_create`: the first unused slot other than the kernel's, if there is one and
      memory for a stack, is ready. */
  lemma CreateTakesFirst(s: Sched, memory: bool)
    requires Ok(s)
    ensures var t := Step(s, Create(memory));
      if !memory || (forall i | 0 < i < 8 :: s.states[i] != Unused) then t == s
      else exists k | 0 < k < 8 :: && s.states[k] == Unused && (forall i | 0 < i < k :: s.states[i] != Unused)
                                   && t == s.(states := s.states[k := Ready])
  {
    FirstUnusedIsFirst(s.states, 1);
    hide FirstUnused;
    var k := FirstUnused(s.states, 1);
    if k < 8 {
      assert s.states[k] == Unused;
    }
  }

  /** The slot that `task_create` takes. */
  lemma {:induction false} FirstUnusedIsFirst(states: seq<State>, i: nat)
    requires |states| == 8 && i <= 8
    ensures var k := FirstUnused(states, i);
      && i <= k <= 8 && (k < 8 ==> states[k] == Unused) && forall j | i <= j < k :: states[j] != Unused
    decreases 8 - i
  {
    if i < 8 && states[i] != Unused {
      FirstUnusedIsFirst(states, i + 1);
    }
  }
}
