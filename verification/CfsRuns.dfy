/** Theorems about every run of the CFS state machine. */
module CfsRuns {
  import opened RbShape
  import opened CfsModel

  // ---------------------------------------------------------------- one step

  lemma {:induction false} InitInv()
    ensures Inv(Init()) && Init().queue == [] && Init().current == NIL && Init().minVruntime == Init().clock == 0
    ensures forall n :: InTable(n) ==> Init().procs[n].state.Unused?
  {
  }

  lemma {:induction false} SwitchKeeps(s: Sched, next: int)
    requires QueueInv(s) && InTable(next) && next in s.queue && s.procs[next].weight > 0
    ensures var r := SwitchTo(s, next);
      && QueueInv(r) && r.current == next
      && (forall m :: m in r.queue <==> m in s.queue && m != next) && r.queue == Remove(s.queue, next)
      && r.procs == s.procs[next := s.procs[next].(onRq := false, state := Running, execStart := r.clock)]
      && r.clock == Wrap64(s.clock + TICK_NS)
  {
    DequeueKeeps(s, next);
    QueueFrame(Dequeue(s, next), SwitchTo(s, next), next);
  }

  /** A queued task becomes current in place of a current task, if any, that is queued. */
  lemma {:induction false} SwitchInv(s: Sched, r: Sched, next: int)
    requires Inv(s) && next in s.queue && QueueInv(r) && r.current == next
    requires forall m :: m in r.queue <==> (m in s.queue && m != next) || (m == s.current && m != NIL)
    requires forall m :: InTable(m) && m != s.current && m != next ==> r.procs[m] == s.procs[m]
    requires r.procs[next].state.Running? && r.procs[next].weight == s.procs[next].weight
    requires r.procs[next].nice == s.procs[next].nice
    requires s.current != NIL ==> r.procs[s.current].state.Ready? && r.procs[s.current].nice == s.procs[s.current].nice
    requires s.current != NIL ==> r.procs[s.current].weight == s.procs[s.current].weight
    ensures Inv(r)
  {
  }

  lemma {:induction false} UpdateCurrState(s: Sched)
    requires Inv(s) && s.current != NIL
    ensures Inv(UpdateCurr(s, s.current))
  {
    UpdateCurrKeeps(s, s.current);
  }

  lemma {:induction false} RequeueShape(s: Sched, c: int)
    requires QueueInv(s) && InTable(c) && c !in s.queue && s.procs[c].weight > 0
    ensures var r := Requeue(s, c);
      && QueueInv(r) && r.current == s.current && r.clock == s.clock && r.queue == Inserted(s.procs, s.queue, c)
      && (forall m :: m in r.queue <==> m in s.queue || m == c)
      && r.procs == s.procs[c := s.procs[c].(state := Ready, execStart := 0, onRq := true)]
  {
    RequeueKeeps(s, c);
    var ps := s.procs[c := s.procs[c].(state := Ready, execStart := 0)];
    SlotFrame(s.procs, ps, s.queue, s.procs[c].vruntime);
  }

  lemma {:induction false} SlotFrame(ps: seq<Proc>, ps': seq<Proc>, q: seq<int>, v: nat)
    requires WellFormed(ps, q) && WellFormed(ps', q)
    requires forall i :: 0 <= i < |q| ==> ps[q[i]].vruntime == ps'[q[i]].vruntime
    ensures Slot(ps, q, v) == Slot(ps', q, v)
  {
    if q != [] { SlotFrame(ps, ps', q[1..], v); }
  }

  /** The current task goes back into the queue and the first of the queue takes over. */
  ghost predicate IsPreempt(s: Sched, r: Sched) {
    && QueueInv(s) && InTable(s.current) && s.queue != [] && InTable(s.queue[0])
    && var c, next := s.current, s.queue[0];
    && c != next && r.current == next && r.clock == Wrap64(s.clock + TICK_NS)
    && r.queue == Remove(Inserted(s.procs, s.queue, c), next)
    && r.procs == s.procs[c := s.procs[c].(state := Ready, execStart := 0, onRq := true)]
                         [next := s.procs[next].(state := Running, execStart := r.clock, onRq := false)]
  }

  /** Preemption: the current task and the first of the queue change places. */
  lemma {:induction false} PreemptShape(s: Sched)
    requires Inv(s) && s.current != NIL && s.queue != []
    ensures QueueInv(Requeue(s, s.current)) && s.queue[0] in Requeue(s, s.current).queue
    ensures var r := SwitchTo(Requeue(s, s.current), s.queue[0]); Inv(r) && IsPreempt(s, r)
  {
    RequeueShape(s, s.current);
    SwapShape(s, Requeue(s, s.current));
  }

  lemma {:induction false} SwapShape(s: Sched, u: Sched)
    requires Inv(s) && s.current != NIL && s.queue != [] && QueueInv(u) && u.clock == s.clock
    requires forall m :: m in u.queue <==> m in s.queue || m == s.current
    requires u.procs == s.procs[s.current := s.procs[s.current].(state := Ready, execStart := 0, onRq := true)]
    requires u.queue == Inserted(s.procs, s.queue, s.current)
    ensures s.queue[0] in u.queue
    ensures var r := SwitchTo(u, s.queue[0]); Inv(r) && IsPreempt(s, r)
  {
    assert s.queue[0] in s.queue;
    var q := u.queue;
    SwitchKeeps(u, s.queue[0]);
    SwapInv(s, u, SwitchTo(u, s.queue[0]));
  }

  lemma {:induction false} SwapInv(s: Sched, u: Sched, r: Sched)
    requires Inv(s) && s.current != NIL && s.queue != [] && s.queue[0] in s.queue
    requires forall m :: m in u.queue <==> m in s.queue || m == s.current
    requires u.procs == s.procs[s.current := s.procs[s.current].(state := Ready, execStart := 0, onRq := true)]
    requires u.queue == Inserted(s.procs, s.queue, s.current) && u.clock == s.clock
    requires QueueInv(r) && r.current == s.queue[0] && r.clock == Wrap64(u.clock + TICK_NS)
    requires (forall m :: m in r.queue <==> m in u.queue && m != s.queue[0]) && r.queue == Remove(u.queue, s.queue[0])
    requires r.procs == u.procs[s.queue[0] := u.procs[s.queue[0]].(onRq := false, state := Running, execStart := r.clock)]
    ensures Inv(r) && IsPreempt(s, r)
  {
    SwitchInv(s, r, s.queue[0]);
    SwapIs(s, u, r);
  }

  lemma {:induction false} SwapIs(s: Sched, u: Sched, r: Sched)
    requires QueueInv(s) && InTable(s.current) && s.queue != [] && InTable(s.queue[0]) && s.current != s.queue[0]
    requires u.procs == s.procs[s.current := s.procs[s.current].(state := Ready, execStart := 0, onRq := true)]
    requires u.queue == Inserted(s.procs, s.queue, s.current) && u.clock == s.clock
    requires r.current == s.queue[0] && r.clock == Wrap64(u.clock + TICK_NS) && r.queue == Remove(u.queue, s.queue[0])
    requires r.procs == u.procs[s.queue[0] := u.procs[s.queue[0]].(onRq := false, state := Running, execStart := r.clock)]
    ensures IsPreempt(s, r)
  {
  }

  datatype Outcome = Idle | Dispatch | Keep | Preempt

  /** What a tick decides; `p` is the current task's entity after the charge. */
  function TickOutcome(s: Sched, p: Proc): Outcome
    requires WellFormed(s.procs, s.queue)
  {
    if s.current == NIL then (if s.queue == [] then Idle else Dispatch)
    else if s.queue == [] || Sub64(p.vruntime, s.procs[s.queue[0]].vruntime) <= MIN_GRANULARITY then Keep
    else Preempt
  }

  /** What each outcome does to clock, queue, current task and table. */
  ghost predicate TickRel(s: Sched, p: Proc, r: Sched)
    requires QueueInv(s)
  {
    var c, now := s.current, Wrap64(s.clock + TICK_NS);
    match TickOutcome(s, p)
    case Idle => r == s
    case Dispatch =>
      var next := s.queue[0];
      && r.current == next && r.clock == now && r.queue == Remove(s.queue, next)
      && r.procs == s.procs[next := s.procs[next].(onRq := false, state := Running, execStart := r.clock)]
    case Keep =>
      r.current == c && r.clock == now && r.queue == s.queue && r.procs == s.procs[c := p]
    case Preempt =>
      var next := s.queue[0];
      && c != next && r.current == next && r.clock == Wrap64(now + TICK_NS)
      && r.queue == Remove(Inserted(s.procs[c := p], s.queue, c), next)
      && r.procs == s.procs[c := p.(state := Ready, execStart := 0, onRq := true)]
                           [next := s.procs[next].(state := Running, execStart := r.clock, onRq := false)]
  }

  /** The current task's entity after the charge of a tick. */
  function TickProc(s: Sched): Proc
    requires Inv(s)
  {
    if s.current == NIL then Proc(Unused, 0, 0, 0, 0, 0, false)
    else Charged(s.procs[s.current], Wrap64(s.clock + TICK_NS))
  }

  lemma {:induction false} TickShape(s: Sched)
    requires Inv(s)
    ensures Inv(Tick(s)) && TickRel(s, TickProc(s), Tick(s))
  {
    if s.current == NIL {
      if s.queue != [] {
        SwitchKeeps(s, s.queue[0]);
        SwitchInv(s, SwitchTo(s, s.queue[0]), s.queue[0]);
      }
    } else {
      ChargeShape(s);
      ChargedTick(s, UpdateCurr(s, s.current));
    }
  }

  lemma {:induction false} ChargeShape(s: Sched)
    requires Inv(s) && s.current != NIL
    ensures IsCharged(s, UpdateCurr(s, s.current)) && Inv(UpdateCurr(s, s.current))
  {
    UpdateCurrState(s);
    UpdateCurrKeeps(s, s.current);
  }

  ghost predicate IsCharged(s: Sched, r: Sched) {
    && Inv(s) && InTable(s.current) && s.procs[s.current].weight > 0
    && r.current == s.current && r.clock == Wrap64(s.clock + TICK_NS) && r.queue == s.queue
    && r.procs == s.procs[s.current := Charged(s.procs[s.current], r.clock)]
  }

  lemma {:induction false} ChargedTick(s: Sched, s1: Sched)
    requires IsCharged(s, s1) && Inv(s1)
    ensures s.queue == [] || !ShouldPreempt(s1, s.current, s.queue[0]) ==> TickRel(s, s1.procs[s.current], s1)
    ensures s.queue != [] ==> QueueInv(Requeue(s1, s.current))
    ensures s.queue != [] && ShouldPreempt(s1, s.current, s.queue[0]) ==>
      var r := SwitchTo(Requeue(s1, s.current), s.queue[0]); Inv(r) && TickRel(s, s1.procs[s.current], r)
  {
    if s.queue != [] {
      assert s.queue[0] in s.queue;
      assert s1.procs[s.queue[0]] == s.procs[s.queue[0]];
      PreemptShape(s1);
      hide Inv, QueueInv, IsPreempt;
      var r := SwitchTo(Requeue(s1, s.current), s.queue[0]);
      if ShouldPreempt(s1, s.current, s.queue[0]) { PreemptRel(s, s1, r); }
    }
  }

  lemma {:induction false} PreemptRel(s: Sched, s1: Sched, r: Sched)
    requires IsCharged(s, s1) && s.queue != [] && s.queue[0] in s.queue && ShouldPreempt(s1, s.current, s.queue[0])
    requires IsPreempt(s1, r)
    ensures TickRel(s, s1.procs[s.current], r)
  {
  }

  lemma {:induction false} AdmitInv(s: Sched, r: Sched, n: int, p: Proc)
    requires Inv(s) && QueueInv(r) && InTable(n) && s.procs[n].state.Unused? && r.current == s.current
    requires r.procs == s.procs[n := p] && p.state.Ready? && p.weight == NiceToWeight(p.nice)
    requires forall m :: m in r.queue <==> m in s.queue || m == n
    ensures Inv(r)
  {
  }

  /** A task as cfs_create_process leaves it: ready, queued, at vruntime `v` and never run. */
  predicate IsNewborn(p: Proc, nice: int, v: nat) {
    && p.state.Ready? && p.onRq && p.nice == nice && p.weight == NiceToWeight(nice)
    && p.vruntime == v && p.execStart == 0 && p.sumExec == 0
  }

  /** Creation takes the first unused slot and queues it at the present min_vruntime. */
  lemma {:induction false} CreateShape(s: Sched, nice: int)
    requires Inv(s)
    ensures var (r, n) := Create(s, nice);
      && Inv(r) && n == FreeSlot(s.procs, 0) && r.current == s.current && r.clock == s.clock
      && r.minVruntime == s.minVruntime && (n == NIL ==> r == s)
      && (n != NIL ==>
          && InTable(n) && s.procs[n].state.Unused? && n !in s.queue
          && IsNewborn(r.procs[n], nice, s.minVruntime)
          && r.procs == s.procs[n := NewProc(nice, s.minVruntime).(onRq := true)]
          && r.queue == Inserted(s.procs[n := NewProc(nice, s.minVruntime)], s.queue, n))
  {
    var n := FreeSlot(s.procs, 0);
    if n != NIL {
      var p := NewProc(nice, s.minVruntime);
      var s1 := s.(procs := s.procs[n := p]);
      QueueFrame(s, s1, n);
      EnqueueKeeps(s1, n);
      AdmitInv(s, Enqueue(s1, n), n, p.(onRq := true));
    }
  }

  // ---------------------------------------------------------------- runs

  datatype Op = OpCreate(nice: int) | OpTick

  function Step(s: Sched, op: Op): Sched
    requires Inv(s)
  {
    match op
    case OpCreate(nice) => Create(s, nice).0
    case OpTick => Tick(s)
  }

  lemma {:induction false} StepKeeps(s: Sched, op: Op)
    requires Inv(s)
    ensures Inv(Step(s, op))
    ensures Step(s, op) == if op.OpTick? then Tick(s) else Create(s, op.nice).0
  {
    match op
    case OpCreate(nice) => CreateShape(s, nice);
    case OpTick => TickShape(s);
  }

  /** The state after cfs_init and the given calls.  In every run each created task is
      queued exactly once or is the sole current task, and the queue is in vruntime order. */
  function Run(ops: seq<Op>): (s: Sched)
    ensures Inv(s)
  {
    if ops == [] then
      InitInv();
      Init()
    else
      var s := Run(ops[..|ops| - 1]);
      StepKeeps(s, ops[|ops| - 1]);
      Step(s, ops[|ops| - 1])
  }

  // ---------------------------------------------------------------- execution time

  /** The current task started at the present reading of the clock. */
  predicate InStep(s: Sched)
    requires |s.procs| == MAX_PROCESSES && (s.current == NIL || InTable(s.current))
  {
    s.current != NIL ==> s.procs[s.current].execStart == s.clock >= TICK_NS
  }

  /** vruntime charged for one tick; the 32-bit product does not wrap. */
  function TickCharge(weight: nat): nat
    requires weight > 0
  {
    TICK_NS * NICE_0_LOAD / weight
  }

  const MAX_CHARGE := 68_266_666

  lemma {:induction false} TickChargeExact(nice: int)
    ensures var w := NiceToWeight(nice);
      CalcDeltaFair(TICK_NS, w) == TickCharge(w) && 11_536 <= TickCharge(w) <= MAX_CHARGE
  {
    var w := NiceToWeight(nice);
    ChargeBounds(w);
  }

  lemma {:induction false} ChargeBounds(w: nat)
    requires 15 <= w <= 88761
    ensures 11_536 <= TICK_NS * NICE_0_LOAD / w <= MAX_CHARGE
  {
    var q := TICK_NS * NICE_0_LOAD / w;
    assert q * w <= TICK_NS * NICE_0_LOAD < q * w + w;
  }

  /** A task that is in step is charged exactly one tick. */
  lemma {:induction false} ChargedExact(s: Sched)
    requires Inv(s) && s.current != NIL && InStep(s) && s.clock + TICK_NS < TWO64
    ensures var p := s.procs[s.current];
      && p.weight > 0
      && TickProc(s) == p.(execStart := s.clock + TICK_NS, sumExec := Wrap64(p.sumExec + TICK_NS),
                           vruntime := Wrap64(p.vruntime + TickCharge(p.weight)))
  {
    TickChargeExact(s.procs[s.current].nice);
  }

  lemma {:induction false} InStepRel(s: Sched, p: Proc, r: Sched)
    requires Inv(s) && Inv(r) && TickRel(s, p, r) && s.clock + 2 * TICK_NS < TWO64
    requires s.current != NIL ==> p.execStart == s.clock + TICK_NS
    ensures InStep(r) || r == s
    ensures s.clock <= r.clock <= s.clock + 2 * TICK_NS
  {
  }

  /** The current task's start time stays equal to the clock. */
  lemma {:induction false} TickInStep(s: Sched)
    requires Inv(s) && InStep(s) && s.clock + 2 * TICK_NS < TWO64
    ensures Inv(Tick(s)) && InStep(Tick(s)) && s.clock <= Tick(s).clock <= s.clock + 2 * TICK_NS
  {
    TickShape(s);
    if s.current != NIL { ChargedExact(s); }
    InStepRel(s, TickProc(s), Tick(s));
  }
}
