/** min_vruntime in every run: how a tick moves it, and what it means for new tasks. */
module CfsFloor {
  import opened RbShape
  import opened CfsModel
  import opened CfsRuns
  import opened CfsTheorems

  // ---------------------------------------------------------------- one tick

  /** Task `x` is looked at when the tick from `s` to `r` moves min_vruntime: it is queued
      afterwards, or it is current before and afterwards. */
  predicate Compared(s: Sched, r: Sched, x: int) {
    x in r.queue || (x == r.current && x == s.current && x != NIL)
  }

  /** Some task is compared, and none that is compared is below `v`. */
  ghost predicate Floor(s: Sched, r: Sched, v: nat)
    requires QueueInv(r)
  {
    && (exists x :: Compared(s, r, x))
    && forall x :: Compared(s, r, x) ==> InTable(x) && v <= r.procs[x].vruntime
  }

  /** min_vruntime after the tick is the larger of what it was and the least vruntime of the
      tasks compared. */
  ghost predicate MinMoved(s: Sched, r: Sched, v: nat)
    requires QueueInv(r)
  {
    v <= r.minVruntime <==> v <= s.minVruntime || Floor(s, r, v)
  }

  /** Removing a task from the queue. */
  lemma {:induction false} DequeueMin(s: Sched, n: int, v: nat)
    requires QueueInv(s) && n in s.queue
    ensures InTable(n) && QueueInv(Dequeue(s, n)) && Dequeue(s, n).queue == Remove(s.queue, n)
    ensures v <= Dequeue(s, n).minVruntime
       <==> || v <= s.minVruntime
            || ((s.current != NIL || Remove(s.queue, n) != []) && (s.current != NIL ==> v <= s.procs[s.current].vruntime)
                && forall x :: x in Remove(s.queue, n) ==> InTable(x) && v <= s.procs[x].vruntime)
  {
    assert InTable(n) && s.procs[n].onRq;
    DequeueKeeps(s, n);
    var s1 := s.(queue := Remove(s.queue, n), procs := s.procs[n := s.procs[n].(onRq := false)]);
    UnlinkedInv(s, n);
    MinVruntimeExact(s1, v);
    hide UpdateMinVruntime, QueueInv;
    forall x | x in Remove(s.queue, n) ensures InTable(x) && s1.procs[x].vruntime == s.procs[x].vruntime {
      QueuedInTable(s1, x);
    }
  }

  lemma {:induction false} QueuedInTable(s: Sched, x: int)
    requires QueueInv(s) && x in s.queue
    ensures InTable(x)
  {
  }

  lemma {:induction false} UnlinkedInv(s: Sched, n: int)
    requires QueueInv(s) && n in s.queue && InTable(n)
    ensures QueueInv(s.(queue := Remove(s.queue, n), procs := s.procs[n := s.procs[n].(onRq := false)]))
  {
    RemoveKeeps(s.queue, n);
    RemoveSorted(s.procs, s.queue, n);
  }

  /** The charge of the current task. */
  lemma {:induction false} ChargeMin(s: Sched, v: nat)
    requires Inv(s) && InStep(s) && s.current != NIL
    ensures IsCharged(s, UpdateCurr(s, s.current)) && Inv(UpdateCurr(s, s.current))
    ensures MinMoved(s, UpdateCurr(s, s.current), v)
  {
    ChargeShape(s);
    var c := s.current;
    var now := Wrap64(s.clock + TICK_NS);
    var s1 := s.(clock := now, procs := s.procs[c := Charged(s.procs[c], now)]);
    ChargedSame(s.procs[c], now);
    hide Charged;
    QueueFrame(s, s1, c);
    MinVruntimeExact(s1, v);
    var r := UpdateCurr(s, c);
    assert r == UpdateMinVruntime(s1);
    hide UpdateMinVruntime, UpdateCurr;
    ComparedAll(s, r, v);
  }

  /** With the current task kept, all tasks are compared. */
  lemma {:induction false} ComparedAll(s: Sched, r: Sched, v: nat)
    requires QueueInv(r) && r.current == s.current != NIL
    ensures Floor(s, r, v) <==>
      v <= r.procs[r.current].vruntime && forall x :: x in r.queue ==> InTable(x) && v <= r.procs[x].vruntime
  {
    assert Compared(s, r, r.current);
    forall x | x in r.queue ensures Compared(s, r, x) && InTable(x) {
    }
  }

  /** With another task current, the queue is compared. */
  lemma {:induction false} ComparedQueue(s: Sched, r: Sched, v: nat)
    requires QueueInv(r) && (s.current == NIL || r.current != s.current)
    ensures Floor(s, r, v) <==> r.queue != [] && forall x :: x in r.queue ==> InTable(x) && v <= r.procs[x].vruntime
  {
    if r.queue != [] {
      assert r.queue[0] in r.queue;
      assert Compared(s, r, r.queue[0]);
    }
    forall x | x in r.queue ensures Compared(s, r, x) && InTable(x) {
    }
  }

  lemma {:induction false} DispatchMin(s: Sched, v: nat)
    requires Inv(s) && s.current == NIL && s.queue != []
    ensures QueueInv(SwitchTo(s, s.queue[0])) && MinMoved(s, SwitchTo(s, s.queue[0]), v)
  {
    var next := s.queue[0];
    assert next in s.queue && InTable(next);
    SwitchKeeps(s, next);
    DequeueMin(s, next, v);
    var r := SwitchTo(s, next);
    assert r.minVruntime == Dequeue(s, next).minVruntime && r.queue == Remove(s.queue, next);
    hide SwitchTo, Dequeue;
    ComparedQueue(s, r, v);
    SameVruntimes(s, r);
  }

  lemma {:induction false} SameVruntimes(s: Sched, r: Sched)
    requires |s.procs| == |r.procs| == MAX_PROCESSES && InTable(r.current)
    requires r.procs == s.procs[r.current := r.procs[r.current]] && r.procs[r.current].vruntime == s.procs[r.current].vruntime
    ensures forall x :: InTable(x) ==> r.procs[x].vruntime == s.procs[x].vruntime
  {
  }

  /** The current task goes back and the first of the queue takes over. */
  lemma {:induction false} SwapMin(s: Sched, v: nat)
    requires Inv(s) && s.current != NIL && s.queue != []
    ensures QueueInv(Requeue(s, s.current)) && InTable(s.queue[0])
    ensures var r := SwitchTo(Requeue(s, s.current), s.queue[0]); QueueInv(r) && MinMoved(s, r, v)
  {
    var c, next := s.current, s.queue[0];
    assert next in s.queue;
    RequeueShape(s, c);
    var u := Requeue(s, c);
    PreemptShape(s);
    SwitchKeeps(u, next);
    DequeueMin(u, next, v);
    var r := SwitchTo(u, next);
    assert u.minVruntime == s.minVruntime && r.minVruntime == Dequeue(u, next).minVruntime;
    hide SwitchTo, Dequeue, Requeue, Inv;
    ComparedQueue(s, r, v);
    SwapFloor(s, u, r, v);
  }

  /** The task that went back is in the queue, so the current one adds nothing. */
  lemma {:induction false} SwapFloor(s: Sched, u: Sched, r: Sched, v: nat)
    requires |s.procs| == |u.procs| == |r.procs| == MAX_PROCESSES && InTable(s.current) && InTable(r.current)
    requires u.current == s.current && s.current in r.queue && r.current !in r.queue
    requires (forall x :: x in r.queue ==> InTable(x)) && u.procs[s.current].vruntime == s.procs[s.current].vruntime
    requires r.procs == u.procs[r.current := r.procs[r.current]]
    ensures v <= u.procs[u.current].vruntime && (forall x :: x in r.queue ==> InTable(x) && v <= u.procs[x].vruntime)
       <==> forall x :: x in r.queue ==> InTable(x) && v <= r.procs[x].vruntime
  {
    forall x | x in r.queue ensures r.procs[x] == u.procs[x] {
    }
  }

  /** What is below all tasks before a swap is below all queued ones after it. */
  lemma {:induction false} FloorStays(s: Sched, s1: Sched, r: Sched, v: nat)
    requires Inv(s1) && s1.current != NIL && s1.queue != [] && IsPreempt(s1, r) && QueueInv(r)
    requires s.current == s1.current && Floor(s, s1, v)
    ensures Floor(s1, r, v)
  {
    ComparedAll(s, s1, v);
    ComparedQueue(s1, r, v);
    var c, next := s1.current, s1.queue[0];
    assert next in s1.queue;
    InsertedKeeps(s1.procs, s1.queue, c);
    RemoveKeeps(Inserted(s1.procs, s1.queue, c), next);
    assert c in r.queue;
    hide Floor, Inserted;
    forall x | x in r.queue ensures InTable(x) && v <= r.procs[x].vruntime {
      assert x in s1.queue || x == c;
    }
  }

  /** The law of min_vruntime for a tick. */
  lemma {:induction false} TickMin(s: Sched, v: nat)
    requires Inv(s) && InStep(s)
    ensures Inv(Tick(s)) && (Tick(s) == s || MinMoved(s, Tick(s), v))
    ensures s.minVruntime <= Tick(s).minVruntime
  {
    TickShape(s);
    if s.current == NIL {
      if s.queue != [] {
        DispatchMin(s, v);
        DispatchMin(s, s.minVruntime);
      }
    } else {
      BusyTickMin(s, v);
      BusyTickMin(s, s.minVruntime);
    }
  }

  lemma {:induction false} BusyTickMin(s: Sched, v: nat)
    requires Inv(s) && InStep(s) && s.current != NIL
    ensures Inv(Tick(s)) && MinMoved(s, Tick(s), v)
  {
    TickShape(s);
    ChargeMin(s, v);
    var s1 := UpdateCurr(s, s.current);
    if s.queue != [] && ShouldPreempt(s1, s.current, s.queue[0]) {
      SwapMin(s1, v);
      PreemptShape(s1);
      assert Tick(s) == SwitchTo(Requeue(s1, s.current), s.queue[0]);
      hide Tick, UpdateCurr, SwitchTo, Requeue, Inv, IsPreempt, IsCharged, Floor;
      MovedTwice(s, s1, Tick(s), v);
    } else {
      assert Tick(s) == s1;
    }
  }

  lemma {:induction false} MovedTwice(s: Sched, s1: Sched, r: Sched, v: nat)
    requires Inv(s1) && s1.current != NIL && s1.queue != [] && IsPreempt(s1, r) && QueueInv(r) && s.current == s1.current
    requires MinMoved(s, s1, v) && MinMoved(s1, r, v)
    ensures MinMoved(s, r, v)
  {
    assert Floor(s1, r, v) <==> Floor(s, r, v) by {
      assert forall x :: Compared(s1, r, x) <==> Compared(s, r, x);
    }
    if Floor(s, s1, v) { FloorStays(s, s1, r, v); }
  }

  // ---------------------------------------------------------------- runs

  /** Every vruntime, and min_vruntime, is at most `b`. */
  ghost predicate AtMost(s: Sched, b: nat) {
    |s.procs| == MAX_PROCESSES && s.minVruntime <= b && forall m :: InTable(m) ==> s.procs[m].vruntime <= b
  }

  /** The law of min_vruntime in every run, up to the wrap of the clock: a tick moves it as
      `MinMoved` says, a creation leaves it alone and starts the task there. */
  lemma {:induction false} MinInRuns(ops: seq<Op>, v: nat, nice: int)
    requires 2 * TICK_NS * |ops| < TWO64
    ensures var s := Run(ops);
      && (Tick(s) == s || (Inv(Tick(s)) && MinMoved(s, Tick(s), v))) && s.minVruntime <= Tick(s).minVruntime
      && var (r, n) := Create(s, nice);
         r.minVruntime == s.minVruntime && (n != NIL ==> InTable(n) && Inv(r) && IsNewborn(r.procs[n], nice, s.minVruntime))
  {
    Accounting(ops);
    hide Run;
    TickMin(Run(ops), v);
    CreateShape(Run(ops), nice);
  }

  lemma {:induction false} TickAtMost(s: Sched, b: nat)
    requires Inv(s) && InStep(s) && AtMost(s, b) && b + MAX_CHARGE < TWO64 && s.clock + 2 * TICK_NS < TWO64
    ensures Inv(Tick(s)) && AtMost(Tick(s), b + MAX_CHARGE)
    ensures forall m :: InTable(m) ==> s.procs[m].vruntime <= Tick(s).procs[m].vruntime
    ensures forall m :: InTable(m) ==> (Tick(s).procs[m].state.Unused? <==> s.procs[m].state.Unused?)
  {
    var r := Tick(s);
    TickShape(s);
    WaitingCharge(s);
    if s.current != NIL { ChargeBounds(s.procs[s.current].weight); }
    TickMin(s, r.minVruntime);
    hide Tick, TickCharge;
    TickOnlyCharges(s, TickProc(s), r);
    VruntimesGrow(s, TickProc(s), r, b);
    if r != s && r.minVruntime > s.minVruntime {
      var x :| Compared(s, r, x);
    }
  }

  lemma {:induction false} VruntimesGrow(s: Sched, p: Proc, r: Sched, b: nat)
    requires OnlyCharged(s, p, r) && AtMost(s, b)
    requires s.current != NIL ==> InTable(s.current) && s.procs[s.current].vruntime <= p.vruntime <= b + MAX_CHARGE
    ensures forall m :: InTable(m) ==> s.procs[m].vruntime <= r.procs[m].vruntime <= b + MAX_CHARGE
    ensures forall m :: InTable(m) ==> (r.procs[m].state.Unused? <==> s.procs[m].state.Unused?)
  {
  }

  lemma {:induction false} CreateAtMost(s: Sched, nice: int, b: nat)
    requires Inv(s) && AtMost(s, b)
    ensures AtMost(Create(s, nice).0, b + MAX_CHARGE)
    ensures forall m :: InTable(m) && !s.procs[m].state.Unused? ==> Create(s, nice).0.procs[m] == s.procs[m]
  {
    CreateShape(s, nice);
  }

  /** From `s` to `r` no task lost vruntime or its slot. */
  ghost predicate Grew(s: Sched, r: Sched) {
    && |s.procs| == |r.procs| == MAX_PROCESSES
    && forall m :: InTable(m) && !s.procs[m].state.Unused? ==>
         !r.procs[m].state.Unused? && s.procs[m].vruntime <= r.procs[m].vruntime
  }

  lemma {:induction false} StepAtMost(s: Sched, op: Op, b: nat)
    requires Inv(s) && InStep(s) && AtMost(s, b) && b + MAX_CHARGE < TWO64 && s.clock + 2 * TICK_NS < TWO64
    ensures AtMost(Step(s, op), b + MAX_CHARGE) && Grew(s, Step(s, op))
    ensures op.OpTick? ==> forall m :: InTable(m) && !Tick(s).procs[m].state.Unused? ==> !s.procs[m].state.Unused?
  {
    hide Tick, Create;
    match op
    case OpCreate(nice) => CreateAtMost(s, nice, b);
    case OpTick => TickAtMost(s, b);
  }

  /** The last call of a run. */
  lemma {:induction false} LastAtMost(ops: seq<Op>, s: Sched, r: Sched, op: Op)
    requires ops != [] && MAX_CHARGE * |ops| < TWO64 && s == Run(ops[..|ops| - 1]) && r == Run(ops) && op == ops[|ops| - 1]
    requires AtMost(s, MAX_CHARGE * (|ops| - 1))
    ensures r == Step(s, op) && AtMost(r, MAX_CHARGE * |ops|) && Grew(s, r)
    ensures op.OpTick? ==> forall m :: InTable(m) && !r.procs[m].state.Unused? ==> !s.procs[m].state.Unused?
  {
    hide Run, Tick, Create, AtMost, Grew;
    ClockRoom(|ops|);
    Accounting(ops[..|ops| - 1]);
    RunLast(ops);
    StepAtMost(s, op, MAX_CHARGE * (|ops| - 1));
  }

  lemma {:induction false} ClockRoom(n: nat)
    requires MAX_CHARGE * n < TWO64
    ensures n > 0 ==> 2 * TICK_NS * (n - 1) + 2 * TICK_NS < TWO64 && MAX_CHARGE * (n - 1) + MAX_CHARGE == MAX_CHARGE * n
  {
  }

  /** After `n` calls no vruntime has passed `n` times the largest charge. */
  lemma {:induction false} RunAtMost(ops: seq<Op>)
    requires MAX_CHARGE * |ops| < TWO64
    ensures AtMost(Run(ops), MAX_CHARGE * |ops|)
  {
    if ops == [] {
      InitInv();
    } else {
      var before := ops[..|ops| - 1];
      RunAtMost(before);
      hide Run, AtMost;
      LastAtMost(ops, Run(before), Run(ops), ops[|ops| - 1]);
    }
  }

  /** For each slot, min_vruntime at the creation of the task that is in it. */
  function Births(ops: seq<Op>): (bs: seq<nat>)
    ensures |bs| == MAX_PROCESSES
  {
    if ops == [] then seq(MAX_PROCESSES, i => 0)
    else
      var before, op := ops[..|ops| - 1], ops[|ops| - 1];
      var n := if op.OpCreate? then FreeSlot(Run(before).procs, 0) else NIL;
      if InTable(n) then Births(before)[n := Run(before).minVruntime] else Births(before)
  }

  /** No task is behind the vruntime listed for its slot. */
  ghost predicate NotBehind(bs: seq<nat>, s: Sched) {
    && |bs| == |s.procs| == MAX_PROCESSES
    && forall m :: InTable(m) && !s.procs[m].state.Unused? ==> bs[m] <= s.procs[m].vruntime
  }

  /** No task is ever behind the min_vruntime it was created at. */
  lemma {:induction false} NeverBehindBirth(ops: seq<Op>)
    requires MAX_CHARGE * |ops| < TWO64
    ensures NotBehind(Births(ops), Run(ops))
  {
    if ops == [] {
      InitInv();
    } else {
      var before, op := ops[..|ops| - 1], ops[|ops| - 1];
      ClockRoom(|ops|);
      NeverBehindBirth(before);
      RunAtMost(before);
      var s, r := Run(before), Run(ops);
      hide Run, Tick, Create, AtMost, Inv, Births, NotBehind;
      LastAtMost(ops, s, r, op);
      BirthsSnoc(ops, s);
      if op.OpCreate? {
        CreateShape(s, op.nice);
        BornNotBehind(Births(before), s, r, FreeSlot(s.procs, 0));
      } else {
        TickNotBehind(Births(before), s, r);
      }
    }
  }

  lemma {:induction false} TickNotBehind(bs: seq<nat>, s: Sched, r: Sched)
    requires NotBehind(bs, s) && Grew(s, r)
    requires forall m :: InTable(m) && !r.procs[m].state.Unused? ==> !s.procs[m].state.Unused?
    ensures NotBehind(bs, r)
  {
  }

  lemma {:induction false} BornNotBehind(bs: seq<nat>, s: Sched, r: Sched, n: int)
    requires NotBehind(bs, s) && |r.procs| == MAX_PROCESSES && (n == NIL ==> r == s)
    requires n != NIL ==> InTable(n) && r.procs == s.procs[n := r.procs[n]] && r.procs[n].vruntime == s.minVruntime
    ensures NotBehind(if InTable(n) then bs[n := s.minVruntime] else bs, r)
  {
  }

  lemma {:induction false} BirthsSnoc(ops: seq<Op>, s: Sched)
    requires ops != [] && s == Run(ops[..|ops| - 1])
    ensures var before, op := ops[..|ops| - 1], ops[|ops| - 1];
      var n := if op.OpCreate? then FreeSlot(s.procs, 0) else NIL;
      Births(ops) == if InTable(n) then Births(before)[n := s.minVruntime] else Births(before)
  {
  }
}
