/** Accounting, fairness of ties and freedom from starvation, for every run. */
module CfsTheorems {
  import opened RbShape
  import opened CfsModel
  import opened CfsRuns

  // ---------------------------------------------------------------- accounting

  function TotalExec(ps: seq<Proc>): nat {
    if ps == [] then 0 else ps[0].sumExec + TotalExec(ps[1..])
  }

  lemma {:induction false} TotalUpdate(ps: seq<Proc>, n: nat, p: Proc)
    requires n < |ps|
    ensures TotalExec(ps[n := p]) == TotalExec(ps) - ps[n].sumExec + p.sumExec
  {
    if n == 0 {
      assert ps[n := p][1..] == ps[1..];
    } else {
      assert ps[n := p][1..] == ps[1..][n - 1 := p];
      TotalUpdate(ps[1..], n - 1, p);
    }
  }

  lemma {:induction false} TotalBound(ps: seq<Proc>, n: nat)
    requires n < |ps|
    ensures ps[n].sumExec <= TotalExec(ps)
  {
    if n > 0 { TotalBound(ps[1..], n - 1); }
  }

  lemma {:induction false} AccountRel(s: Sched, p: Proc, r: Sched)
    requires Inv(s) && TickRel(s, p, r)
    requires s.current != NIL ==> p.sumExec == s.procs[s.current].sumExec + TICK_NS
    ensures TotalExec(r.procs) == TotalExec(s.procs) + if s.current == NIL then 0 else TICK_NS
  {
    var c := s.current;
    match TickOutcome(s, p)
    case Idle =>
    case Dispatch =>
      var next := s.queue[0];
      TotalUpdate(s.procs, next, r.procs[next]);
    case Keep =>
      TotalUpdate(s.procs, c, p);
    case Preempt =>
      var next := s.queue[0];
      var p' := p.(state := Ready, execStart := 0, onRq := true);
      TotalUpdate(s.procs, c, p');
      TotalUpdate(s.procs[c := p'], next, r.procs[next]);
  }

  /** The number of ticks entered with a current task. */
  function BusyTicks(ops: seq<Op>): nat {
    if ops == [] then 0
    else
      var before := ops[..|ops| - 1];
      BusyTicks(before) + if ops[|ops| - 1].OpTick? && Run(before).current != NIL then 1 else 0
  }

  /** Before the clock can wrap, the current task's start time is the clock, and the time
      charged to all tasks together is one millisecond for each busy tick. */
  lemma {:induction false} Accounting(ops: seq<Op>)
    requires 2 * TICK_NS * |ops| < TWO64
    ensures Accounted(Run(ops), BusyTicks(ops)) && BusyTicks(ops) <= |ops|
    ensures Run(ops).clock <= 2 * TICK_NS * |ops|
  {
    hide Tick, Create;
    if ops == [] {
      TotalZero(Init().procs);
    } else {
      var before := ops[..|ops| - 1];
      RoomBefore(|ops|);
      Accounting(before);
      RunLast(ops);
      BusyLast(ops);
      hide Run, Step, BusyTicks, Accounted;
      AccountRoom(|ops|, BusyTicks(before), Run(before).clock);
      AccountStep(Run(before), ops[|ops| - 1], BusyTicks(before));
    }
  }

  lemma {:induction false} RoomBefore(n: nat)
    requires n > 0 && 2 * TICK_NS * n < TWO64
    ensures 2 * TICK_NS * (n - 1) < TWO64 && 2 * TICK_NS * (n - 1) + 2 * TICK_NS == 2 * TICK_NS * n
  {
  }

  lemma {:induction false} AccountRoom(n: nat, busy: nat, clock: nat)
    requires n > 0 && 2 * TICK_NS * n < TWO64 && busy <= n - 1 && clock <= 2 * TICK_NS * (n - 1)
    ensures clock + 2 * TICK_NS < TWO64 && TICK_NS * busy + TICK_NS < TWO64
  {
  }

  lemma {:induction false} BusyLast(ops: seq<Op>)
    requires ops != []
    ensures var before, op := ops[..|ops| - 1], ops[|ops| - 1];
      BusyTicks(ops) == BusyTicks(before) + if op.OpTick? && Run(before).current != NIL then 1 else 0
    ensures BusyTicks([]) == 0
  {
    hide Run;
  }

  lemma {:induction false} RunLast(ops: seq<Op>)
    requires ops != []
    ensures Run(ops) == Step(Run(ops[..|ops| - 1]), ops[|ops| - 1]) && Run([]) == Init()
  {
  }

  lemma {:induction false} AccountStep(s: Sched, op: Op, busy: nat)
    requires Accounted(s, busy) && s.clock + 2 * TICK_NS < TWO64 && TICK_NS * busy + TICK_NS < TWO64
    ensures Accounted(Step(s, op), busy + if op.OpTick? && s.current != NIL then 1 else 0)
    ensures Step(s, op).clock <= s.clock + 2 * TICK_NS
  {
    match op
    case OpCreate(nice) => AccountCreate(s, nice, busy);
    case OpTick => AccountTick(s, busy);
  }

  lemma {:induction false} TotalZero(ps: seq<Proc>)
    requires forall i :: 0 <= i < |ps| ==> ps[i].sumExec == 0
    ensures TotalExec(ps) == 0
  {
    if ps != [] { TotalZero(ps[1..]); }
  }

  /** The facts that `Accounting` carries along a run. */
  ghost predicate Accounted(s: Sched, busy: nat) {
    Inv(s) && InStep(s) && TotalExec(s.procs) == 1_000_000 * busy
  }

  lemma {:induction false} AccountTickRel(s: Sched, p: Proc, r: Sched, busy: nat)
    requires Accounted(s, busy) && Inv(r) && TickRel(s, p, r)
    requires s.clock + 2 * TICK_NS < TWO64 && TICK_NS * busy + TICK_NS < TWO64
    requires s.current != NIL ==>
      p.execStart == s.clock + TICK_NS && p.sumExec == Wrap64(s.procs[s.current].sumExec + TICK_NS)
    ensures Accounted(r, busy + if s.current == NIL then 0 else 1) && r.clock <= s.clock + 2 * TICK_NS
  {
    InStepRel(s, p, r);
    if s.current != NIL { TotalBound(s.procs, s.current); }
    AccountRel(s, p, r);
  }

  lemma {:induction false} AccountTick(s: Sched, busy: nat)
    requires Accounted(s, busy) && s.clock + 2 * TICK_NS < TWO64 && TICK_NS * busy + TICK_NS < TWO64
    ensures Accounted(Tick(s), busy + if s.current == NIL then 0 else 1)
    ensures Tick(s).clock <= s.clock + 2 * TICK_NS
  {
    TickShape(s);
    if s.current != NIL { ChargedExact(s); }
    AccountTickRel(s, TickProc(s), Tick(s), busy);
  }

  lemma {:induction false} AccountCreate(s: Sched, nice: int, busy: nat)
    requires Accounted(s, busy)
    ensures Accounted(Create(s, nice).0, busy) && Create(s, nice).0.clock == s.clock
  {
    CreateShape(s, nice);
    var n := FreeSlot(s.procs, 0);
    if n != NIL { TotalUpdate(s.procs, n, NewProc(nice, s.minVruntime).(onRq := true)); }
  }

  // ---------------------------------------------------------------- ties

  /** The slot that a step puts into the queue, or the null pointer. */
  function Enqueued(s: Sched, op: Op): int
    requires Inv(s)
  {
    match op
    case OpCreate(nice) => Create(s, nice).1
    case OpTick => if s.current != NIL && Tick(s).current != s.current then s.current else NIL
  }

  /** For each slot, the number of the step that last put it into the queue. */
  function Stamps(ops: seq<Op>): (st: seq<nat>)
    ensures |st| == MAX_PROCESSES && forall i :: 0 <= i < |st| ==> st[i] <= |ops|
  {
    if ops == [] then seq(MAX_PROCESSES, i => 0)
    else
      var before := ops[..|ops| - 1];
      var n := Enqueued(Run(before), ops[|ops| - 1]);
      if 0 <= n < MAX_PROCESSES then Stamps(before)[n := |ops|] else Stamps(before)
  }

  /** The queue is in order of vruntime, and of arrival among equal vruntimes. */
  predicate FifoSorted(ps: seq<Proc>, q: seq<int>, st: seq<nat>)
    requires WellFormed(ps, q) && |st| == MAX_PROCESSES
  {
    forall i, j :: 0 <= i < j < |q| ==> FifoBefore(ps, st, q[i], q[j])
  }

  lemma {:induction false} FifoInsert(ps: seq<Proc>, q: seq<int>, st: seq<nat>, n: int, now: nat)
    requires WellFormed(ps, q) && |st| == MAX_PROCESSES && FifoSorted(ps, q, st) && Sorted(ps, q)
    requires InTable(n) && n !in q && forall i :: 0 <= i < |st| ==> st[i] < now
    ensures WellFormed(ps, Inserted(ps, q, n)) && FifoSorted(ps, Inserted(ps, q, n), st[n := now])
  {
    var k := InsertedAt(ps, q, n);
    InsertedSorted(ps, q, n);
    hide Inserted, Sorted;
    var r := Inserted(ps, q, n);
    forall i, j | 0 <= i < j < |r| ensures FifoBefore(ps, st[n := now], r[i], r[j]) {
      FifoPair(ps, q, st, n, now, i, j);
    }
  }

  /** Task `m` stands before task `n`: it is earlier, or as early and came first. */
  predicate FifoBefore(ps: seq<Proc>, st: seq<nat>, m: int, n: int)
    requires InTable(m) && InTable(n) && |ps| == |st| == MAX_PROCESSES
  {
    ps[m].vruntime < ps[n].vruntime || (ps[m].vruntime == ps[n].vruntime && st[m] < st[n])
  }

  lemma {:induction false} FifoPair(ps: seq<Proc>, q: seq<int>, st: seq<nat>, n: int, now: nat, i: nat, j: nat)
    requires WellFormed(ps, q) && |st| == MAX_PROCESSES && FifoSorted(ps, q, st)
    requires InTable(n) && n !in q && i < j < |Inserted(ps, q, n)| && forall i :: 0 <= i < |st| ==> st[i] < now
    ensures var r := Inserted(ps, q, n); InTable(r[i]) && InTable(r[j]) && FifoBefore(ps, st[n := now], r[i], r[j])
  {
    var k := InsertedAt(ps, q, n);
    hide Inserted;
    var r := Inserted(ps, q, n);
    if i == k {
      assert r[j] == q[j - 1];
      LaterThan(ps, q, ps[n].vruntime, k, j - 1, st);
    } else if j == k {
      assert r[i] == q[i] && q[i] in q;
    } else {
      var a, b := if i < k then i else i - 1, if j < k then j else j - 1;
      assert r[i] == q[a] && r[j] == q[b] && q[a] in q && q[b] in q;
    }
  }

  /** What stands at or behind the slot for `v` is later than `v`. */
  lemma {:induction false} LaterThan(ps: seq<Proc>, q: seq<int>, v: nat, k: nat, j: nat, st: seq<nat>)
    requires WellFormed(ps, q) && |st| == MAX_PROCESSES && FifoSorted(ps, q, st) && k == Slot(ps, q, v) <= j < |q|
    ensures v < ps[q[j]].vruntime
  {
    if k < j { assert FifoBefore(ps, st, q[k], q[j]); }
  }

  lemma {:induction false} FifoRemove(ps: seq<Proc>, q: seq<int>, st: seq<nat>, n: int)
    requires WellFormed(ps, q) && |st| == MAX_PROCESSES && FifoSorted(ps, q, st) && n in q
    ensures WellFormed(ps, Remove(q, n)) && FifoSorted(ps, Remove(q, n), st)
  {
    var k := RemoveIndex(q, n);
    var r := Remove(q, n);
    forall i, j | 0 <= i < j < |r|
      ensures || ps[r[i]].vruntime < ps[r[j]].vruntime
              || (ps[r[i]].vruntime == ps[r[j]].vruntime && st[r[i]] < st[r[j]])
    {
      var a, b := if i < k then i else i + 1, if j < k then j else j + 1;
      assert r[i] == q[a] && r[j] == q[b];
    }
  }

  /** Only the vruntimes of queued tasks matter. */
  lemma {:induction false} FifoFrame(ps: seq<Proc>, ps': seq<Proc>, q: seq<int>, st: seq<nat>)
    requires WellFormed(ps, q) && |ps'| == MAX_PROCESSES && |st| == MAX_PROCESSES && FifoSorted(ps, q, st)
    requires forall m :: m in q ==> ps'[m].vruntime == ps[m].vruntime
    ensures WellFormed(ps', q) && FifoSorted(ps', q, st)
  {
    forall i | 0 <= i < |q| ensures ps'[q[i]].vruntime == ps[q[i]].vruntime { assert q[i] in q; }
  }

  lemma {:induction false} FifoSwap(s: Sched, ps: seq<Proc>, ps': seq<Proc>, st: seq<nat>, c: int, next: int, now: nat)
    requires QueueInv(s) && |ps| == |ps'| == MAX_PROCESSES && |st| == MAX_PROCESSES
    requires FifoSorted(s.procs, s.queue, st) && forall i :: 0 <= i < |st| ==> st[i] < now
    requires InTable(c) && c !in s.queue && next in s.queue
    requires forall m :: InTable(m) && m != c ==> ps[m].vruntime == s.procs[m].vruntime
    requires forall m :: InTable(m) ==> ps'[m].vruntime == ps[m].vruntime
    ensures WellFormed(ps, s.queue)
    ensures var q := Remove(Inserted(ps, s.queue, c), next);
      WellFormed(ps', q) && FifoSorted(ps', q, st[c := now])
  {
    FifoFrame(s.procs, ps, s.queue, st);
    SortedFrame(s.procs, ps, s.queue);
    FifoInsert(ps, s.queue, st, c, now);
    InsertedKeeps(ps, s.queue, c);
    FifoRemove(ps, Inserted(ps, s.queue, c), st[c := now], next);
    FifoFrame(ps, ps', Remove(Inserted(ps, s.queue, c), next), st[c := now]);
  }

  lemma {:induction false} CurrentApart(s: Sched)
    requires Inv(s)
    ensures QueueInv(s) && WellFormed(s.procs, s.queue) && (s.current == NIL || InTable(s.current)) && s.current !in s.queue
    ensures s.queue != [] ==> InTable(s.queue[0])
  {
  }

  lemma {:induction false} FifoTickRel(s: Sched, p: Proc, r: Sched, st: seq<nat>, now: nat)
    requires Inv(s) && Inv(r) && TickRel(s, p, r) && |st| == MAX_PROCESSES
    requires FifoSorted(s.procs, s.queue, st) && forall i :: 0 <= i < |st| ==> st[i] < now
    ensures FifoSorted(r.procs, r.queue,
              if s.current != NIL && r.current != s.current then st[s.current := now] else st)
  {
    match TickOutcome(s, p)
    case Idle =>
    case Dispatch => FifoDispatch(s, p, r, st);
    case Keep => FifoKeep(s, p, r, st);
    case Preempt => FifoPreempt(s, p, r, st, now);
  }

  lemma {:induction false} FifoDispatch(s: Sched, p: Proc, r: Sched, st: seq<nat>)
    requires Inv(s) && TickRel(s, p, r) && TickOutcome(s, p) == Dispatch && |st| == MAX_PROCESSES
    requires FifoSorted(s.procs, s.queue, st)
    ensures WellFormed(r.procs, r.queue) && FifoSorted(r.procs, r.queue, st)
  {
    CurrentApart(s);
    hide Inv, QueueInv, FifoSorted, Sorted;
    FifoRemove(s.procs, s.queue, st, s.queue[0]);
    FifoFrame(s.procs, r.procs, r.queue, st);
  }

  lemma {:induction false} FifoKeep(s: Sched, p: Proc, r: Sched, st: seq<nat>)
    requires Inv(s) && TickRel(s, p, r) && TickOutcome(s, p) == Keep && |st| == MAX_PROCESSES
    requires FifoSorted(s.procs, s.queue, st)
    ensures r.current == s.current && WellFormed(r.procs, r.queue) && FifoSorted(r.procs, r.queue, st)
  {
    CurrentApart(s);
    hide Inv, QueueInv, FifoSorted, Sorted;
    FifoFrame(s.procs, r.procs, s.queue, st);
  }

  lemma {:induction false} FifoPreempt(s: Sched, p: Proc, r: Sched, st: seq<nat>, now: nat)
    requires Inv(s) && TickRel(s, p, r) && TickOutcome(s, p) == Preempt && |st| == MAX_PROCESSES
    requires FifoSorted(s.procs, s.queue, st) && forall i :: 0 <= i < |st| ==> st[i] < now
    ensures r.current != s.current && WellFormed(r.procs, r.queue) && FifoSorted(r.procs, r.queue, st[s.current := now])
  {
    CurrentApart(s);
    hide Inv, QueueInv, FifoSorted, Sorted;
    FifoSwap(s, s.procs[s.current := p], r.procs, st, s.current, s.queue[0], now);
  }

  lemma {:induction false} SortedFrame(ps: seq<Proc>, ps': seq<Proc>, q: seq<int>)
    requires WellFormed(ps, q) && |ps'| == MAX_PROCESSES && Sorted(ps, q)
    requires forall m :: m in q ==> ps'[m].vruntime == ps[m].vruntime
    ensures WellFormed(ps', q) && Sorted(ps', q)
  {
    forall i | 0 <= i < |q| ensures ps'[q[i]].vruntime == ps[q[i]].vruntime { assert q[i] in q; }
  }

  lemma {:induction false} FifoStep(s: Sched, op: Op, st: seq<nat>, now: nat)
    requires Inv(s) && |st| == MAX_PROCESSES
    requires FifoSorted(s.procs, s.queue, st) && forall i :: 0 <= i < |st| ==> st[i] < now
    ensures Inv(Step(s, op))
    ensures var n := Enqueued(s, op);
      FifoSorted(Step(s, op).procs, Step(s, op).queue, if 0 <= n < MAX_PROCESSES then st[n := now] else st)
  {
    hide Tick, Create;
    match op
    case OpCreate(nice) =>
      CreateShape(s, nice);
      var (r, n) := Create(s, nice);
      if n != NIL {
        var ps := s.procs[n := NewProc(nice, s.minVruntime)];
        FifoFrame(s.procs, ps, s.queue, st);
        SortedFrame(s.procs, ps, s.queue);
        FifoInsert(ps, s.queue, st, n, now);
        FifoFrame(ps, r.procs, r.queue, st[n := now]);
      }
    case OpTick =>
      TickShape(s);
      FifoTickRel(s, TickProc(s), Tick(s), st, now);
  }

  /** In every run the queue is in vruntime order with first-in first-out among ties. */
  lemma {:induction false} FifoTies(ops: seq<Op>)
    ensures FifoSorted(Run(ops).procs, Run(ops).queue, Stamps(ops))
  {
    hide Tick, Create;
    if ops != [] {
      var before := ops[..|ops| - 1];
      FifoTies(before);
      FifoStep(Run(before), ops[|ops| - 1], Stamps(before), |ops|);
    }
  }

  // ---------------------------------------------------------------- preemption

  /** The unsigned test keeps the current task when it is at most one granule ahead of the
      first queued task, or so far behind that the difference wraps into the granule. */
  lemma {:induction false} PreemptExact(s: Sched, c: int, n: int)
    requires |s.procs| == MAX_PROCESSES && InTable(c) && InTable(n)
    requires s.procs[c].vruntime < TWO64 && s.procs[n].vruntime < TWO64
    ensures var a, b := s.procs[c].vruntime, s.procs[n].vruntime;
      !ShouldPreempt(s, c, n) <==> 0 <= a - b <= 1_000_000 || b - a >= 0x1_0000_0000_0000_0000 - 1_000_000
  {
    var a, b := s.procs[c].vruntime, s.procs[n].vruntime;
    assert Sub64(a, b) == if a >= b then a - b else a - b + TWO64;
  }

  // ---------------------------------------------------------------- starvation

  /** How far task `p` may still run before it passes a task at vruntime `v`. */
  function Slack(p: Proc, v: nat): (d: nat)
    ensures d > 0 <==> !p.state.Unused? && p.vruntime <= v + MIN_GRANULARITY
    ensures d > 0 ==> p.vruntime + d == v + MIN_GRANULARITY + 1
  {
    if p.state.Unused? || p.vruntime > v + MIN_GRANULARITY then 0 else v + MIN_GRANULARITY + 1 - p.vruntime
  }

  /** `a` divided by `c`, rounded up. */
  function Ceil(a: nat, c: nat): nat
    requires c > 0
  {
    (a + c - 1) / c
  }

  lemma {:induction false} Products(a: int, b: int, d: nat)
    ensures a < b ==> a * d + d <= b * d
    decreases b - a
  {
    assert (b - 1) * d == b * d - d;
    if a < b - 1 { Products(a, b - 1, d); }
  }

  /** The rounded quotient is the least number of steps of size `c` that cover `a`. */
  lemma {:induction false} CeilIs(a: nat, c: nat, q: int)
    requires c > 0
    ensures a <= q * c <==> Ceil(a, c) <= q
  {
    var n := a + c - 1;
    assert n == n / c * c + n % c;
    Products(q, n / c, c);
    Products(n / c - 1, q, c);
    assert (n / c - 1) * c == n / c * c - c;
  }

  /** One step of size `c` less is one step fewer. */
  lemma {:induction false} CeilFalls(a: nat, c: nat)
    requires c > 0 && a > 0
    ensures Ceil(if a < c then 0 else a - c, c) < Ceil(a, c)
  {
    var q := Ceil(a, c) - 1;
    CeilIs(a, c, q + 1);
    assert (q + 1) * c == q * c + c;
    CeilIs(a, c, 0);
    if q > 0 { Products(0, q, c); }
    CeilIs(if a < c then 0 else a - c, c, q);
  }

  lemma {:induction false} CeilMonotonic(a: nat, b: nat, c: nat, d: nat)
    requires 0 < d <= c && a <= b
    ensures Ceil(a, c) <= Ceil(b, d)
  {
    var q := Ceil(b, d);
    CeilIs(b, d, q);
    assert q * c == q * d + q * (c - d);
    assert q * (c - d) >= 0;
    CeilIs(a, c, q);
  }

  /** Weights come from the table. */
  predicate Weighted(p: Proc) {
    p.state.Unused? || 15 <= p.weight <= 88761
  }

  /** For how many ticks task `p` may still be charged before it has passed vruntime `v`; a
      charge is never below 11536. */
  function Turns(p: Proc, v: nat): (t: nat)
    requires Weighted(p)
    ensures t <= Ceil(Slack(p, v), 11_536)
  {
    if p.state.Unused? then 0
    else
      ChargeBounds(p.weight);
      CeilMonotonic(Slack(p, v), Slack(p, v), TickCharge(p.weight), 11_536);
      Ceil(Slack(p, v), TickCharge(p.weight))
  }

  /** The turns of all tasks together, task `x` itself left out. */
  function TurnsFrom(ps: seq<Proc>, i: nat, x: int, v: nat): nat
    requires i <= |ps| && forall m :: 0 <= m < |ps| ==> Weighted(ps[m])
    decreases |ps| - i
  {
    if i == |ps| then 0 else (if i == x then 0 else Turns(ps[i], v)) + TurnsFrom(ps, i + 1, x, v)
  }

  lemma {:induction false} TurnsSum(ps: seq<Proc>, i: nat, x: int, v: nat)
    requires i <= |ps| && forall m :: 0 <= m < |ps| ==> Weighted(ps[m])
    ensures TurnsFrom(ps, i, x, v) ==
      if i == |ps| then 0 else (if i == x then 0 else Turns(ps[i], v)) + TurnsFrom(ps, i + 1, x, v)
  {
  }

  lemma {:induction false} TurnsMonotonic(ps: seq<Proc>, ps': seq<Proc>, i: nat, x: int, v: nat)
    requires i <= |ps| == |ps'| && forall m :: 0 <= m < |ps| ==> Weighted(ps[m]) && Weighted(ps'[m])
    requires forall m :: i <= m < |ps| ==> Turns(ps'[m], v) <= Turns(ps[m], v)
    ensures TurnsFrom(ps', i, x, v) <= TurnsFrom(ps, i, x, v)
    decreases |ps| - i
  {
    TurnsSum(ps, i, x, v);
    TurnsSum(ps', i, x, v);
    if i < |ps| { TurnsMonotonic(ps, ps', i + 1, x, v); }
  }

  lemma {:induction false} TurnsStrict(ps: seq<Proc>, ps': seq<Proc>, i: nat, x: int, v: nat, c: nat)
    requires i <= c < |ps| == |ps'| && c != x && forall m :: 0 <= m < |ps| ==> Weighted(ps[m]) && Weighted(ps'[m])
    requires forall m :: i <= m < |ps| ==> Turns(ps'[m], v) <= Turns(ps[m], v)
    requires Turns(ps'[c], v) < Turns(ps[c], v)
    ensures TurnsFrom(ps', i, x, v) < TurnsFrom(ps, i, x, v)
    decreases |ps| - i
  {
    if i == c { TurnsMonotonic(ps, ps', i + 1, x, v); } else { TurnsStrict(ps, ps', i + 1, x, v, c); }
  }

  lemma {:induction false} InvWeighted(s: Sched)
    requires Inv(s)
    ensures |s.procs| == MAX_PROCESSES && forall m :: 0 <= m < MAX_PROCESSES ==> Weighted(s.procs[m])
  {
    forall m | 0 <= m < MAX_PROCESSES ensures Weighted(s.procs[m]) {
      assert InTable(m);
    }
  }

  /** How many ticks the other tasks can take before `x` must have had its turn. */
  ghost function TurnsBefore(s: Sched, x: int): nat
    requires Inv(s) && InTable(x)
  {
    InvWeighted(s);
    TurnsFrom(s.procs, 0, x, s.procs[x].vruntime)
  }

  /** Task `x` waits, and the current task is at most one granule ahead of it. */
  predicate Caught(s: Sched, x: int)
    requires |s.procs| == MAX_PROCESSES && InTable(x) && (s.current == NIL || InTable(s.current))
  {
    s.current != NIL && x in s.queue && s.procs[s.current].vruntime <= s.procs[x].vruntime + MIN_GRANULARITY
  }

  /** Only the current task's vruntime changes in a tick, to that of `p`. */
  predicate OnlyCharged(s: Sched, p: Proc, r: Sched) {
    && |s.procs| == |r.procs| == MAX_PROCESSES
    && forall m {:trigger r.procs[m]} :: 0 <= m < MAX_PROCESSES ==>
         && r.procs[m].vruntime == (if m == s.current then p.vruntime else s.procs[m].vruntime)
         && (r.procs[m].state.Unused? <==> s.procs[m].state.Unused?) && r.procs[m].weight == s.procs[m].weight
  }

  lemma {:induction false} TickOnlyCharges(s: Sched, p: Proc, r: Sched)
    requires Inv(s) && TickRel(s, p, r)
    requires s.current != NIL ==> p.state.Running? && p.weight == s.procs[s.current].weight
    ensures OnlyCharged(s, p, r)
  {
    if s.queue != [] { assert s.queue[0] in s.queue; }
  }

  /** The first of the queue is at most as far as any queued task. */
  lemma {:induction false} FirstIsLeast(s: Sched, x: int)
    requires QueueInv(s) && x in s.queue
    ensures InTable(s.queue[0]) && InTable(x) && s.procs[s.queue[0]].vruntime <= s.procs[x].vruntime
  {
    var i :| 0 <= i < |s.queue| && s.queue[i] == x;
    if i > 0 { assert s.procs[s.queue[0]].vruntime <= s.procs[s.queue[i]].vruntime; }
  }

  /** The updated min_vruntime is the larger of the old one and the least vruntime of all
      tasks, said of every value below it. */
  lemma {:induction false} MinVruntimeExact(s: Sched, v: nat)
    requires QueueInv(s)
    ensures v <= UpdateMinVruntime(s).minVruntime
       <==> || v <= s.minVruntime
            || ((s.current != NIL || s.queue != []) && (s.current != NIL ==> v <= s.procs[s.current].vruntime)
                && forall x :: x in s.queue ==> v <= s.procs[x].vruntime)
  {
    if s.queue != [] {
      assert s.queue[0] in s.queue;
    }
    forall x | x in s.queue ensures s.procs[s.queue[0]].vruntime <= s.procs[x].vruntime {
      FirstIsLeast(s, x);
    }
  }

  /** A waiting task that is not the one switched to keeps waiting. */
  lemma {:induction false} StillWaiting(s: Sched, p: Proc, r: Sched, x: int)
    requires Inv(s) && TickRel(s, p, r) && x in s.queue && r.current != x
    ensures x in r.queue
  {
    RemoveKeeps(s.queue, s.queue[0]);
    if TickOutcome(s, p).Preempt? {
      var ps := s.procs[s.current := p];
      InsertedKeeps(ps, s.queue, s.current);
      RemoveKeeps(Inserted(ps, s.queue, s.current), s.queue[0]);
    }
  }

  /** After any tick that leaves `x` waiting, the current task is at most one granule ahead. */
  lemma {:induction false} CaughtRel(s: Sched, p: Proc, r: Sched, x: int)
    requires Inv(s) && Inv(r) && TickRel(s, p, r) && OnlyCharged(s, p, r) && x in s.queue && p.vruntime < TWO64
    requires InTable(x) && r.current != x
    ensures Caught(r, x)
  {
    FirstIsLeast(s, x);
    StillWaiting(s, p, r, x);
    if TickOutcome(s, p).Keep? {
      var a, b := p.vruntime, s.procs[s.queue[0]].vruntime;
      assert Sub64(a, b) == if a >= b then a - b else a - b + TWO64;
    }
  }

  /** A charge of one tick takes one turn of a task that has any left. */
  lemma {:induction false} TurnTaken(p: Proc, q: Proc, v: nat)
    requires Weighted(p) && !p.state.Unused? && !q.state.Unused? && q.weight == p.weight
    requires q.vruntime == p.vruntime + TickCharge(p.weight)
    ensures Turns(q, v) <= Turns(p, v)
    ensures p.vruntime <= v + MIN_GRANULARITY ==> Turns(q, v) < Turns(p, v)
  {
    var c := TickCharge(p.weight);
    ChargeBounds(p.weight);
    CeilMonotonic(Slack(q, v), Slack(p, v), c, c);
    if p.vruntime <= v + MIN_GRANULARITY {
      CeilFalls(Slack(p, v), c);
    }
  }

  /** While `x` waits behind a caught current task, every tick takes a turn. */
  lemma {:induction false} TurnsFall(s: Sched, p: Proc, r: Sched, x: int)
    requires Inv(s) && Inv(r) && OnlyCharged(s, p, r)
    requires InTable(x) && x != s.current && (s.current == NIL || InTable(s.current))
    requires s.current != NIL ==>
      && !s.procs[s.current].state.Unused? && s.procs[s.current].weight > 0
      && p.vruntime == s.procs[s.current].vruntime + TickCharge(s.procs[s.current].weight)
    ensures r.procs[x].vruntime == s.procs[x].vruntime && TurnsBefore(r, x) <= TurnsBefore(s, x)
    ensures Caught(s, x) ==> TurnsBefore(r, x) < TurnsBefore(s, x)
  {
    var v := s.procs[x].vruntime;
    InvWeighted(s);
    InvWeighted(r);
    hide Inv, Turns, Ceil, TickCharge;
    forall m | 0 <= m < MAX_PROCESSES ensures Turns(r.procs[m], v) <= Turns(s.procs[m], v) {
      if m == s.current {
        TurnTaken(s.procs[m], r.procs[m], v);
      } else {
        SameTurns(s.procs[m], r.procs[m], v);
      }
    }
    TurnsMonotonic(s.procs, r.procs, 0, x, v);
    if Caught(s, x) {
      TurnTaken(s.procs[s.current], r.procs[s.current], v);
      TurnsStrict(s.procs, r.procs, 0, x, v, s.current);
    }
  }

  lemma {:induction false} SameTurns(p: Proc, q: Proc, v: nat)
    requires Weighted(p) && Weighted(q) && p.vruntime == q.vruntime && p.weight == q.weight
    requires p.state.Unused? <==> q.state.Unused?
    ensures Turns(q, v) == Turns(p, v)
  {
  }

  /** The next charge does not wrap. */
  predicate ChargeFits(s: Sched)
    requires |s.procs| == MAX_PROCESSES && (s.current == NIL || InTable(s.current))
  {
    s.current != NIL ==> s.procs[s.current].vruntime + MAX_CHARGE < TWO64
  }

  /** One tick, seen from a waiting task. */
  lemma {:induction false} WaitingTick(s: Sched, x: int)
    requires Inv(s) && InStep(s) && x in s.queue && InTable(x) && ChargeFits(s) && s.clock + 2 * TICK_NS < TWO64
    ensures var r := Tick(s);
      && Inv(r) && InStep(r) && r.clock <= s.clock + 2 * TICK_NS
      && r.procs[x].vruntime == s.procs[x].vruntime && TurnsBefore(r, x) <= TurnsBefore(s, x)
      && (Caught(s, x) ==> TurnsBefore(r, x) < TurnsBefore(s, x))
      && (r.current == x || Caught(r, x))
  {
    WaitingCharge(s);
    hide Tick, Inv, TickRel, Caught, TurnsBefore, TickCharge;
    TickShape(s);
    TickInStep(s);
    WaitingRel(s, TickProc(s), Tick(s), x);
  }

  lemma {:induction false} WaitingCharge(s: Sched)
    requires Inv(s) && InStep(s) && ChargeFits(s) && s.clock + 2 * TICK_NS < TWO64
    ensures TickProc(s).vruntime < TWO64
    ensures s.current != NIL ==>
      var p, q := s.procs[s.current], TickProc(s);
      p.weight > 0 && q.vruntime == p.vruntime + TickCharge(p.weight) && q.state == p.state && q.weight == p.weight
  {
    if s.current != NIL {
      ChargedExact(s);
      TickChargeExact(s.procs[s.current].nice);
    }
  }

  lemma {:induction false} WaitingRel(s: Sched, p: Proc, r: Sched, x: int)
    requires Inv(s) && Inv(r) && TickRel(s, p, r) && x in s.queue && InTable(x)
    requires p.vruntime < TWO64
    requires s.current != NIL ==>
      var c := s.procs[s.current];
      && c.weight > 0 && p.state == c.state && p.weight == c.weight && p.vruntime == c.vruntime + TickCharge(c.weight)
    ensures r.procs[x].vruntime == s.procs[x].vruntime && TurnsBefore(r, x) <= TurnsBefore(s, x)
    ensures Caught(s, x) ==> TurnsBefore(r, x) < TurnsBefore(s, x)
    ensures r.current == x || Caught(r, x)
  {
    hide TickCharge, TurnsBefore;
    TickOnlyCharges(s, p, r);
    if r.current != x { CaughtRel(s, p, r, x); }
    TurnsFall(s, p, r, x);
  }

  function Ticks(s: Sched, n: nat): (r: Sched)
    requires Inv(s)
    ensures Inv(r)
    decreases n
  {
    if n == 0 then s
    else
      TickShape(s);
      Ticks(Tick(s), n - 1)
  }

  lemma {:induction false} TicksIs(s: Sched, n: nat)
    requires Inv(s)
    ensures Inv(Tick(s)) && Ticks(s, 0) == s && Ticks(s, n + 1) == Ticks(Tick(s), n) && Ticks(Tick(s), 0) == Tick(s)
  {
    TickShape(s);
    hide Tick;
  }

  /** The room that the ticks up to `x`'s turn need: in the clock for the ticks themselves,
      and in the vruntimes for one charge of the current task and of one that has caught up
      with `x`. */
  ghost predicate Room(s: Sched, x: int, ticks: nat)
    requires |s.procs| == MAX_PROCESSES && InTable(x) && (s.current == NIL || InTable(s.current))
  {
    && s.clock + 2 * TICK_NS * ticks < TWO64 && ChargeFits(s)
    && s.procs[x].vruntime + MIN_GRANULARITY + MAX_CHARGE < TWO64
  }

  lemma {:induction false} CaughtGetsCurrent(s: Sched, x: int) returns (n: nat)
    requires Inv(s) && InStep(s) && InTable(x) && Caught(s, x) && Room(s, x, TurnsBefore(s, x) + 1)
    ensures n <= TurnsBefore(s, x) + 1 && Ticks(s, n).current == x
    decreases TurnsBefore(s, x), 0
  {
    hide Tick, TurnsBefore;
    WaitingTick(s, x);
    n := Onward(s, x);
  }

  /** The rest of the wait after one tick. */
  lemma {:induction false} Onward(s: Sched, x: int) returns (n: nat)
    requires Inv(s) && InTable(x) && Inv(Tick(s)) && InStep(Tick(s))
    requires Tick(s).current == x || (Caught(Tick(s), x) && Room(Tick(s), x, TurnsBefore(Tick(s), x) + 1))
    ensures 1 <= n <= TurnsBefore(Tick(s), x) + 2 && Ticks(s, n).current == x
    decreases TurnsBefore(Tick(s), x), 1
  {
    hide Tick, TurnsBefore;
    var r := Tick(s);
    if r.current == x {
      n := 1;
      TicksIs(s, 0);
    } else {
      var m := CaughtGetsCurrent(r, x);
      n := m + 1;
      TicksIs(s, m);
    }
  }

  /** No starvation: as long as no task is created and no 64-bit quantity wraps, a queued
      task becomes current within two ticks more than the others have turns before it. */
  lemma {:induction false} NoStarvation(s: Sched, x: int) returns (n: nat)
    requires Inv(s) && InStep(s) && x in s.queue && InTable(x) && Room(s, x, TurnsBefore(s, x) + 2)
    ensures 1 <= n <= TurnsBefore(s, x) + 2 && Ticks(s, n).current == x
  {
    hide Tick, TurnsBefore;
    WaitingTick(s, x);
    n := Onward(s, x);
  }
}
