/** cfs.c as a state machine.

    The run queue is the sequence of process slots in timeline order; the steps are
    `Create` (cfs_create_process) and `Tick` (cfs_scheduler_tick).  All 64-bit and 32-bit
    unsigned arithmetic of the source is written out. */
module CfsModel {
  import opened RbShape

  const MAX_PROCESSES := 8
  const NICE_0_LOAD := 1024
  const MIN_GRANULARITY := 1_000_000
  const TICK_NS := 1_000_000
  const TWO32 := 0x1_0000_0000
  const TWO64 := 0x1_0000_0000_0000_0000

  datatype RunState = Unused | Ready | Running

  datatype Proc = Proc(state: RunState, nice: int, weight: nat, vruntime: nat,
                       execStart: nat, sumExec: nat, onRq: bool)

  datatype Sched = Sched(procs: seq<Proc>, queue: seq<int>, current: int, minVruntime: nat, clock: nat)

  const PRIO_TO_WEIGHT: seq<nat> := [
    88761, 71755, 56483, 46273, 36291, 29154, 23254, 18705, 14949, 11916,
    9548, 7620, 6100, 4904, 3906, 3121, 2501, 1991, 1586, 1277,
    1024, 820, 655, 526, 423, 335, 272, 215, 172, 137,
    110, 87, 70, 56, 45, 36, 29, 23, 18, 15]

  function NiceToWeight(nice: int): (w: nat)
    ensures 15 <= w <= 88761
  {
    PRIO_TO_WEIGHT[(if nice < -20 then -20 else if nice > 19 then 19 else nice) + 20]
  }

  /** Each step of nice, up to the limits, changes the weight by a factor between 1.2 and 1.28;
      beyond the limits it does not change, and nice 0 has the unit weight. */
  lemma {:induction false} WeightSteps(nice: int)
    ensures -20 <= nice < 19 ==>
      var w, v := NiceToWeight(nice), NiceToWeight(nice + 1); 120 * v <= 100 * w <= 128 * v
    ensures nice < -20 ==> NiceToWeight(nice) == NiceToWeight(-20)
    ensures nice > 19 ==> NiceToWeight(nice) == NiceToWeight(19)
    ensures NiceToWeight(0) == NICE_0_LOAD == 1024 && NiceToWeight(-20) == 88761 && NiceToWeight(19) == 15
  {
    if -20 <= nice < 19 { Neighbours(nice + 20); }
  }

  predicate Neighbourly(w: nat, v: nat) {
    120 * v <= 100 * w <= 128 * v
  }

  lemma {:induction false} Neighbours(i: int)
    requires 0 <= i < 39
    ensures Neighbourly(PRIO_TO_WEIGHT[i], PRIO_TO_WEIGHT[i + 1])
  {
    hide Neighbourly;
    if i < 10 { Neighbours0(i); } else if i < 20 { Neighbours10(i); } else if i < 30 { Neighbours20(i); } else { Neighbours30(i); }
  }

  lemma {:induction false} Neighbours0(i: int)
    requires 0 <= i < 10
    ensures Neighbourly(PRIO_TO_WEIGHT[i], PRIO_TO_WEIGHT[i + 1])
  {
  }

  lemma {:induction false} Neighbours10(i: int)
    requires 10 <= i < 20
    ensures Neighbourly(PRIO_TO_WEIGHT[i], PRIO_TO_WEIGHT[i + 1])
  {
  }

  lemma {:induction false} Neighbours20(i: int)
    requires 20 <= i < 30
    ensures Neighbourly(PRIO_TO_WEIGHT[i], PRIO_TO_WEIGHT[i + 1])
  {
  }

  lemma {:induction false} Neighbours30(i: int)
    requires 30 <= i < 39
    ensures Neighbourly(PRIO_TO_WEIGHT[i], PRIO_TO_WEIGHT[i + 1])
  {
  }

  /** A larger nice never has a larger weight, and within the limits always a smaller one. */
  lemma {:induction false} WeightFalls(a: int, b: int)
    requires a < b
    ensures NiceToWeight(b) <= NiceToWeight(a)
    ensures -20 <= a && b <= 19 ==> NiceToWeight(b) < NiceToWeight(a)
    decreases b - a
  {
    WeightSteps(b - 1);
    WeightSteps(b);
    WeightSteps(a);
    if a < b - 1 {
      WeightFalls(a, b - 1);
    }
  }

  /** calc_delta_fair, with its 32-bit product. */
  function CalcDeltaFair(delta: nat, weight: nat): nat
    requires weight > 0
  {
    if weight != NICE_0_LOAD && delta < 0xFFFF_FFFF then Quotient(Wrap32(delta * NICE_0_LOAD), weight) else delta
  }

  /** The delta scaled by the unit weight over the task's, as long as the product fits 32 bits;
      unscaled for the unit weight and for deltas that do not fit. */
  lemma {:induction false} ScaledExact(delta: nat, weight: nat)
    requires weight > 0
    ensures weight == NICE_0_LOAD || delta >= 0xFFFF_FFFF ==> CalcDeltaFair(delta, weight) == delta
    ensures weight != NICE_0_LOAD && delta * NICE_0_LOAD < TWO32 ==>
      var q := CalcDeltaFair(delta, weight); q * weight <= delta * NICE_0_LOAD < (q + 1) * weight
  {
    if weight != NICE_0_LOAD && delta * NICE_0_LOAD < TWO32 {
      QuotientIs(delta * NICE_0_LOAD, weight);
    }
  }

  lemma {:induction false} QuotientIs(a: nat, b: nat)
    requires b > 0
    ensures Quotient(a, b) * b <= a < (Quotient(a, b) + 1) * b
  {
    assert a == a / b * b + a % b;
    assert (a / b + 1) * b == a / b * b + b;
  }

  function Quotient(a: nat, b: nat): nat
    requires b > 0
  {
    a / b
  }

  /** 64-bit unsigned wrap-around. */
  function Wrap64(x: int): (r: nat)
    ensures r < TWO64 && (0 <= x < TWO64 ==> r == x)
    ensures -TWO64 <= x < 0 ==> r == x + TWO64
    ensures TWO64 <= x < 2 * TWO64 ==> r == x - TWO64
  {
    x % 0x1_0000_0000_0000_0000
  }

  /** 32-bit unsigned wrap-around. */
  function Wrap32(x: int): (r: nat)
    ensures r < TWO32 && (0 <= x < TWO32 ==> r == x)
  {
    x % 0x1_0000_0000
  }

  /** 64-bit unsigned subtraction. */
  function Sub64(a: int, b: int): nat {
    Wrap64(a - b)
  }

  // ---------------------------------------------------------------- the run queue

  predicate InTable(n: int) {
    0 <= n < MAX_PROCESSES
  }

  predicate WellFormed(ps: seq<Proc>, q: seq<int>) {
    |ps| == MAX_PROCESSES && forall i :: 0 <= i < |q| ==> InTable(q[i])
  }

  /** Where a task with the given vruntime is inserted: behind all that are not later. */
  function Slot(ps: seq<Proc>, q: seq<int>, v: nat): (i: nat)
    requires WellFormed(ps, q)
    ensures i <= |q|
    ensures forall j :: 0 <= j < i ==> ps[q[j]].vruntime <= v
    ensures i < |q| ==> v < ps[q[i]].vruntime
  {
    if q == [] || v < ps[q[0]].vruntime then 0
    else
      assert WellFormed(ps, q[1..]);
      1 + Slot(ps, q[1..], v)
  }

  predicate Sorted(ps: seq<Proc>, q: seq<int>)
    requires WellFormed(ps, q)
  {
    forall i, j :: 0 <= i < j < |q| ==> ps[q[i]].vruntime <= ps[q[j]].vruntime
  }

  function Inserted(ps: seq<Proc>, q: seq<int>, n: int): seq<int>
    requires WellFormed(ps, q) && InTable(n)
  {
    var i := Slot(ps, q, ps[n].vruntime);
    q[..i] + [n] + q[i..]
  }

  // ---------------------------------------------------------------- the operations

  /** What every operation of cfs.c relies on and keeps about table and queue. */
  ghost predicate QueueInv(s: Sched) {
    && WellFormed(s.procs, s.queue) && NoDup(s.queue) && Sorted(s.procs, s.queue)
    && (s.current == NIL || InTable(s.current))
    && s.minVruntime < TWO64 && s.clock < TWO64
    && (forall n :: InTable(n) ==> (s.procs[n].onRq <==> n in s.queue))
    && (forall n :: InTable(n) ==> s.procs[n].vruntime < TWO64 && s.procs[n].weight < TWO32)
    && (forall n :: InTable(n) && !s.procs[n].state.Unused? ==> s.procs[n].weight > 0)
  }

  function Enqueue(s: Sched, n: int): Sched
    requires QueueInv(s) && InTable(n)
  {
    if s.procs[n].onRq then s
    else s.(queue := Inserted(s.procs, s.queue, n), procs := s.procs[n := s.procs[n].(onRq := true, state := Ready)])
  }

  function UpdateMinVruntime(s: Sched): Sched
    requires WellFormed(s.procs, s.queue) && (s.current == NIL || InTable(s.current))
  {
    var v := if s.current != NIL then s.procs[s.current].vruntime else s.minVruntime;
    var w := if s.queue == [] then v
             else if s.current == NIL || s.procs[s.queue[0]].vruntime <= v then s.procs[s.queue[0]].vruntime
             else v;
    s.(minVruntime := if w > s.minVruntime then w else s.minVruntime)
  }

  function Dequeue(s: Sched, n: int): Sched
    requires QueueInv(s) && InTable(n)
  {
    if !s.procs[n].onRq then s
    else
      var s1 := s.(queue := Remove(s.queue, n), procs := s.procs[n := s.procs[n].(onRq := false)]);
      RemoveSorted(s.procs, s.queue, n);
      UpdateMinVruntime(s1)
  }

  /** A task's entity after cfs_update_curr at time `now`. */
  function Charged(p: Proc, now: nat): Proc
    requires p.weight > 0
  {
    if p.execStart == 0 then p.(execStart := now)
    else
      var delta := Sub64(now, p.execStart);
      p.(execStart := now, sumExec := Wrap64(p.sumExec + delta),
         vruntime := Wrap64(p.vruntime + CalcDeltaFair(delta, p.weight)))
  }

  function UpdateCurr(s: Sched, n: int): Sched
    requires QueueInv(s) && InTable(n) && s.procs[n].weight > 0
  {
    var now := Wrap64(s.clock + TICK_NS);
    var s1 := s.(clock := now, procs := s.procs[n := Charged(s.procs[n], now)]);
    if s.procs[n].execStart == 0 then s1 else UpdateMinVruntime(s1)
  }

  /** cfs_check_preempt_curr: the difference is unsigned. */
  predicate ShouldPreempt(s: Sched, curr: int, next: int)
    requires |s.procs| == MAX_PROCESSES && InTable(curr) && InTable(next)
  {
    Sub64(s.procs[curr].vruntime, s.procs[next].vruntime) > MIN_GRANULARITY
  }

  /** The tail of both branches of the tick: `next` leaves the queue and becomes current. */
  function SwitchTo(s: Sched, next: int): Sched
    requires QueueInv(s) && InTable(next)
  {
    var s1 := Dequeue(s, next);
    var now := Wrap64(s1.clock + TICK_NS);
    s1.(clock := now, current := next,
        procs := s1.procs[next := s1.procs[next].(state := Running, execStart := now)])
  }

  /** The current task gives up the processor and goes back into the queue. */
  function Requeue(s: Sched, curr: int): Sched
    requires QueueInv(s) && InTable(curr) && curr !in s.queue && s.procs[curr].weight > 0
  {
    var s1 := s.(procs := s.procs[curr := s.procs[curr].(state := Ready, execStart := 0)]);
    QueueFrame(s, s1, curr);
    Enqueue(s1, curr)
  }

  /** Invariant of the machine: a slot is unused, or queued exactly once and ready, or the
      one current task and running. */
  ghost predicate Inv(s: Sched) {
    && QueueInv(s)
    && (forall n :: InTable(n) ==> (s.procs[n].state.Ready? <==> n in s.queue))
    && (forall n :: InTable(n) ==> (s.procs[n].state.Running? <==> n == s.current))
    && (forall n :: InTable(n) && !s.procs[n].state.Unused? ==> s.procs[n].weight == NiceToWeight(s.procs[n].nice))
    && (forall n :: InTable(n) && s.procs[n].state.Unused? ==> s.procs[n].sumExec == 0)
  }

  function Tick(s: Sched): Sched
    requires Inv(s)
  {
    if s.current == NIL then
      if s.queue == [] then s else SwitchTo(s, s.queue[0])
    else
      var curr := s.current;
      var s1 := UpdateCurr(s, curr);
      UpdateCurrKeeps(s, curr);
      if s1.queue == [] || !ShouldPreempt(s1, curr, s1.queue[0]) then s1
      else
        RequeueKeeps(s1, curr);
        SwitchTo(Requeue(s1, curr), s1.queue[0])
  }

  /** The first unused slot, or the null pointer. */
  function FreeSlot(ps: seq<Proc>, from: nat): (n: int)
    requires from <= |ps|
    ensures n == NIL || (from <= n < |ps| && ps[n].state.Unused?)
    ensures n == NIL <==> forall i :: from <= i < |ps| ==> !ps[i].state.Unused?
    ensures forall i :: from <= i < n ==> !ps[i].state.Unused?
    decreases |ps| - from
  {
    if from == |ps| then NIL else if ps[from].state.Unused? then from else FreeSlot(ps, from + 1)
  }

  function NewProc(nice: int, v: nat): Proc {
    Proc(Ready, nice, NiceToWeight(nice), v, 0, 0, false)
  }

  function Create(s: Sched, nice: int): (r: (Sched, int))
    requires Inv(s)
  {
    var n := FreeSlot(s.procs, 0);
    if n == NIL then (s, NIL)
    else
      var s1 := s.(procs := s.procs[n := NewProc(nice, s.minVruntime)]);
      QueueFrame(s, s1, n);
      (Enqueue(s1, n), n)
  }

  /** The state after cfs_init on zeroed memory. */
  function Init(): Sched {
    Sched(seq(MAX_PROCESSES, i => Proc(Unused, 0, 0, 0, 0, 0, false)), [], NIL, 0, 0)
  }

  // ---------------------------------------------------------------- what the operations keep

  lemma {:induction false} RemoveKeeps(q: seq<int>, n: int)
    ensures NoDup(q) ==> NoDup(Remove(q, n))
    ensures NoDup(q) ==> forall x :: x in Remove(q, n) <==> x in q && x != n
    ensures forall x :: x in Remove(q, n) ==> x in q
    ensures |Remove(q, n)| == |q| - if n in q then 1 else 0
  {
    if q != [] && q[0] != n {
      RemoveKeeps(q[1..], n);
      var r := Remove(q[1..], n);
      assert q == [q[0]] + q[1..];
      if NoDup(q) {
        assert NoDup(q[1..]) && q[0] !in q[1..];
        assert q[0] !in r;
        assert NoDup([q[0]] + r);
      }
    } else if q != [] {
      assert q == [q[0]] + q[1..];
    }
  }

  lemma {:induction false} RemoveIndex(q: seq<int>, n: int) returns (k: nat)
    requires n in q
    ensures k < |q| && q[k] == n && |Remove(q, n)| == |q| - 1
    ensures forall i {:trigger Remove(q, n)[i]} :: 0 <= i < |q| - 1 ==>
      Remove(q, n)[i] == q[if i < k then i else i + 1]
  {
    if q[0] == n {
      k := 0;
    } else {
      var j := RemoveIndex(q[1..], n);
      k := j + 1;
    }
  }

  lemma {:induction false} RemoveSorted(ps: seq<Proc>, q: seq<int>, n: int)
    requires WellFormed(ps, q) && Sorted(ps, q) && n in q
    ensures WellFormed(ps, Remove(q, n)) && Sorted(ps, Remove(q, n))
  {
    var k := RemoveIndex(q, n);
    var r := Remove(q, n);
    forall i, j | 0 <= i < j < |r| ensures ps[r[i]].vruntime <= ps[r[j]].vruntime {
      var a, b := if i < k then i else i + 1, if j < k then j else j + 1;
      assert r[i] == q[a] && r[j] == q[b];
    }
  }

  /** Rewriting a process that is not queued leaves the queue as it is. */
  lemma {:induction false} QueueFrame(s: Sched, s1: Sched, n: int)
    requires QueueInv(s) && InTable(n) && n !in s.queue
    requires s1.queue == s.queue && |s1.procs| == MAX_PROCESSES
    requires forall m :: InTable(m) && m != n ==> s1.procs[m] == s.procs[m]
    requires !s1.procs[n].onRq && s1.procs[n].vruntime < TWO64 && 0 < s1.procs[n].weight < TWO32
    requires s1.current == NIL || InTable(s1.current)
    requires s1.minVruntime < TWO64 && s1.clock < TWO64
    ensures QueueInv(s1)
  {
    forall i | 0 <= i < |s.queue| ensures s1.procs[s.queue[i]] == s.procs[s.queue[i]] {
      assert s.queue[i] in s.queue;
    }
  }

  lemma {:induction false} InsertedAt(ps: seq<Proc>, q: seq<int>, n: int) returns (k: nat)
    requires WellFormed(ps, q) && InTable(n)
    ensures k == Slot(ps, q, ps[n].vruntime) <= |q| && |Inserted(ps, q, n)| == |q| + 1
    ensures Inserted(ps, q, n)[k] == n
    ensures forall i {:trigger Inserted(ps, q, n)[i]} :: 0 <= i <= |q| && i != k ==>
      Inserted(ps, q, n)[i] == q[if i < k then i else i - 1]
  {
    k := Slot(ps, q, ps[n].vruntime);
  }

  lemma {:induction false} InsertedSorted(ps: seq<Proc>, q: seq<int>, n: int)
    requires WellFormed(ps, q) && Sorted(ps, q) && InTable(n)
    ensures WellFormed(ps, Inserted(ps, q, n)) && Sorted(ps, Inserted(ps, q, n))
  {
    var k := InsertedAt(ps, q, n);
    var r := Inserted(ps, q, n);
    assert q == q[..k] + q[k..];
    SplitSorted(ps, q[..k], n, q[k..]);
  }

  lemma {:induction false} SplitSorted(ps: seq<Proc>, a: seq<int>, n: int, b: seq<int>)
    requires InTable(n) && WellFormed(ps, a + b) && Sorted(ps, a + b)
    requires forall i :: 0 <= i < |a| ==> ps[(a + b)[i]].vruntime <= ps[n].vruntime
    requires b != [] ==> ps[n].vruntime <= ps[(a + b)[|a|]].vruntime
    ensures WellFormed(ps, a + [n] + b) && Sorted(ps, a + [n] + b)
  {
    var q, r := a + b, a + [n] + b;
    assert forall i :: 0 <= i < |a| ==> r[i] == q[i];
    assert forall i {:trigger r[i]} :: |a| < i < |r| ==> r[i] == q[i - 1];
    forall i, j | 0 <= i < j < |r| ensures ps[r[i]].vruntime <= ps[r[j]].vruntime {
      if j > |a| { assert r[j] == q[j - 1] && ps[q[|a|]].vruntime <= ps[q[j - 1]].vruntime; }
    }
  }

  lemma {:induction false} InsertedKeeps(ps: seq<Proc>, q: seq<int>, n: int)
    requires WellFormed(ps, q) && NoDup(q) && InTable(n) && n !in q
    ensures NoDup(Inserted(ps, q, n))
    ensures forall m :: m in Inserted(ps, q, n) <==> m in q || m == n
  {
    var k := InsertedAt(ps, q, n);
    var r := Inserted(ps, q, n);
    NoDupInsert(q, k, n, r);
  }

  lemma {:induction false} NoDupInsert(q: seq<int>, k: nat, n: int, r: seq<int>)
    requires NoDup(q) && n !in q && k <= |q| && r == q[..k] + [n] + q[k..]
    ensures NoDup(r) && forall m :: m in r <==> m in q || m == n
  {
    assert r[k] == n;
    assert forall i {:trigger r[i]} :: 0 <= i < |r| && i != k ==> r[i] == q[if i < k then i else i - 1];
    forall m | m in q ensures m in r {
      var i :| 0 <= i < |q| && q[i] == m;
      assert r[if i < k then i else i + 1] == m;
    }
  }

  lemma {:induction false} EnqueueKeeps(s: Sched, n: int)
    requires QueueInv(s) && InTable(n) && s.procs[n].weight > 0
    ensures QueueInv(Enqueue(s, n)) && (s.procs[n].onRq ==> Enqueue(s, n) == s)
    ensures forall m :: m in Enqueue(s, n).queue <==> m in s.queue || m == n
  {
    if !s.procs[n].onRq {
      InsertedKeeps(s.procs, s.queue, n);
      InsertedSorted(s.procs, s.queue, n);
      var ps := Enqueue(s, n).procs;
      assert forall m :: InTable(m) ==> ps[m].vruntime == s.procs[m].vruntime;
    }
  }

  lemma {:induction false} UpdateMinKeeps(s: Sched)
    requires QueueInv(s)
    ensures QueueInv(UpdateMinVruntime(s)) && UpdateMinVruntime(s).minVruntime >= s.minVruntime
    ensures s.(minVruntime := UpdateMinVruntime(s).minVruntime) == UpdateMinVruntime(s)
  {
  }

  lemma {:induction false} DequeueKeeps(s: Sched, n: int)
    requires QueueInv(s) && InTable(n)
    ensures QueueInv(Dequeue(s, n)) && (!s.procs[n].onRq ==> Dequeue(s, n) == s)
    ensures forall m :: m in Dequeue(s, n).queue <==> m in s.queue && m != n
    ensures Dequeue(s, n).procs == s.procs[n := s.procs[n].(onRq := false)]
    ensures Dequeue(s, n).current == s.current && Dequeue(s, n).clock == s.clock
    ensures n in s.queue ==> Dequeue(s, n).queue == Remove(s.queue, n)
  {
    if s.procs[n].onRq {
      RemoveKeeps(s.queue, n);
      RemoveSorted(s.procs, s.queue, n);
      var s1 := s.(queue := Remove(s.queue, n), procs := s.procs[n := s.procs[n].(onRq := false)]);
      assert forall m :: InTable(m) ==> s1.procs[m].vruntime == s.procs[m].vruntime;
      UpdateMinKeeps(s1);
    }
  }

  lemma {:induction false} UpdateCurrKeeps(s: Sched, n: int)
    requires QueueInv(s) && InTable(n) && n !in s.queue && s.procs[n].weight > 0
    ensures var r := UpdateCurr(s, n);
      && QueueInv(r) && r.queue == s.queue && r.current == s.current && r.clock == Wrap64(s.clock + TICK_NS)
      && r.procs == s.procs[n := Charged(s.procs[n], r.clock)]
  {
    var now := Wrap64(s.clock + TICK_NS);
    ChargedSame(s.procs[n], now);
    hide Charged, UpdateMinVruntime;
    var s1 := s.(clock := now, procs := s.procs[n := Charged(s.procs[n], now)]);
    assert UpdateCurr(s, n) == if s.procs[n].execStart == 0 then s1 else UpdateMinVruntime(s1);
    QueueFrame(s, s1, n);
    hide UpdateCurr, QueueInv;
    UpdateMinKeeps(s1);
  }

  lemma {:induction false} ChargedSame(p: Proc, now: nat)
    requires p.weight > 0
    ensures var r := Charged(p, now);
      && r.weight == p.weight && r.onRq == p.onRq && r.state == p.state && r.nice == p.nice
      && (p.vruntime < TWO64 ==> r.vruntime < TWO64)
  {
  }

  /** A first charge only notes the time; a later one adds the time since, and its scaled value
      to the vruntime, unless a 64-bit sum wraps. */
  lemma {:induction false} ChargedAdds(p: Proc, now: nat)
    requires p.weight > 0 && p.execStart <= now < TWO64
    ensures Charged(p, now).execStart == now
    ensures p.execStart == 0 ==> Charged(p, now).sumExec == p.sumExec && Charged(p, now).vruntime == p.vruntime
    ensures p.execStart > 0 && p.sumExec + now < TWO64 ==> Charged(p, now).sumExec == p.sumExec + now - p.execStart
    ensures p.execStart > 0 && p.vruntime + CalcDeltaFair(now - p.execStart, p.weight) < TWO64 ==>
      Charged(p, now).vruntime == p.vruntime + CalcDeltaFair(now - p.execStart, p.weight)
  {
    hide CalcDeltaFair;
  }

  lemma {:induction false} RequeueKeeps(s: Sched, curr: int)
    requires QueueInv(s) && InTable(curr) && curr !in s.queue && s.procs[curr].weight > 0
    ensures QueueInv(Requeue(s, curr))
    ensures forall m :: m in Requeue(s, curr).queue <==> m in s.queue || m == curr
  {
    var s1 := s.(procs := s.procs[curr := s.procs[curr].(state := Ready, execStart := 0)]);
    QueueFrame(s, s1, curr);
    EnqueueKeeps(s1, curr);
  }
}
