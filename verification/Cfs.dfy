/** cfs.c in place: the run queue on the red-black tree, with its cached leftmost node
    and counters.  A process is its slot in the table, and so is its tree node. */
module CfsScheduler {
  import opened RbShape
  import opened RbMemory
  import opened RbTrees
  import M = CfsModel

  /** The load of the queued tasks. */
  function QueueWeight(ps: seq<M.Proc>, q: seq<int>): nat
    requires M.WellFormed(ps, q)
  {
    if q == [] then 0
    else
      assert M.WellFormed(ps, q[1..]);
      ps[q[0]].weight + QueueWeight(ps, q[1..])
  }

  lemma {:induction false} WeightMiddle(ps: seq<M.Proc>, a: seq<int>, n: int, b: seq<int>)
    requires M.WellFormed(ps, a + [n] + b)
    ensures M.WellFormed(ps, a + b) && M.InTable(n)
    ensures QueueWeight(ps, a + [n] + b) == QueueWeight(ps, a + b) + ps[n].weight
  {
    assert (a + [n] + b)[|a|] == n;
    forall i | 0 <= i < |a + b| ensures M.InTable((a + b)[i]) {
      assert (a + b)[i] == (a + [n] + b)[if i < |a| then i else i + 1];
    }
    if a == [] {
      assert (a + [n] + b)[1..] == a + b;
    } else {
      assert (a + [n] + b)[1..] == a[1..] + [n] + b && (a + b)[1..] == a[1..] + b;
      WeightMiddle(ps, a[1..], n, b);
    }
  }

  lemma {:induction false} WeightFrame(ps: seq<M.Proc>, ps': seq<M.Proc>, q: seq<int>)
    requires M.WellFormed(ps, q) && M.WellFormed(ps', q)
    requires forall i :: 0 <= i < |q| ==> ps'[q[i]].weight == ps[q[i]].weight
    ensures QueueWeight(ps', q) == QueueWeight(ps, q)
  {
    if q != [] {
      assert M.WellFormed(ps, q[1..]) && M.WellFormed(ps', q[1..]);
      WeightFrame(ps, ps', q[1..]);
    }
  }

  lemma {:induction false} WeightBound(ps: seq<M.Proc>, q: seq<int>)
    requires M.WellFormed(ps, q) && forall n :: M.InTable(n) ==> ps[n].weight < M.TWO32
    ensures QueueWeight(ps, q) <= |q| * M.TWO32
  {
    if q != [] {
      assert M.WellFormed(ps, q[1..]);
      WeightBound(ps, q[1..]);
    }
  }

  /** A queue without duplicates is no longer than the table. */
  lemma {:induction false} QueueLength(q: seq<int>, n: nat)
    requires NoDup(q) && forall x :: x in q ==> 0 <= x < n
    ensures |q| <= n
    decreases n
  {
    if q != [] {
      assert q[0] in q;
      M.RemoveKeeps(q, n - 1);
      QueueLength(Remove(q, n - 1), n - 1);
    }
  }

  // ---------------------------------------------------------------- descents

  /** All nodes before the hole are at most `v`, all after it are later. */
  ghost predicate Straddles(ps: seq<M.Proc>, k: Ctx, v: nat) {
    && |ps| == M.MAX_PROCESSES
    && (forall m :: m in Before(k) ==> M.InTable(m) && ps[m].vruntime <= v)
    && (forall m :: m in After(k) ==> M.InTable(m) && v < ps[m].vruntime)
  }

  lemma {:induction false} DescendLeft(ps: seq<M.Proc>, k: Ctx, t: Tree, v: nat)
    requires t.Node? && Distinct(Plug(k, t)) && Straddles(ps, k, v)
    requires M.WellFormed(ps, Inorder(Plug(k, t))) && M.Sorted(ps, Inorder(Plug(k, t)))
    requires M.InTable(t.id) && v < ps[t.id].vruntime
    ensures Straddles(ps, InLeft(k, t.id, t.color, t.right), v)
  {
    FocusedOrder(k, t);
    var a, b, s := Before(k) + Inorder(t.left), Inorder(t.right) + After(k), Inorder(Plug(k, t));
    assert s[|a|] == t.id;
    forall j | 0 <= j < |b| ensures M.InTable(b[j]) && v < ps[b[j]].vruntime {
      assert s[|a| + 1 + j] == b[j];
    }
    assert After(InLeft(k, t.id, t.color, t.right)) == [t.id] + b by {
      Assoc([t.id], Inorder(t.right), After(k));
    }
  }

  lemma {:induction false} DescendRight(ps: seq<M.Proc>, k: Ctx, t: Tree, v: nat)
    requires t.Node? && Distinct(Plug(k, t)) && Straddles(ps, k, v)
    requires M.WellFormed(ps, Inorder(Plug(k, t))) && M.Sorted(ps, Inorder(Plug(k, t)))
    requires M.InTable(t.id) && ps[t.id].vruntime <= v
    ensures Straddles(ps, InRight(k, t.left, t.id, t.color), v)
  {
    FocusedOrder(k, t);
    var a, s := Before(k) + Inorder(t.left), Inorder(Plug(k, t));
    assert s[|a|] == t.id;
    forall j | 0 <= j < |a| ensures M.InTable(a[j]) && ps[a[j]].vruntime <= v {
      assert s[j] == a[j];
    }
  }

  /** The hole a descent ends in is the slot behind all tasks that are not later. */
  lemma {:induction false} HoleIsSlot(ps: seq<M.Proc>, k: Ctx, n: int)
    requires M.InTable(n) && |ps| == M.MAX_PROCESSES && Straddles(ps, k, ps[n].vruntime)
    ensures M.WellFormed(ps, Before(k) + After(k))
    ensures M.Inserted(ps, Before(k) + After(k), n) == Before(k) + [n] + After(k)
  {
    var q := Before(k) + After(k);
    forall i | 0 <= i < |q| ensures M.InTable(q[i]) { assert q[i] in q; }
    var i := |Before(k)|;
    forall j | 0 <= j < i ensures ps[q[j]].vruntime <= ps[n].vruntime { assert q[j] in Before(k); }
    if i < |q| { assert q[i] == After(k)[0] && After(k)[0] in After(k); }
    SlotUnique(ps, q, ps[n].vruntime, i);
    assert q[..i] == Before(k) && q[i..] == After(k);
  }

  lemma {:induction false} SlotUnique(ps: seq<M.Proc>, q: seq<int>, v: nat, i: nat)
    requires M.WellFormed(ps, q) && i <= |q|
    requires forall j :: 0 <= j < i ==> ps[q[j]].vruntime <= v
    requires i < |q| ==> v < ps[q[i]].vruntime
    ensures M.Slot(ps, q, v) == i
  {
  }

  function FirstOf(q: seq<int>): int {
    if q == [] then NIL else q[0]
  }

  lemma {:induction false} FirstAfterRemove(q: seq<int>, n: int)
    requires NoDup(q) && n in q
    ensures FirstOf(Remove(q, n)) == if q[0] == n then Follower(q, n) else q[0]
  {
  }

  /** The state after an enqueue into the hole of `k`. */
  lemma {:induction false} EnqueueShape(s: M.Sched, n: int, k: Ctx)
    requires M.QueueInv(s) && M.InTable(n) && !s.procs[n].onRq && s.procs[n].weight > 0
    requires s.queue == Before(k) + After(k) && Straddles(s.procs, k, s.procs[n].vruntime)
    ensures M.QueueInv(M.Enqueue(s, n))
    ensures M.Enqueue(s, n) == s.(queue := Before(k) + [n] + After(k),
                                  procs := s.procs[n := s.procs[n].(onRq := true, state := M.Ready)])
  {
    HoleIsSlot(s.procs, k, n);
    M.EnqueueKeeps(s, n);
  }

  /** The counters after `n` was put between `a` and `b`. */
  lemma {:induction false} EnqueueCounters(s: M.Sched, r: M.Sched, a: seq<int>, n: int, b: seq<int>)
    requires M.QueueInv(s) && M.QueueInv(r) && M.InTable(n)
    requires s.queue == a + b && r.queue == a + [n] + b
    requires forall m :: M.InTable(m) ==> r.procs[m].weight == s.procs[m].weight
    ensures |r.queue| == |s.queue| + 1 < M.TWO32
    ensures QueueWeight(r.procs, r.queue) == QueueWeight(s.procs, s.queue) + s.procs[n].weight < M.TWO64
    ensures FirstOf(r.queue) == if a == [] then n else FirstOf(s.queue)
  {
    assert M.WellFormed(s.procs, r.queue);
    WeightFrame(s.procs, r.procs, r.queue);
    WeightMiddle(s.procs, a, n, b);
    QueueBounds(s);
  }

  lemma {:induction false} HoleOrder(s: M.Sched, t: Tree, n: int, k: Ctx)
    requires M.QueueInv(s) && M.InTable(n) && !s.procs[n].onRq && t == Plug(k, Leaf) && s.queue == Inorder(t)
    ensures s.queue == Before(k) + After(k) && n !in Ids(t)
  {
    InorderIds(t);
    PlugInorder(k, Leaf);
  }

  lemma {:induction false} EnqueueResult(s: M.Sched, n: int, k: Ctx) returns (r: M.Sched)
    requires M.QueueInv(s) && M.InTable(n) && !s.procs[n].onRq && s.procs[n].weight > 0
    requires s.queue == Before(k) + After(k) && Straddles(s.procs, k, s.procs[n].vruntime)
    ensures r == M.Enqueue(s, n) && M.QueueInv(r)
    ensures r == s.(queue := Before(k) + [n] + After(k),
                    procs := s.procs[n := s.procs[n].(onRq := true, state := M.Ready)])
    ensures |r.queue| == |s.queue| + 1 < M.TWO32
    ensures QueueWeight(r.procs, r.queue) == QueueWeight(s.procs, s.queue) + s.procs[n].weight < M.TWO64
    ensures FirstOf(r.queue) == if Before(k) == [] then n else FirstOf(s.queue)
  {
    EnqueueShape(s, n, k);
    r := M.Enqueue(s, n);
    hide M.Enqueue, M.QueueInv, Straddles, QueueWeight, FirstOf;
    EnqueueCounters(s, r, Before(k), n, After(k));
  }

  /** The state between the unlinking of `n` and the update of min_vruntime. */
  lemma {:induction false} DequeueResult(s: M.Sched, n: int) returns (r: M.Sched)
    requires M.QueueInv(s) && M.InTable(n) && s.procs[n].onRq
    ensures r == s.(queue := Remove(s.queue, n), procs := s.procs[n := s.procs[n].(onRq := false)])
    ensures M.QueueInv(r) && M.Dequeue(s, n) == M.UpdateMinVruntime(r)
    ensures |r.queue| == |s.queue| - 1 < M.TWO32
    ensures QueueWeight(r.procs, r.queue) == QueueWeight(s.procs, s.queue) - s.procs[n].weight < M.TWO64
    ensures FirstOf(r.queue) == if FirstOf(s.queue) == n then Follower(s.queue, n) else FirstOf(s.queue)
  {
    r := s.(queue := Remove(s.queue, n), procs := s.procs[n := s.procs[n].(onRq := false)]);
    UnlinkKeeps(s, n, r);
    FirstAfterRemove(s.queue, n);
    WeightRemove(s, n);
    WeightFrame(s.procs, r.procs, r.queue);
    QueueBounds(s);
  }

  lemma {:induction false} DequeueCounters(s: M.Sched, n: int)
    requires M.QueueInv(s) && M.InTable(n) && s.procs[n].onRq
    ensures 1 <= |s.queue| < M.TWO32 && s.procs[n].weight <= QueueWeight(s.procs, s.queue) < M.TWO64
  {
    WeightRemove(s, n);
    QueueBounds(s);
  }

  lemma {:induction false} UnlinkKeeps(s: M.Sched, n: int, r: M.Sched)
    requires M.QueueInv(s) && M.InTable(n) && s.procs[n].onRq
    requires r == s.(queue := Remove(s.queue, n), procs := s.procs[n := s.procs[n].(onRq := false)])
    ensures M.QueueInv(r) && |r.queue| == |s.queue| - 1
  {
    M.RemoveKeeps(s.queue, n);
    M.RemoveSorted(s.procs, s.queue, n);
    assert forall m :: M.InTable(m) ==> r.procs[m].vruntime == s.procs[m].vruntime;
  }

  lemma {:induction false} RemoveSplit(q: seq<int>, n: int) returns (a: seq<int>, b: seq<int>)
    requires n in q
    ensures q == a + [n] + b && Remove(q, n) == a + b
  {
    if q[0] == n {
      a, b := [], q[1..];
    } else {
      a, b := RemoveSplit(q[1..], n);
      a := [q[0]] + a;
    }
  }

  lemma {:induction false} WeightRemove(s: M.Sched, n: int)
    requires M.QueueInv(s) && n in s.queue
    ensures M.InTable(n) && M.WellFormed(s.procs, Remove(s.queue, n))
    ensures QueueWeight(s.procs, Remove(s.queue, n)) == QueueWeight(s.procs, s.queue) - s.procs[n].weight
  {
    var a, b := RemoveSplit(s.queue, n);
    WeightMiddle(s.procs, a, n, b);
  }

  /** The counters are far from wrapping. */
  lemma {:induction false} QueueBounds(s: M.Sched)
    requires M.QueueInv(s)
    ensures |s.queue| <= M.MAX_PROCESSES && QueueWeight(s.procs, s.queue) <= M.MAX_PROCESSES * M.TWO32
  {
    QueueLength(s.queue, M.MAX_PROCESSES);
    WeightBound(s.procs, s.queue);
  }

  /** The accounting of cfs_update_curr on one entity. */
  method ChargeEntity(p: M.Proc, now: nat) returns (r: M.Proc)
    requires p.weight > 0 && p.execStart != 0
    ensures r == M.Charged(p, now) && r.vruntime < M.TWO64 && r.weight == p.weight && r.onRq == p.onRq
  {
    var delta := M.Sub64(now, p.execStart);
    r := p.(execStart := now);
    r := r.(sumExec := M.Wrap64(r.sumExec + delta));
    r := r.(vruntime := M.Wrap64(r.vruntime + M.CalcDeltaFair(delta, r.weight)));
  }

  class Cfs {
    const timeline: RbTree
    var leftmost: int
    var minVruntime: nat
    var nrRunning: nat
    var totalWeight: nat
    var current: int
    var procs: seq<M.Proc>
    var clock: nat

    /** The abstract state: the timeline is read off in order. */
    ghost function View(): M.Sched
      reads this, timeline
    {
      M.Sched(procs, Inorder(timeline.tree), current, minVruntime, clock)
    }

    /** The tree is red-black and in vruntime order, `leftmost` is its first node, and the
        counters are its size and weight. */
    ghost predicate Valid()
      reads this, timeline
    {
      && timeline.Valid() && M.QueueInv(View())
      && leftmost == FirstOf(View().queue)
      && nrRunning == |View().queue|
      && totalWeight == QueueWeight(procs, View().queue)
    }

    /** cfs_init on zeroed memory. */
    constructor ()
      ensures Valid() && fresh(timeline) && View() == M.Init()
    {
      timeline := new RbTree();
      leftmost, minVruntime, nrRunning, totalWeight, current, clock := NIL, 0, 0, 0, NIL, 0;
      procs := seq(M.MAX_PROCESSES, i => M.Proc(M.Unused, 0, 0, 0, 0, 0, false));
      new;
      for i := 0 to M.MAX_PROCESSES
        invariant timeline.Valid() && timeline.tree == Leaf && fresh(timeline)
        invariant leftmost == NIL && minVruntime == nrRunning == totalWeight == clock == 0 && current == NIL
        invariant procs == M.Init().procs
      {
        timeline.ClearNode(i);
      }
    }

    /** The descent of cfs_enqueue_task: the link to hang the process on, and whether every
        step went left. */
    method FindLink(n: int) returns (parent: int, onLeft: bool, first: bool, ghost k: Ctx, ghost steps: nat)
      requires Valid() && M.InTable(n) && !procs[n].onRq
      ensures timeline.tree == Plug(k, Leaf) && parent == Parent(k) && (!k.Top? ==> (onLeft <==> k.InLeft?))
      ensures Straddles(procs, k, procs[n].vruntime) && (first <==> Before(k) == [])
      ensures steps == Depth(k) && Pow2(steps) <= (nrRunning + 1) * (nrRunning + 1)
    {
      var link := timeline.root;
      parent, onLeft, first, k, steps := NIL, false, true, Top, 0;
      ghost var t := timeline.tree;
      while link != NIL
        invariant timeline.tree == Plug(k, t) && link == Root(t) && (link == NIL <==> t.Leaf?)
        invariant parent == Parent(k) && (!k.Top? ==> (onLeft <==> k.InLeft?))
        invariant Straddles(procs, k, procs[n].vruntime) && (first <==> Before(k) == [])
        invariant steps == Depth(k)
        decreases t
      {
        parent, steps := link, steps + 1;
        CellOf(timeline.mem, timeline.root, k, t);
        NodeInTable(procs, k, t);
        if procs[n].vruntime < procs[parent].vruntime {
          DescendLeft(procs, k, t, procs[n].vruntime);
          link, onLeft := timeline.mem[parent].left, true;
          k, t := InLeft(k, t.id, t.color, t.right), t.left;
        } else {
          DescendRight(procs, k, t, procs[n].vruntime);
          link, onLeft, first := timeline.mem[parent].right, false, false;
          k, t := InRight(k, t.left, t.id, t.color), t.right;
        }
      }
      StepsBound(k, t, steps);
    }

    /** The writes of cfs_enqueue_task once the link is found. */
    method Attach(n: int, parent: int, onLeft: bool, first: bool, ghost k: Ctx)
      requires timeline.Valid() && timeline.tree == Plug(k, Leaf) && n !in Ids(timeline.tree)
      requires parent == Parent(k) && (!k.Top? ==> (onLeft <==> k.InLeft?))
      requires 0 <= n < |procs| && nrRunning + 1 < M.TWO32 && totalWeight + procs[n].weight < M.TWO64
      modifies this, timeline
      ensures timeline.Valid() && Inorder(timeline.tree) == Before(k) + [n] + After(k)
      ensures leftmost == if first then n else old(leftmost)
      ensures nrRunning == old(nrRunning) + 1
      ensures totalWeight == old(totalWeight) + old(procs[n].weight)
      ensures procs == old(procs)[n := old(procs[n]).(onRq := true, state := M.Ready)]
      ensures minVruntime == old(minVruntime) && current == old(current) && clock == old(clock)
    {
      if first {
        leftmost := n;
      }
      timeline.Insert(n, parent, onLeft, k);
      procs := procs[n := procs[n].(onRq := true)];
      nrRunning := M.Wrap32(nrRunning + 1);
      totalWeight := M.Wrap64(totalWeight + procs[n].weight);
      procs := procs[n := procs[n].(state := M.Ready)];
    }

    /** cfs_enqueue_task. */
    method Enqueue(n: int)
      requires Valid() && M.InTable(n) && procs[n].weight > 0
      modifies this, timeline
      ensures Valid() && View() == M.Enqueue(old(View()), n)
    {
      if !procs[n].onRq {
        var parent, onLeft, first;
        ghost var k, steps;
        parent, onLeft, first, k, steps := FindLink(n);
        HoleOrder(View(), timeline.tree, n, k);
        ghost var r := EnqueueResult(View(), n, k);
        hide M.Enqueue, M.QueueInv, QueueWeight, Straddles;
        Link(n, parent, onLeft, first, k, r);
      }
    }

    /** Attaching at the link found leads to the state `r`. */
    method Link(n: int, parent: int, onLeft: bool, first: bool, ghost k: Ctx, ghost r: M.Sched)
      requires timeline.Valid() && timeline.tree == Plug(k, Leaf) && n !in Ids(timeline.tree)
      requires parent == Parent(k) && (!k.Top? ==> (onLeft <==> k.InLeft?)) && 0 <= n < |procs|
      requires r.queue == Before(k) + [n] + After(k) && r.procs == procs[n := procs[n].(onRq := true, state := M.Ready)]
      requires r.current == current && r.minVruntime == minVruntime && r.clock == clock && M.QueueInv(r)
      requires nrRunning + 1 == |r.queue| < M.TWO32
      requires totalWeight + procs[n].weight == QueueWeight(r.procs, r.queue) < M.TWO64
      requires FirstOf(r.queue) == if first then n else leftmost
      modifies this, timeline
      ensures Valid() && View() == r
    {
      hide M.QueueInv, QueueWeight, FirstOf;
      Attach(n, parent, onLeft, first, k);
      assert View() == r;
    }

    /** update_min_vruntime. */
    method UpdateMinVruntime()
      requires Valid()
      modifies this`minVruntime
      ensures Valid() && View() == M.UpdateMinVruntime(old(View()))
    {
      M.UpdateMinKeeps(View());
      var vruntime := minVruntime;
      if current != NIL {
        vruntime := procs[current].vruntime;
      }
      if leftmost != NIL {
        if current == NIL {
          vruntime := procs[leftmost].vruntime;
        } else {
          vruntime := if vruntime < procs[leftmost].vruntime then vruntime else procs[leftmost].vruntime;
        }
      }
      minVruntime := if vruntime > minVruntime then vruntime else minVruntime;
    }

    /** The writes of cfs_dequeue_task before it updates min_vruntime. */
    method Detach(n: int)
      requires timeline.Valid() && n in Ids(timeline.tree)
      requires 0 <= n < |procs| && 1 <= nrRunning < M.TWO32 && procs[n].weight <= totalWeight < M.TWO64
      modifies this, timeline
      ensures timeline.Valid() && Inorder(timeline.tree) == Remove(old(Inorder(timeline.tree)), n)
      ensures leftmost == if old(leftmost) == n then Follower(old(Inorder(timeline.tree)), n) else old(leftmost)
      ensures nrRunning == old(nrRunning) - 1
      ensures totalWeight == old(totalWeight) - old(procs[n].weight)
      ensures procs == old(procs)[n := old(procs[n]).(onRq := false)]
      ensures minVruntime == old(minVruntime) && current == old(current) && clock == old(clock)
    {
      TreeNotNil(timeline.tree);
      if leftmost == n {
        leftmost := timeline.Next(n);
      }
      Erased(timeline.tree, n);
      timeline.Erase(n);
      InorderIds(timeline.tree);
      timeline.ClearNode(n);
      procs := procs[n := procs[n].(onRq := false)];
      nrRunning := M.Wrap32(nrRunning - 1);
      totalWeight := M.Wrap64(totalWeight - procs[n].weight);
    }

    /** cfs_dequeue_task. */
    method Dequeue(n: int)
      requires Valid() && M.InTable(n)
      modifies this, timeline
      ensures Valid() && View() == M.Dequeue(old(View()), n)
    {
      if procs[n].onRq {
        ghost var r := DequeueResult(View(), n);
        DequeueCounters(View(), n);
        InorderIds(timeline.tree);
        Detach(n);
        assert View() == r;
        UpdateMinVruntime();
      }
    }

    /** get_time_ns: each reading advances the clock by one millisecond. */
    method GetTimeNs() returns (now: nat)
      requires Valid()
      modifies this`clock
      ensures Valid() && now == clock == M.Wrap64(old(clock) + M.TICK_NS)
      ensures View() == old(View()).(clock := now)
    {
      clock := M.Wrap64(clock + M.TICK_NS);
      now := clock;
    }

    /** Rewrites the entity of a task that is not queued. */
    method SetProc(n: int, p: M.Proc)
      requires Valid() && M.InTable(n) && !procs[n].onRq
      requires !p.onRq && p.vruntime < M.TWO64 && 0 < p.weight < M.TWO32
      modifies this`procs
      ensures Valid() && View() == old(View()).(procs := old(procs)[n := p])
    {
      procs := procs[n := p];
      M.QueueFrame(old(View()), View(), n);
      forall i | 0 <= i < |View().queue| ensures procs[View().queue[i]] == old(procs)[View().queue[i]] {
        assert View().queue[i] in View().queue;
      }
      WeightFrame(old(procs), procs, View().queue);
    }

    /** cfs_update_curr. */
    method UpdateCurr(n: int)
      requires Valid() && M.InTable(n) && !procs[n].onRq && procs[n].weight > 0
      modifies this
      ensures Valid() && View() == M.UpdateCurr(old(View()), n)
    {
      ghost var s := View();
      assert procs == s.procs && 0 < procs[n].weight < M.TWO32 && procs[n].vruntime < M.TWO64;
      hide Valid, M.UpdateMinVruntime;
      var now := GetTimeNs();
      if procs[n].execStart == 0 {
        SetProc(n, procs[n].(execStart := now));
      } else {
        var p := ChargeEntity(procs[n], now);
        hide M.Charged;
        SetProc(n, p);
        assert View() == s.(clock := now, procs := s.procs[n := p]);
        UpdateMinVruntime();
      }
    }

    /** cfs_pick_next_task: the first of the timeline, without looking at the tree. */
    method PickNextTask() returns (n: int)
      requires Valid()
      ensures n == FirstOf(View().queue)
    {
      n := leftmost;
    }

    /** `next` leaves the queue and becomes the current task. */
    method SwitchTo(next: int)
      requires Valid() && M.InTable(next) && procs[next].weight > 0
      modifies this, timeline
      ensures Valid() && View() == M.SwitchTo(old(View()), next)
    {
      ghost var s1 := M.Dequeue(View(), next);
      M.DequeueKeeps(View(), next);
      assert 0 < procs[next].weight < M.TWO32 && procs[next].vruntime < M.TWO64;
      hide Valid, M.Dequeue, M.UpdateMinVruntime;
      Dequeue(next);
      assert procs == s1.procs;
      var p := procs[next].(state := M.Running);
      var now := GetTimeNs();
      SetProc(next, p.(execStart := now));
      SetCurrent(next);
    }

    method SetCurrent(n: int)
      requires Valid() && M.InTable(n)
      modifies this`current
      ensures Valid() && View() == old(View()).(current := n)
    {
      current := n;
    }

    /** cfs_scheduler_tick. */
    method Tick()
      requires Valid() && M.Inv(View())
      modifies this, timeline
      ensures Valid() && View() == M.Tick(old(View()))
    {
      var curr := current;
      if curr == NIL {
        var next := PickNextTask();
        if next != NIL {
          assert next in View().queue;
          SwitchTo(next);
        }
        return;
      }
      M.UpdateCurrKeeps(View(), curr);
      UpdateCurr(curr);
      var next := PickNextTask();
      if next != NIL {
        assert next in View().queue;
        var vdiff := M.Sub64(procs[curr].vruntime, procs[next].vruntime);
        if vdiff > M.MIN_GRANULARITY {
          M.RequeueKeeps(View(), curr);
          SetProc(curr, procs[curr].(state := M.Ready, execStart := 0));
          Enqueue(curr);
          SwitchTo(next);
        }
      }
    }

    /** cfs_create_process: the slot of the new task, or NIL when the table is full. */
    method CreateProcess(nice: int) returns (n: int)
      requires Valid() && M.Inv(View())
      modifies this, timeline
      ensures Valid() && (View(), n) == M.Create(old(View()), nice)
    {
      n := NIL;
      for i := 0 to M.MAX_PROCESSES
        invariant n == NIL && M.FreeSlot(procs, 0) == M.FreeSlot(procs, i)
      {
        if procs[i].state == M.Unused {
          n := i;
          break;
        }
      }
      if n == NIL { return; }
      SetProc(n, M.NewProc(nice, minVruntime));
      Enqueue(n);
    }
  }

  lemma {:induction false} Erased(t: Tree, n: int)
    requires Distinct(t)
    ensures n !in Remove(Inorder(t), n)
  {
    DistinctNoDup(t);
    M.RemoveKeeps(Inorder(t), n);
  }

  lemma {:induction false} NodeInTable(ps: seq<M.Proc>, k: Ctx, t: Tree)
    requires t.Node? && Distinct(Plug(k, t)) && M.WellFormed(ps, Inorder(Plug(k, t)))
    ensures M.InTable(t.id)
  {
    FocusedOrder(k, t);
    assert Inorder(Plug(k, t))[|Before(k) + Inorder(t.left)|] == t.id;
  }
}
