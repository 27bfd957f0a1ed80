/** The scheduler in place and the state machine run in lockstep. */
module CfsSystem {
  import M = CfsModel
  import R = CfsRuns
  import T = CfsTheorems
  import F = CfsFloor
  import opened CfsScheduler

  method Step(c: Cfs, op: R.Op)
    requires c.Valid() && M.Inv(c.View())
    modifies c, c.timeline
    ensures c.Valid() && M.Inv(c.View()) && c.View() == R.Step(old(c.View()), op)
  {
    hide M.Tick, M.Create;
    R.StepKeeps(c.View(), op);
    match op {
      case OpCreate(nice) => var _ := c.CreateProcess(nice);
      case OpTick => c.Tick();
    }
  }

  /** Every run of cfs.c is a run of the state machine: after any calls the tree, the
      cached leftmost node and the counters agree with it. */
  method Execute(ops: seq<R.Op>) returns (c: Cfs)
    ensures c.Valid() && c.View() == R.Run(ops)
    ensures c.leftmost == FirstOf(R.Run(ops).queue) && c.nrRunning == |R.Run(ops).queue|
    ensures c.totalWeight == QueueWeight(R.Run(ops).procs, R.Run(ops).queue)
  {
    hide R.Step;
    c := new Cfs();
    assert ops[..0] == [];
    for i := 0 to |ops|
      invariant c.Valid() && fresh(c) && fresh(c.timeline)
      invariant c.View() == R.Run(ops[..i])
    {
      assert ops[..i + 1][..i] == ops[..i];
      Step(c, ops[i]);
    }
    assert ops[..|ops|] == ops;
  }

  /** No starvation in any run: the room is asked for in the state that the run has reached. */
  lemma {:induction false} NoStarvationInRuns(ops: seq<R.Op>, x: int) returns (n: nat)
    requires 2 * M.TICK_NS * |ops| < M.TWO64 && x in R.Run(ops).queue && M.InTable(x)
    requires T.Room(R.Run(ops), x, T.TurnsBefore(R.Run(ops), x) + 2)
    ensures 1 <= n <= T.TurnsBefore(R.Run(ops), x) + 2 && T.Ticks(R.Run(ops), n).current == x
  {
    hide R.Step, M.Tick;
    T.Accounting(ops);
    n := T.NoStarvation(R.Run(ops), x);
  }

  /** The same with the room counted in calls: before the run is some 2.7e11 calls long, only the
      clock can be short of room. */
  lemma {:induction false} NoStarvationByCount(ops: seq<R.Op>, x: int) returns (n: nat)
    requires R.MAX_CHARGE * (|ops| + 1) + M.MIN_GRANULARITY < M.TWO64 && x in R.Run(ops).queue && M.InTable(x)
    requires 2 * M.TICK_NS * (|ops| + T.TurnsBefore(R.Run(ops), x) + 2) < M.TWO64
    ensures 1 <= n <= T.TurnsBefore(R.Run(ops), x) + 2 && T.Ticks(R.Run(ops), n).current == x
  {
    hide R.Run, M.Tick, T.TurnsBefore;
    F.RunAtMost(ops);
    T.Accounting(ops);
    n := NoStarvationInRuns(ops, x);
  }
}
