/** executeApplication: the simulated run of the placed application. The
    ready queue is served front first; a popped module that is no longer
    waiting is skipped, otherwise it may suffer a hardware failure (which
    moves it to the least-loaded agent), runs to completion on its agent,
    queues its successors that became ready, and may trigger a global
    rebalance. When the queue is empty the clock idles by 0.1 and every
    ready module is queued. */
module Execution {
  import opened Indices
  import opened AppGraph
  import opened AgentGraph
  import opened Balancer
  import opened Rebalance
  import opened Schedule

  // ---------------------------------------------------------------------
  // Steps of the loop

  lemma RunStart(s0: State)
    requires Placed(s0)
    ensures Run(s0, s0, 0.0, [], 0)
  {
    forall k | 0 <= k < |s0.ready|
      ensures forall j :: 0 <= j < |s0.app.modules[s0.ready[k]].prev| ==>
        0 <= s0.app.modules[s0.ready[k]].prev[j] < |s0.status| &&
        s0.status[s0.app.modules[s0.ready[k]].prev[j]] == Completed
    {
      assert PredsDone(s0.status, s0.app.modules[s0.ready[k]].prev);
    }
  }

  /** Skipping a queue head that is no longer waiting keeps the invariant
      and whether some queued module is waiting. */
  lemma RunSkip(s0: State, s: State, clock: real, trace: seq<int>, idle: nat)
    requires Run(s0, s, clock, trace, idle)
    requires s.ready != [] && s.status[s.ready[0]] != NotStarted
    ensures Run(s0, s.(ready := s.ready[1..]), clock, trace, idle)
    ensures Waiting(s.(ready := s.ready[1..])) == Waiting(s)
  {
    var t := s.(ready := s.ready[1..]);
    ConsistentFrame(s, t);
    assert forall k :: 0 <= k < |t.ready| ==> t.ready[k] == s.ready[k + 1];
    if Mirrored(s0.app) && Queued(s0) {
      forall m | 0 <= m < |t.app.modules| && IsModuleReady(t.app, t.status, m)
        ensures m in t.ready
      {
        assert m in s.ready && m != s.ready[0];
      }
    }
    if Waiting(s) == 0 {
      var k :| 0 <= k < |s.ready| && 0 <= s.ready[k] < |s.status| && s.status[s.ready[k]] == NotStarted;
      assert t.ready[k - 1] == s.ready[k];
    }
  }

  /** The invariant reads the agents only through the bookkeeping
      invariant: a failure move or a global rebalance, which keep it and
      keep every module mapped, keep the loop invariant. */
  lemma RunFrame(s0: State, s: State, t: State, clock: real, trace: seq<int>, idle: nat)
    requires Run(s0, s, clock, trace, idle)
    requires t.app == s.app && t.status == s.status && t.ready == s.ready && t.finish == s.finish
    requires Consistent(t) && |t.agents| == |s.agents|
    requires forall m :: m in s.owner ==> m in t.owner
    ensures Run(s0, t, clock, trace, idle)
    ensures Waiting(t) == Waiting(s)
  {
  }

  /** An empty queue after an idle step holds every ready module, and one
      of them is waiting. */
  lemma RunIdle(s0: State, s: State, clock: real, trace: seq<int>, idle: nat, rank: seq<nat>)
    requires Run(s0, s, clock, trace, idle) && TopoRank(s0.app, rank)
    requires s.ready == [] && |trace| < |s.app.modules|
    ensures Run(s0, s.(ready := ReadyAmong(s.app, s.status, Ids(|s.app.modules|))), clock + 0.1, trace, idle + 1)
    ensures Waiting(s.(ready := ReadyAmong(s.app, s.status, Ids(|s.app.modules|)))) == 0
    ensures Waiting(s) == 1
  {
    var n := |s.app.modules|;
    var t := s.(ready := ReadyAmong(s.app, s.status, Ids(n)));
    ConsistentFrame(s, t);
    var r := SomeModuleReady(s.app, s.status, rank, trace);
    assert Ids(n)[r] == r;
    assert r in t.ready;
    var k :| 0 <= k < |t.ready| && t.ready[k] == r;
    assert s.status[t.ready[k]] == NotStarted;
    IdleQueueSound(s, t.ready);
    assert SumLoads(s.app.modules, trace) + (idle + 1) as real * 0.1 == clock + 0.1;
    assert Mirrored(s0.app) && Queued(s0) ==> Queued(s);
  }

  /** Running the waiting queue head on the agent it is mapped to keeps the
      loop invariant, with the clock advanced by the module's load. */
  lemma RunExec(s0: State, s: State, clock: real, trace: seq<int>, idle: nat)
    requires Run(s0, s, clock, trace, idle)
    requires s.ready != [] && s.status[s.ready[0]] == NotStarted
    ensures s.ready[0] in s.owner && 0 <= s.owner[s.ready[0]] < |s.agents|
    ensures Run(s0, Execute(s, s.ready[0], s.owner[s.ready[0]], clock),
                clock + s.app.modules[s.ready[0]].load, trace + [s.ready[0]], idle)
  {
    var m := s.ready[0];
    var a := s.owner[m];
    ExecConsistent(s, m, a, clock);
    ExecStepped(s, m, a, clock);
    RunStepped(s0, s, clock, trace, idle, Execute(s, m, a, clock));
  }

  /** The loop invariant after the pop-and-run step of the waiting queue
      head, for any bookkeeping that stays consistent. */
  lemma RunStepped(s0: State, s: State, clock: real, trace: seq<int>, idle: nat, t: State)
    requires Run(s0, s, clock, trace, idle)
    requires s.ready != [] && s.status[s.ready[0]] == NotStarted
    requires Stepped(s, s.ready[0], clock, t) && Consistent(t)
    ensures Run(s0, t, clock + s.app.modules[s.ready[0]].load, trace + [s.ready[0]], idle)
  {
    var m := s.ready[0];
    var g := s.app;
    ExecTraced(s, trace, m, t);
    ExecQueueSound(s, m, clock, t);
    assert m !in trace;
    ExecTimed(g, s.finish, t.finish, clock, trace, m);
    ExecClock(g.modules, trace, m, clock, idle);
    if Mirrored(s0.app) && Queued(s0) {
      ExecQueued(s, m, clock, t);
    }
  }

  /** When every module has run: each completed once, after its
      predecessors; no agent holds load; the clock is the last completion
      time and at least the total module load, and exactly that load when
      the run never idled. */
  lemma RunEnd(s0: State, s: State, clock: real, trace: seq<int>, idle: nat)
    requires Run(s0, s, clock, trace, idle) && |trace| >= |s0.app.modules|
    ensures |trace| == |s0.app.modules| && Distinct(trace) && CoversIds(trace, |s0.app.modules|)
    ensures forall m :: 0 <= m < |s.status| ==> s.status[m] == Completed
    ensures forall x :: x in s.finish ==> s.finish[x] <= clock
    ensures clock >= TotalModuleLoad(s0.app)
    ensures idle == 0 ==> clock == TotalModuleLoad(s0.app)
    ensures forall a :: 0 <= a < |s.agents| ==> s.agents[a].load == 0.0
  {
    var n := |s0.app.modules|;
    DistinctIdsBound(trace, n);
    EndClock(s.app.modules, trace, clock, idle);
    EndFinish(s.app, s.finish, clock, trace);
    forall a | 0 <= a < |s.agents|
      ensures s.agents[a].load == 0.0
    {
      PendingNone(s, a, n);
    }
  }

  // ---------------------------------------------------------------------
  // The loop

  /** The failure branch of a step: the waiting queue head moves to the
      least-loaded agent, and the loop invariant still holds. */
  lemma RunFail(s0: State, s: State, clock: real, trace: seq<int>, idle: nat)
    requires Run(s0, s, clock, trace, idle)
    requires s.ready != [] && s.status[s.ready[0]] == NotStarted
    ensures s.ready[0] in s.owner && 0 <= s.owner[s.ready[0]] < |s.agents|
    ensures RebalanceFailed(s, s.ready[0], s.owner[s.ready[0]]).ready == s.ready
    ensures RebalanceFailed(s, s.ready[0], s.owner[s.ready[0]]).status == s.status
    ensures Run(s0, RebalanceFailed(s, s.ready[0], s.owner[s.ready[0]]), clock, trace, idle)
  {
    var m := s.ready[0];
    RebalanceFailedConsistent(s, m, s.owner[m]);
    RunFrame(s0, s, RebalanceFailed(s, m, s.owner[m]), clock, trace, idle);
  }

  /** The global rebalance at the end of a step, when needRebalancing
      holds; it keeps the loop invariant. */
  method GlobalStep(s0: State, s: State, clock: real, trace: seq<int>, ghost idle: nat) returns (t: State)
    requires Run(s0, s, clock, trace, idle)
    ensures Run(s0, t, clock, trace, idle)
  {
    t := s;
    if NeedRebalancing(s.agents) {
      OwnedListsInRange(s);
      var r, moves := RebalanceGlobal(s);
      RunFrame(s0, s, r, clock, trace, idle);
      t := r;
    }
  }

  /** One executed module: the queue head, still waiting, may fail on its
      agent and then move to the least-loaded agent; it runs from `clock`
      to clock + load on the agent it is then mapped to, its successors
      that became ready are queued, and a global rebalance follows when the
      loads have drifted apart. */
  method RunModule(s0: State, s: State, clock: real, trace: seq<int>, ghost idle: nat, fails: bool)
    returns (t: State, clock': real, trace': seq<int>)
    requires Run(s0, s, clock, trace, idle)
    requires s.ready != [] && s.status[s.ready[0]] == NotStarted
    ensures Run(s0, t, clock', trace', idle)
    ensures |trace'| == |trace| + 1
  {
    var u := s;
    if fails {
      RunFail(s0, s, clock, trace, idle);
      u := RebalanceFailed(s, s.ready[0], s.owner[s.ready[0]]);
    }
    t, clock', trace' := ExecHead(s0, u, clock, trace, idle);
    t := GlobalStep(s0, t, clock', trace', idle);
  }

  /** The queue head, still waiting, runs on the agent it is mapped to. */
  method ExecHead(s0: State, s: State, clock: real, trace: seq<int>, ghost idle: nat)
    returns (t: State, clock': real, trace': seq<int>)
    requires Run(s0, s, clock, trace, idle)
    requires s.ready != [] && s.status[s.ready[0]] == NotStarted
    ensures Run(s0, t, clock', trace', idle)
    ensures trace' == trace + [s.ready[0]] && clock' == clock + s.app.modules[s.ready[0]].load
  {
    RunExec(s0, s, clock, trace, idle);
    t := Execute(s, s.ready[0], s.owner[s.ready[0]], clock);
    clock' := clock + s.app.modules[s.ready[0]].load;
    trace' := trace + [s.ready[0]];
  }

  /** One iteration of the loop of executeApplication: an idle step when
      the queue is empty, a skipped queue head when it is no longer
      waiting, an executed module otherwise. Each iteration makes progress:
      a module completes, or a waiting module gets queued, or the queue
      shrinks. */
  method Step(s0: State, s: State, clock: real, trace: seq<int>, ghost idle: nat, failures: seq<bool>, ghost rank: seq<nat>)
    returns (s': State, clock': real, trace': seq<int>, ghost idle': nat)
    requires Run(s0, s, clock, trace, idle) && TopoRank(s0.app, rank) && |trace| < |s0.app.modules|
    ensures Run(s0, s', clock', trace', idle')
    ensures || |trace'| > |trace|
            || (|trace'| == |trace| && Waiting(s') < Waiting(s))
            || (|trace'| == |trace| && Waiting(s') == Waiting(s) && |s'.ready| < |s.ready|)
  {
    if s.ready == [] {
      RunIdle(s0, s, clock, trace, idle, rank);
      s' := s.(ready := ReadyAmong(s.app, s.status, Ids(|s.app.modules|)));
      clock', trace', idle' := clock + 0.1, trace, idle + 1;
    } else if s.status[s.ready[0]] != NotStarted {
      RunSkip(s0, s, clock, trace, idle);
      s' := s.(ready := s.ready[1..]);
      clock', trace', idle' := clock, trace, idle;
    } else {
      var fails := |trace| < |failures| && failures[|trace|];
      s', clock', trace' := RunModule(s0, s, clock, trace, idle, fails);
      idle' := idle;
    }
  }

  /** The loop of executeApplication, from the placed state until every
      module has completed. */
  method RunLoop(s0: State, failures: seq<bool>) returns (clock: real, trace: seq<int>, s: State, ghost idle: nat)
    requires Placed(s0) && Acyclic(s0.app)
    ensures Run(s0, s, clock, trace, idle) && |trace| >= |s0.app.modules|
  {
    ghost var rank :| TopoRank(s0.app, rank);
    idle := 0;
    clock := 0.0;
    s, trace := s0, [];
    RunStart(s0);
    while |trace| < |s0.app.modules|
      invariant Run(s0, s, clock, trace, idle)
      decreases |s0.app.modules| - |trace|, Waiting(s), |s.ready|
    {
      s, clock, trace, idle := Step(s0, s, clock, trace, idle, failures, rank);
    }
  }

  /** executeApplication. `failures[i]` says whether the hardware fails at
      the i-th executed module (indices past the end: no failure); the
      returned time is the clock when the last module completes. The graph
      must be acyclic, since on a cycle the idle branch repeats forever. */
  method ExecuteApplication(s0: State, failures: seq<bool>) returns (makespan: real, trace: seq<int>, s: State)
    requires Placed(s0) && Acyclic(s0.app)
    ensures s.app == s0.app && |s.agents| == |s0.agents|
    ensures |trace| == |s0.app.modules| && Distinct(trace) && CoversIds(trace, |s0.app.modules|)
    ensures forall m :: 0 <= m < |s.status| ==> s.status[m] == Completed
    ensures Timed(s0.app, s.finish, makespan, trace)
    ensures forall x :: x in s.finish ==> s.finish[x] <= makespan
    ensures |s0.app.modules| == 0 ==> makespan == 0.0
    ensures makespan >= TotalModuleLoad(s0.app)
    ensures Mirrored(s0.app) && Queued(s0) ==> makespan == TotalModuleLoad(s0.app)
    ensures Consistent(s) && forall m :: 0 <= m < |s0.app.modules| ==> m in s.owner
    ensures forall a :: 0 <= a < |s.agents| ==> s.agents[a].load == 0.0
  {
    ghost var idle;
    makespan, trace, s, idle := RunLoop(s0, failures);
    RunEnd(s0, s, makespan, trace, idle);
  }
}
