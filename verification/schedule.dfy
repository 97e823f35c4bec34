/** The execution loop's bookkeeping: acyclicity and the progress it
    guarantees, the loop invariant of executeApplication and its parts, the
    pop-and-run step, and the facts each part of a step needs. The loop
    itself lives in module Execution. */
module Schedule {
  import opened Indices
  import opened AppGraph
  import opened AgentGraph
  import opened Balancer

  // ---------------------------------------------------------------------
  // Acyclicity and progress

  /** rank numbers the modules so that every predecessor ranks strictly
      lower than the module it precedes. */
  ghost predicate TopoRank(g: Graph, rank: seq<nat>) {
    && |rank| == |g.modules|
    && forall m, k :: 0 <= m < |g.modules| && 0 <= k < |g.modules[m].prev| && 0 <= g.modules[m].prev[k] < |rank| ==>
         rank[g.modules[m].prev[k]] < rank[m]
  }

  /** The dependency graph has no cycle: a topological numbering exists. */
  ghost predicate Acyclic(g: Graph) {
    exists rank :: TopoRank(g, rank)
  }

  /** No module is marked running: in the source a module is running only
      between two statements of the same step. */
  ghost predicate NoneRunning(status: seq<Status>) {
    forall m :: 0 <= m < |status| ==> status[m] != Running
  }

  /** In an acyclic graph, following not-yet-completed predecessors from a
      waiting module ends at a module that is ready to run. */
  lemma {:induction false} ReadyBelow(g: Graph, status: seq<Status>, rank: seq<nat>, m: int) returns (r: int)
    requires WellFormed(g) && |status| == |g.modules| && TopoRank(g, rank)
    requires NoneRunning(status)
    requires 0 <= m < |g.modules| && status[m] == NotStarted
    ensures 0 <= r < |g.modules| && IsModuleReady(g, status, r)
    decreases rank[m]
  {
    if IsModuleReady(g, status, m) {
      r := m;
    } else {
      var k :| 0 <= k < |g.modules[m].prev| && status[g.modules[m].prev[k]] != Completed;
      r := ReadyBelow(g, status, rank, g.modules[m].prev[k]);
    }
  }

  /** While fewer modules have completed than there are, and none is
      running, some module of an acyclic graph is ready: the idle branch
      always finds work. */
  lemma SomeModuleReady(g: Graph, status: seq<Status>, rank: seq<nat>, trace: seq<int>) returns (r: int)
    requires WellFormed(g) && |status| == |g.modules| && TopoRank(g, rank)
    requires NoneRunning(status)
    requires Distinct(trace) && forall i :: 0 <= i < |trace| ==> 0 <= trace[i] < |g.modules|
    requires forall m :: 0 <= m < |g.modules| ==> (status[m] == Completed <==> m in trace)
    requires |trace| < |g.modules|
    ensures 0 <= r < |g.modules| && IsModuleReady(g, status, r)
  {
    DistinctIdsBound(trace, |g.modules|);
    var m :| 0 <= m < |g.modules| && m !in trace;
    r := ReadyBelow(g, status, rank, m);
  }

  // ---------------------------------------------------------------------
  // The loop invariant

  /** Every module that is ready to run is in the queue. */
  ghost predicate Queued(s: State) {
    Sized(s) && forall m :: 0 <= m < |s.app.modules| && IsModuleReady(s.app, s.status, m) ==> m in s.ready
  }

  /** The completion times recorded so far: exactly the executed modules
      have one, they never decrease along the execution order, none is
      later than the clock, every module ran after all its predecessors and
      finished at least its own load after each of them, and once every
      module has run the clock stands at the last completion. */
  ghost predicate Timed(g: Graph, finish: map<int, real>, clock: real, trace: seq<int>) {
    TimedKeys(g, finish, trace) && TimedOrder(finish, clock, trace, |g.modules|) && TimedPreds(g, finish, trace)
  }

  /** Exactly the executed modules have a completion time. */
  ghost predicate TimedKeys(g: Graph, finish: map<int, real>, trace: seq<int>) {
    && (forall i :: 0 <= i < |trace| ==> 0 <= trace[i] < |g.modules|)
    && (forall x :: x in finish <==> x in trace)
  }

  /** Completion times never decrease along the execution order and never
      pass the clock; once all n modules have run, the last one completed
      at the clock. */
  ghost predicate TimedOrder(finish: map<int, real>, clock: real, trace: seq<int>, n: nat) {
    && (forall i :: 0 <= i < |trace| ==> trace[i] in finish)
    && (forall i, j :: 0 <= i < j < |trace| ==> finish[trace[i]] <= finish[trace[j]])
    && (forall i :: 0 <= i < |trace| ==> finish[trace[i]] <= clock)
    && (0 < |trace| == n ==> finish[trace[|trace| - 1]] == clock)
  }

  /** Each executed module ran after all of its predecessors and completed
      at least its own load after each of them. */
  ghost predicate TimedPreds(g: Graph, finish: map<int, real>, trace: seq<int>) {
    && (forall i :: 0 <= i < |trace| ==> 0 <= trace[i] < |g.modules| && trace[i] in finish)
    && (forall i, k :: 0 <= i < |trace| && 0 <= k < |g.modules[trace[i]].prev| ==>
          && g.modules[trace[i]].prev[k] in trace[..i]
          && g.modules[trace[i]].prev[k] in finish
          && finish[g.modules[trace[i]].prev[k]] + g.modules[trace[i]].load <= finish[trace[i]])
  }

  /** The statuses agree with the execution order: exactly the executed
      modules are completed, each was executed once, and nothing is
      running. */
  ghost predicate Traced(s: State, trace: seq<int>) {
    && |s.status| == |s.app.modules|
    && NoneRunning(s.status)
    && Distinct(trace)
    && (forall i :: 0 <= i < |trace| ==> 0 <= trace[i] < |s.app.modules|)
    && (forall m :: 0 <= m < |s.app.modules| ==> (s.status[m] == Completed <==> m in trace))
  }

  /** Every queued module names a module whose predecessors have completed. */
  ghost predicate QueueSound(s: State) {
    && |s.status| == |s.app.modules|
    && forall k :: 0 <= k < |s.ready| ==>
         0 <= s.ready[k] < |s.app.modules| &&
         forall j :: 0 <= j < |s.app.modules[s.ready[k]].prev| ==>
           0 <= s.app.modules[s.ready[k]].prev[j] < |s.status| &&
           s.status[s.app.modules[s.ready[k]].prev[j]] == Completed
  }

  /** What the execution loop keeps, against the state s0 it started from,
      with `idle` counting the idle steps taken so far. */
  ghost predicate Run(s0: State, s: State, clock: real, trace: seq<int>, idle: nat) {
    && s.app == s0.app && Consistent(s) && |s.agents| == |s0.agents|
    && (forall m :: 0 <= m < |s.app.modules| ==> m in s.owner)
    && Traced(s, trace)
    && QueueSound(s)
    && Timed(s.app, s.finish, clock, trace)
    && clock == SumLoads(s.app.modules, trace) + idle as real * 0.1
    && (|s.app.modules| == 0 ==> clock == 0.0)
    && (Mirrored(s0.app) && Queued(s0) ==> Queued(s) && idle == 0)
  }

  /** 0 while some queued module is still waiting to run, 1 otherwise. */
  ghost function Waiting(s: State): nat {
    if exists k :: 0 <= k < |s.ready| && 0 <= s.ready[k] < |s.status| && s.status[s.ready[k]] == NotStarted then 0 else 1
  }

  // ---------------------------------------------------------------------
  // One executed module

  /** The pop-and-run step for the queue head m on agent a, starting at
      `start`: m completes, its load is released from a, and its successors
      that became ready are queued behind the rest of the queue. */
  function Execute(s: State, m: int, a: int, start: real): State
    requires Sized(s) && s.ready != [] && s.ready[0] == m && 0 <= m < |s.app.modules| && 0 <= a < |s.agents|
  {
    var c := Complete(s.(ready := s.ready[1..]), m, a, start);
    c.(ready := c.ready + ReadyAmong(c.app, c.status, c.app.modules[m].next))
  }

  lemma IdleQueueSound(s: State, q: seq<int>)
    requires Sized(s) && q == ReadyAmong(s.app, s.status, Ids(|s.app.modules|))
    ensures QueueSound(s.(ready := q))
  {
  }

  /** t is s after the pop-and-run step for the queue head m starting at
      `start`: m is completed at start + load, the rest of the queue is
      followed by m's successors that became ready, and the graph and
      module_to_agent are untouched. */
  ghost predicate Stepped(s: State, m: int, start: real, t: State) {
    && Sized(s) && 0 <= m < |s.app.modules| && s.ready != [] && s.ready[0] == m
    && t.app == s.app && t.owner == s.owner && |t.agents| == |s.agents|
    && t.status == s.status[m := Completed]
    && t.finish == s.finish[m := start + s.app.modules[m].load]
    && t.ready == s.ready[1..] + ReadyAmong(s.app, t.status, s.app.modules[m].next)
  }

  lemma ExecStepped(s: State, m: int, a: int, start: real)
    requires Sized(s) && s.ready != [] && s.ready[0] == m && 0 <= m < |s.app.modules| && 0 <= a < |s.agents|
    ensures Stepped(s, m, start, Execute(s, m, a, start))
  {
  }

  /** Running the queue head keeps the bookkeeping invariant. */
  lemma ExecConsistent(s: State, m: int, a: int, start: real)
    requires Consistent(s) && s.ready != [] && s.ready[0] == m && 0 <= m < |s.app.modules|
    requires m in s.owner && s.owner[m] == a && s.status[m] != Completed
    ensures 0 <= a < |s.agents|
    ensures Consistent(Execute(s, m, a, start))
  {
    var p := s.(ready := s.ready[1..]);
    ConsistentFrame(s, p);
    CompleteConsistent(p, m, a, start);
    var c := Complete(p, m, a, start);
    ConsistentFrame(c, Execute(s, m, a, start));
  }

  /** Running a waiting module appends it to the execution order. */
  lemma ExecTraced(s: State, trace: seq<int>, m: int, t: State)
    requires Traced(s, trace) && 0 <= m < |s.app.modules| && s.status[m] == NotStarted
    requires t.app == s.app && t.status == s.status[m := Completed]
    ensures Traced(t, trace + [m])
  {
    var tr := trace + [m];
    assert m !in trace;
    forall i, j | 0 <= i < j < |tr|
      ensures tr[i] != tr[j]
    {
      if j < |trace| {
        assert tr[i] == trace[i] && tr[j] == trace[j];
      } else {
        assert tr[i] == trace[i];
      }
    }
  }

  /** Completing the queue head keeps every queued module's predecessors
      completed, and queues only ready successors. */
  lemma ExecQueueSound(s: State, m: int, start: real, t: State)
    requires Stepped(s, m, start, t) && QueueSound(s)
    ensures QueueSound(t)
  {
    var rest := s.ready[1..];
    var pushed := ReadyAmong(t.app, t.status, t.app.modules[m].next);
    forall k | 0 <= k < |t.ready|
      ensures 0 <= t.ready[k] < |t.app.modules|
      ensures forall j :: 0 <= j < |t.app.modules[t.ready[k]].prev| ==>
        0 <= t.app.modules[t.ready[k]].prev[j] < |t.status| &&
        t.status[t.app.modules[t.ready[k]].prev[j]] == Completed
    {
      if k < |rest| {
        assert t.ready[k] == s.ready[k + 1];
      } else {
        assert t.ready[k] == pushed[k - |rest|];
      }
    }
  }

  /** Running a waiting module whose predecessors have all completed, from
      `clock` on, records its completion at clock + load, which becomes the
      new clock. */
  lemma ExecTimed(g: Graph, finish: map<int, real>, after: map<int, real>, clock: real, trace: seq<int>, m: int)
    requires WellFormed(g) && Timed(g, finish, clock, trace)
    requires 0 <= m < |g.modules| && m !in trace
    requires forall j :: 0 <= j < |g.modules[m].prev| ==> g.modules[m].prev[j] in trace
    requires after == finish[m := clock + g.modules[m].load]
    ensures Timed(g, after, clock + g.modules[m].load, trace + [m])
  {
    ExecOrder(finish, clock, trace, |g.modules|, m, g.modules[m].load);
    ExecPreds(g, finish, clock, trace, m);
  }

  lemma ExecOrder(finish: map<int, real>, clock: real, trace: seq<int>, n: nat, m: int, load: real)
    requires TimedOrder(finish, clock, trace, n) && m !in trace && load >= 0.0
    ensures TimedOrder(finish[m := clock + load], clock + load, trace + [m], n)
  {
    var tr := trace + [m];
    var f := finish[m := clock + load];
    assert forall i :: 0 <= i < |trace| ==> tr[i] == trace[i] && f[tr[i]] == finish[trace[i]];
  }

  lemma ExecPreds(g: Graph, finish: map<int, real>, clock: real, trace: seq<int>, m: int)
    requires TimedPreds(g, finish, trace)
    requires forall i :: 0 <= i < |trace| ==> trace[i] in finish && finish[trace[i]] <= clock
    requires 0 <= m < |g.modules| && m !in trace
    requires forall j :: 0 <= j < |g.modules[m].prev| ==> g.modules[m].prev[j] in trace
    ensures TimedPreds(g, finish[m := clock + g.modules[m].load], trace + [m])
  {
    var f := finish[m := clock + g.modules[m].load];
    var tr := trace + [m];
    assert forall i :: 0 <= i < |trace| ==> tr[i] == trace[i] && trace[i] != m;
    forall i, k | 0 <= i < |tr| && 0 <= k < |g.modules[tr[i]].prev|
      ensures g.modules[tr[i]].prev[k] in tr[..i]
      ensures g.modules[tr[i]].prev[k] in f
      ensures f[g.modules[tr[i]].prev[k]] + g.modules[tr[i]].load <= f[tr[i]]
    {
      var p := g.modules[tr[i]].prev[k];
      if i < |trace| {
        assert tr[..i] == trace[..i];
        assert p in trace;
      } else {
        assert tr[..i] == trace;
        var j :| 0 <= j < |trace| && trace[j] == p;
      }
    }
  }

  /** A waiting module appended to the order adds its load to the sum. */
  lemma ExecClock(ms: seq<Module>, trace: seq<int>, m: int, clock: real, idle: nat)
    requires forall i :: 0 <= i < |trace| ==> 0 <= trace[i] < |ms|
    requires 0 <= m < |ms|
    requires clock == SumLoads(ms, trace) + idle as real * 0.1
    ensures forall i :: 0 <= i < |trace + [m]| ==> 0 <= (trace + [m])[i] < |ms|
    ensures clock + ms[m].load == SumLoads(ms, trace + [m]) + idle as real * 0.1
  {
    SumLoadsAppend(ms, trace, [m]);
    assert SumLoads(ms, [m]) == ms[m].load + SumLoads(ms, []);
  }

  /** With a mirrored graph, every module that running m makes ready is a
      successor of m and is queued behind the rest of the queue. */
  lemma ExecQueued(s: State, m: int, start: real, t: State)
    requires Stepped(s, m, start, t) && Queued(s) && Mirrored(s.app)
    ensures Queued(t)
  {
    var g := s.app;
    forall x | 0 <= x < |g.modules| && IsModuleReady(g, t.status, x)
      ensures x in t.ready
    {
      if IsModuleReady(g, s.status, x) {
        assert x in s.ready && x != m;
        var k :| 0 <= k < |s.ready| && s.ready[k] == x;
        assert t.ready[k - 1] == x;
      } else {
        var j :| 0 <= j < |g.modules[x].prev| && s.status[g.modules[x].prev[j]] != Completed;
        assert g.modules[x].prev[j] == m;
        assert multiset(g.modules[x].prev)[m] > 0;
        assert multiset(g.modules[m].next)[x] > 0;
        var i :| 0 <= i < |g.modules[m].next| && g.modules[m].next[i] == x;
        var pushed := ReadyAmong(g, t.status, g.modules[m].next);
        assert x in pushed;
      }
    }
  }

  lemma EndClock(ms: seq<Module>, trace: seq<int>, clock: real, idle: nat)
    requires Distinct(trace) && CoversIds(trace, |ms|) && |trace| == |ms|
    requires clock == SumLoads(ms, trace) + idle as real * 0.1
    ensures clock >= SumLoads(ms, Ids(|ms|))
    ensures idle == 0 ==> clock == SumLoads(ms, Ids(|ms|))
  {
    IdsFromDistinct(trace, |ms|);
    SumLoadsPermutation(ms, trace, Ids(|ms|));
  }

  lemma EndFinish(g: Graph, finish: map<int, real>, clock: real, trace: seq<int>)
    requires TimedKeys(g, finish, trace) && TimedOrder(finish, clock, trace, |g.modules|)
    ensures forall x :: x in finish ==> finish[x] <= clock
  {
    forall x | x in finish
      ensures finish[x] <= clock
    {
      var k :| 0 <= k < |trace| && trace[k] == x;
    }
  }
}
