/** The load balancer's state and its bookkeeping operations: module
    assignment, the least-loaded search, module completion, the readiness
    test and the initial greedy placement. Rebalancing lives in module
    Rebalance and the execution loop in module Execution. */
module Balancer {
  import opened Indices
  import opened AppGraph
  import opened AgentGraph

  /** module_status: 0 = not started, 1 = running, 2 = done. */
  datatype Status = NotStarted | Running | Completed

  /** Everything the balancer owns: the application graph (with its start and
      end lists computed), the agents, module_to_agent, module_status
      (indexed by module id), the FIFO ready queue (front at index 0) and
      module_completion_time. */
  datatype State = State(
    app: Graph,
    agents: seq<Agent>,
    owner: map<int, int>,
    status: seq<Status>,
    ready: seq<int>,
    finish: map<int, real>)

  /** The graph is well formed and there is one status per module. */
  ghost predicate Sized(s: State) {
    WellFormed(s.app) && |s.status| == |s.app.modules|
  }

  // ---------------------------------------------------------------------
  // Sums of loads

  /** The sum of the agents' current loads. */
  function TotalLoad(agents: seq<Agent>): real
  {
    if agents == [] then 0.0 else TotalLoad(agents[..|agents| - 1]) + agents[|agents| - 1].load
  }

  /** Replacing one agent changes the total by the difference of its loads. */
  lemma {:induction false} TotalLoadUpdate(agents: seq<Agent>, i: int, x: Agent)
    requires 0 <= i < |agents|
    ensures TotalLoad(agents[i := x]) == TotalLoad(agents) - agents[i].load + x.load
    decreases |agents|
  {
    var n := |agents|;
    var u := agents[i := x];
    if i == n - 1 {
      assert u[..n - 1] == agents[..n - 1];
    } else {
      assert u[..n - 1] == agents[..n - 1][i := x];
      TotalLoadUpdate(agents[..n - 1], i, x);
    }
  }

  /** The sum of the loads of the listed modules. */
  function SumLoads(ms: seq<Module>, xs: seq<int>): real
    requires forall k :: 0 <= k < |xs| ==> 0 <= xs[k] < |ms|
  {
    if xs == [] then 0.0 else ms[xs[0]].load + SumLoads(ms, xs[1..])
  }

  /** The sum of every module's load. */
  function TotalModuleLoad(g: Graph): real
  {
    SumLoads(g.modules, Ids(|g.modules|))
  }

  lemma {:induction false} SumLoadsAppend(ms: seq<Module>, xs: seq<int>, ys: seq<int>)
    requires forall k :: 0 <= k < |xs| ==> 0 <= xs[k] < |ms|
    requires forall k :: 0 <= k < |ys| ==> 0 <= ys[k] < |ms|
    ensures SumLoads(ms, xs + ys) == SumLoads(ms, xs) + SumLoads(ms, ys)
    decreases |xs|
  {
    if xs == [] {
      assert xs + ys == ys;
    } else {
      assert (xs + ys)[0] == xs[0];
      assert (xs + ys)[1..] == xs[1..] + ys;
      SumLoadsAppend(ms, xs[1..], ys);
    }
  }

  /** Listing the same modules in another order gives the same sum. */
  lemma {:induction false} SumLoadsPermutation(ms: seq<Module>, xs: seq<int>, ys: seq<int>)
    requires forall k :: 0 <= k < |xs| ==> 0 <= xs[k] < |ms|
    requires multiset(xs) == multiset(ys)
    ensures forall k :: 0 <= k < |ys| ==> 0 <= ys[k] < |ms|
    ensures SumLoads(ms, xs) == SumLoads(ms, ys)
    decreases |xs|
  {
    SameRange(ms, xs, ys);
    if xs == [] {
      assert |ys| == |multiset(ys)| == 0;
    } else {
      var x := xs[0];
      assert x in multiset(ys);
      var i :| 0 <= i < |ys| && ys[i] == x;
      var rest := ys[..i] + ys[i + 1..];
      DropMatching(xs, ys, i);
      SameRange(ms, ys, rest);
      SumLoadsPermutation(ms, xs[1..], rest);
      SumLoadsRemove(ms, ys, i);
    }
  }

  /** Dropping the first entry of xs and a matching entry of ys keeps
      the two lists permutations of each other. */
  lemma DropMatching(xs: seq<int>, ys: seq<int>, i: int)
    requires multiset(xs) == multiset(ys) && |xs| > 0
    requires 0 <= i < |ys| && ys[i] == xs[0]
    ensures multiset(xs[1..]) == multiset(ys[..i] + ys[i + 1..])
    ensures multiset(ys[..i] + ys[i + 1..]) <= multiset(ys)
  {
    var rest := ys[..i] + ys[i + 1..];
    assert xs == [xs[0]] + xs[1..];
    assert ys == ys[..i] + [ys[i]] + ys[i + 1..];
    forall z
      ensures multiset(xs[1..])[z] == multiset(rest)[z]
    {
      assert multiset(xs)[z] == multiset([xs[0]])[z] + multiset(xs[1..])[z];
      assert multiset(ys)[z] == multiset(ys[..i])[z] + multiset([ys[i]])[z] + multiset(ys[i + 1..])[z];
    }
    assert multiset(xs[1..]) == multiset(rest);
  }

  lemma SameRange(ms: seq<Module>, xs: seq<int>, ys: seq<int>)
    requires forall k :: 0 <= k < |xs| ==> 0 <= xs[k] < |ms|
    requires multiset(ys) <= multiset(xs)
    ensures forall k :: 0 <= k < |ys| ==> 0 <= ys[k] < |ms|
  {
    forall k | 0 <= k < |ys|
      ensures 0 <= ys[k] < |ms|
    {
      assert ys[k] in multiset(ys);
      assert ys[k] in multiset(xs);
    }
  }

  /** The sum splits into the entry at position i and the rest. */
  lemma SumLoadsRemove(ms: seq<Module>, ys: seq<int>, i: int)
    requires forall k :: 0 <= k < |ys| ==> 0 <= ys[k] < |ms|
    requires 0 <= i < |ys|
    ensures var rest := ys[..i] + ys[i + 1..];
      && (forall k :: 0 <= k < |rest| ==> 0 <= rest[k] < |ms|)
      && SumLoads(ms, ys) == ms[ys[i]].load + SumLoads(ms, rest)
  {
    var tail := [ys[i]] + ys[i + 1..];
    assert ys == ys[..i] + tail;
    assert tail[1..] == ys[i + 1..];
    SumLoadsAppend(ms, ys[..i], tail);
    SumLoadsAppend(ms, ys[..i], ys[i + 1..]);
  }

  // ---------------------------------------------------------------------
  // Pending load: what an agent's current_load is supposed to be

  /** Module m's contribution to agent a's pending load: its load while it is
      assigned to a and not completed. */
  function Term(s: State, a: int, m: int): real
    requires 0 <= m < |s.app.modules| && |s.status| == |s.app.modules|
  {
    if m in s.owner && s.owner[m] == a && s.status[m] != Completed then s.app.modules[m].load else 0.0
  }

  /** The contributions of modules 0 .. k-1 to agent a. */
  function PendingUpTo(s: State, a: int, k: nat): real
    requires k <= |s.app.modules| && |s.status| == |s.app.modules|
  {
    if k == 0 then 0.0 else PendingUpTo(s, a, k - 1) + Term(s, a, k - 1)
  }

  /** The sum of the loads of the not-completed modules assigned to agent a. */
  function PendingLoad(s: State, a: int): real
    requires |s.status| == |s.app.modules|
  {
    PendingUpTo(s, a, |s.app.modules|)
  }

  /** Two states whose contributions to agent a differ at most at module m
      have pending loads that differ by exactly that contribution. */
  lemma {:induction false} PendingFrame(s: State, t: State, a: int, m: int, k: nat)
    requires |s.status| == |s.app.modules| && t.app.modules == s.app.modules && |t.status| == |t.app.modules|
    requires k <= |s.app.modules|
    requires forall i :: 0 <= i < |s.app.modules| && i != m ==> Term(s, a, i) == Term(t, a, i)
    ensures PendingUpTo(t, a, k) == PendingUpTo(s, a, k) + (if 0 <= m < k then Term(t, a, m) - Term(s, a, m) else 0.0)
  {
    if k > 0 {
      PendingFrame(s, t, a, m, k - 1);
    }
  }

  /** The bookkeeping invariant reads only the graph, the agents,
      module_to_agent and the statuses; the queue and the completion times
      may change freely. */
  lemma ConsistentFrame(s: State, t: State)
    requires Consistent(s)
    requires t.app == s.app && t.agents == s.agents && t.owner == s.owner && t.status == s.status
    ensures Consistent(t)
  {
    forall a | 0 <= a < |t.agents|
      ensures t.agents[a].load == PendingLoad(t, a)
    {
      PendingFrame(s, t, a, -1, |s.app.modules|);
    }
  }

  /** With no module pending, every pending load is zero. */
  lemma {:induction false} PendingNone(s: State, a: int, k: nat)
    requires |s.status| == |s.app.modules| && k <= |s.app.modules|
    requires forall i :: 0 <= i < |s.app.modules| ==> s.status[i] == Completed
    ensures PendingUpTo(s, a, k) == 0.0
  {
    if k > 0 {
      PendingNone(s, a, k - 1);
    }
  }

  /** Pending loads are never negative. */
  lemma {:induction false} PendingNonNegative(s: State, a: int, k: nat)
    requires Sized(s) && k <= |s.app.modules|
    ensures PendingUpTo(s, a, k) >= 0.0
  {
    if k > 0 {
      PendingNonNegative(s, a, k - 1);
    }
  }

  // ---------------------------------------------------------------------
  // The bookkeeping invariant

  /** Every module_to_agent entry names a module and an agent; an agent's
      list holds exactly the modules mapped to it, each once. */
  ghost predicate ListsMatchOwner(s: State) {
    && (forall m :: m in s.owner ==> 0 <= m < |s.app.modules| && 0 <= s.owner[m] < |s.agents|)
    && (forall a, k :: 0 <= a < |s.agents| && 0 <= k < |s.agents[a].assignedModules| ==>
          s.agents[a].assignedModules[k] in s.owner && s.owner[s.agents[a].assignedModules[k]] == a)
    && (forall m :: m in s.owner ==> m in s.agents[s.owner[m]].assignedModules)
    && (forall a :: 0 <= a < |s.agents| ==> Distinct(s.agents[a].assignedModules))
  }

  /** Every agent's current_load is the sum of the loads of its assigned,
      not yet completed modules. */
  ghost predicate LoadsMatch(s: State)
    requires |s.status| == |s.app.modules|
  {
    forall a :: 0 <= a < |s.agents| ==> s.agents[a].load == PendingLoad(s, a)
  }

  ghost predicate Consistent(s: State) {
    Sized(s) && ListsMatchOwner(s) && LoadsMatch(s)
  }

  // ---------------------------------------------------------------------
  // Assignment, removal, move and completion

  /** assignModuleToAgent: maps m to a, appends m to a's list and adds m's
      load to a's load. */
  function Assign(s: State, m: int, a: int): (r: State)
    requires 0 <= m < |s.app.modules| && 0 <= a < |s.agents|
    ensures r.owner == s.owner[m := a]
    ensures |r.agents| == |s.agents|
    ensures r.agents[a].assignedModules == s.agents[a].assignedModules + [m]
    ensures r.agents[a].load == s.agents[a].load + s.app.modules[m].load
    ensures r.agents[a].id == s.agents[a].id && r.agents[a].neighbors == s.agents[a].neighbors
    ensures forall b :: 0 <= b < |s.agents| && b != a ==> r.agents[b] == s.agents[b]
    ensures r.app == s.app && r.status == s.status && r.ready == s.ready && r.finish == s.finish
    ensures TotalLoad(r.agents) == TotalLoad(s.agents) + s.app.modules[m].load
  {
    var ag := s.agents[a];
    var x := ag.(assignedModules := ag.assignedModules + [m], load := ag.load + s.app.modules[m].load);
    TotalLoadUpdate(s.agents, a, x);
    s.(owner := s.owner[m := a], agents := s.agents[a := x])
  }

  /** The list with every occurrence of x erased, the rest in order
      (std::remove followed by erase). */
  function Without(xs: seq<int>, x: int): (r: seq<int>)
    ensures x !in r
    ensures forall y :: y != x ==> multiset(r)[y] == multiset(xs)[y]
    ensures forall y :: y in r ==> y in xs
  {
    if xs == [] then []
    else
      assert xs == [xs[0]] + xs[1..];
      if xs[0] == x then Without(xs[1..], x) else [xs[0]] + Without(xs[1..], x)
  }

  /** Erasing a value keeps a duplicate-free list duplicate-free. */
  lemma WithoutDistinct(xs: seq<int>, x: int)
    requires Distinct(xs)
    ensures Distinct(Without(xs, x))
  {
    var r := Without(xs, x);
    forall i, j | 0 <= i < j < |r|
      ensures r[i] != r[j]
    {
      if r[i] == r[j] {
        RepeatCount(r, i, j);
        assert r[i] in r;
        DistinctCount(xs, r[i]);
      }
    }
  }

  /** The remove-then-assign sequence used by both rebalancing branches:
      erase m from `from`'s list, subtract its load there, then assign it
      to `to`. */
  function Move(s: State, m: int, from: int, to: int): (r: State)
    requires 0 <= m < |s.app.modules| && 0 <= from < |s.agents| && 0 <= to < |s.agents| && from != to
    ensures r.owner == s.owner[m := to]
    ensures |r.agents| == |s.agents|
    ensures r.agents[from].assignedModules == Without(s.agents[from].assignedModules, m)
    ensures r.agents[from].load == s.agents[from].load - s.app.modules[m].load
    ensures r.agents[to].assignedModules == s.agents[to].assignedModules + [m]
    ensures r.agents[to].load == s.agents[to].load + s.app.modules[m].load
    ensures forall b :: 0 <= b < |s.agents| && b != from && b != to ==> r.agents[b] == s.agents[b]
    ensures forall b :: 0 <= b < |s.agents| ==> r.agents[b].id == s.agents[b].id && r.agents[b].neighbors == s.agents[b].neighbors
    ensures r.app == s.app && r.status == s.status && r.ready == s.ready && r.finish == s.finish
    ensures TotalLoad(r.agents) == TotalLoad(s.agents)
  {
    var ag := s.agents[from];
    var x := ag.(assignedModules := Without(ag.assignedModules, m), load := ag.load - s.app.modules[m].load);
    TotalLoadUpdate(s.agents, from, x);
    Assign(s.(agents := s.agents[from := x]), m, to)
  }

  /** Executing m on agent a: m becomes completed at time start + load, and
      its load is released from a. */
  function Complete(s: State, m: int, a: int, start: real): (r: State)
    requires 0 <= m < |s.app.modules| && |s.status| == |s.app.modules| && 0 <= a < |s.agents|
    ensures r.status == s.status[m := Completed]
    ensures r.finish == s.finish[m := start + s.app.modules[m].load]
    ensures |r.agents| == |s.agents|
    ensures r.agents[a].load == s.agents[a].load - s.app.modules[m].load
    ensures r.agents[a].assignedModules == s.agents[a].assignedModules
    ensures forall b :: 0 <= b < |s.agents| && b != a ==> r.agents[b] == s.agents[b]
    ensures r.app == s.app && r.owner == s.owner && r.ready == s.ready
  {
    var ag := s.agents[a];
    s.(status := s.status[m := Completed],
       finish := s.finish[m := start + s.app.modules[m].load],
       agents := s.agents[a := ag.(load := ag.load - s.app.modules[m].load)])
  }

  /** Assigning a module that is not yet mapped and not completed keeps the
      bookkeeping invariant. */
  lemma AssignConsistent(s: State, m: int, a: int)
    requires Consistent(s)
    requires 0 <= m < |s.app.modules| && m !in s.owner && s.status[m] != Completed
    requires 0 <= a < |s.agents|
    ensures Consistent(Assign(s, m, a))
  {
    var r := Assign(s, m, a);
    assert m !in s.agents[a].assignedModules;
    assert Distinct(r.agents[a].assignedModules);
    forall b | 0 <= b < |r.agents|
      ensures r.agents[b].load == PendingLoad(r, b)
    {
      PendingFrame(s, r, b, m, |s.app.modules|);
    }
    assert ListsMatchOwner(r) by {
      forall b, k | 0 <= b < |r.agents| && 0 <= k < |r.agents[b].assignedModules|
        ensures r.agents[b].assignedModules[k] in r.owner && r.owner[r.agents[b].assignedModules[k]] == b
      {
        if b == a && k == |s.agents[a].assignedModules| {
        } else {
          assert r.agents[b].assignedModules[k] == s.agents[b].assignedModules[k];
        }
      }
      forall x | x in r.owner
        ensures x in r.agents[r.owner[x]].assignedModules
      {
        if x != m {
          assert x in s.agents[s.owner[x]].assignedModules;
        }
      }
    }
  }

  /** Moving a module that is mapped to `from` and not completed keeps the
      bookkeeping invariant. */
  lemma MoveConsistent(s: State, m: int, from: int, to: int)
    requires Consistent(s)
    requires 0 <= m < |s.app.modules| && m in s.owner && s.owner[m] == from && s.status[m] != Completed
    requires 0 <= from < |s.agents| && 0 <= to < |s.agents| && from != to
    ensures Consistent(Move(s, m, from, to))
  {
    var r := Move(s, m, from, to);
    forall b | 0 <= b < |r.agents|
      ensures r.agents[b].load == PendingLoad(r, b)
    {
      PendingFrame(s, r, b, m, |s.app.modules|);
    }
    MoveLists(s, m, from, to);
  }

  lemma MoveLists(s: State, m: int, from: int, to: int)
    requires Sized(s) && ListsMatchOwner(s)
    requires 0 <= m < |s.app.modules| && m in s.owner && s.owner[m] == from
    requires 0 <= from < |s.agents| && 0 <= to < |s.agents| && from != to
    ensures ListsMatchOwner(Move(s, m, from, to))
  {
    MoveListedOwned(s, m, from, to);
    MoveOwnedListed(s, m, from, to);
    MoveKeepsDistinct(s, m, from, to);
  }

  /** After a move every listed module is mapped to the agent listing it. */
  lemma MoveListedOwned(s: State, m: int, from: int, to: int)
    requires Sized(s) && ListsMatchOwner(s)
    requires 0 <= m < |s.app.modules| && m in s.owner && s.owner[m] == from
    requires 0 <= from < |s.agents| && 0 <= to < |s.agents| && from != to
    ensures var r := Move(s, m, from, to);
      forall b, k :: 0 <= b < |r.agents| && 0 <= k < |r.agents[b].assignedModules| ==>
        r.agents[b].assignedModules[k] in r.owner && r.owner[r.agents[b].assignedModules[k]] == b
  {
    var r := Move(s, m, from, to);
    forall b, k | 0 <= b < |r.agents| && 0 <= k < |r.agents[b].assignedModules|
      ensures r.agents[b].assignedModules[k] in r.owner && r.owner[r.agents[b].assignedModules[k]] == b
    {
      var x := r.agents[b].assignedModules[k];
      if b == from {
        assert x in Without(s.agents[from].assignedModules, m);
        assert x in s.agents[from].assignedModules;
      } else if b == to && k == |s.agents[to].assignedModules| {
      } else {
        assert x == s.agents[b].assignedModules[k];
      }
    }
  }

  /** After a move every mapped module is listed by its agent. */
  lemma MoveOwnedListed(s: State, m: int, from: int, to: int)
    requires Sized(s) && ListsMatchOwner(s)
    requires 0 <= m < |s.app.modules| && m in s.owner && s.owner[m] == from
    requires 0 <= from < |s.agents| && 0 <= to < |s.agents| && from != to
    ensures var r := Move(s, m, from, to);
      forall x :: x in r.owner ==>
        (0 <= x < |r.app.modules| && 0 <= r.owner[x] < |r.agents| && x in r.agents[r.owner[x]].assignedModules)
  {
    var r := Move(s, m, from, to);
    forall x | x in r.owner
      ensures x in r.agents[r.owner[x]].assignedModules
    {
      if x != m {
        assert x in s.agents[s.owner[x]].assignedModules;
        if s.owner[x] == from {
          assert multiset(s.agents[from].assignedModules)[x] > 0;
          assert multiset(r.agents[from].assignedModules)[x] > 0;
        }
      }
    }
  }

  /** A move keeps every list free of repeats. */
  lemma MoveKeepsDistinct(s: State, m: int, from: int, to: int)
    requires Sized(s) && ListsMatchOwner(s)
    requires 0 <= m < |s.app.modules| && m in s.owner && s.owner[m] == from
    requires 0 <= from < |s.agents| && 0 <= to < |s.agents| && from != to
    ensures var r := Move(s, m, from, to);
      forall a :: 0 <= a < |r.agents| ==> Distinct(r.agents[a].assignedModules)
  {
    var r := Move(s, m, from, to);
    WithoutDistinct(s.agents[from].assignedModules, m);
    assert m !in s.agents[to].assignedModules;
    assert Distinct(r.agents[to].assignedModules);
  }

  /** Every listed module names a module of the graph. */
  ghost predicate ListsInRange(s: State) {
    forall a, k :: 0 <= a < |s.agents| && 0 <= k < |s.agents[a].assignedModules| ==>
      0 <= s.agents[a].assignedModules[k] < |s.app.modules|
  }

  lemma OwnedListsInRange(s: State)
    requires ListsMatchOwner(s)
    ensures ListsInRange(s)
  {
  }

  lemma MoveInRange(s: State, m: int, from: int, to: int)
    requires ListsInRange(s)
    requires 0 <= m < |s.app.modules| && 0 <= from < |s.agents| && 0 <= to < |s.agents| && from != to
    ensures ListsInRange(Move(s, m, from, to))
  {
    var r := Move(s, m, from, to);
    forall a, k | 0 <= a < |r.agents| && 0 <= k < |r.agents[a].assignedModules|
      ensures 0 <= r.agents[a].assignedModules[k] < |r.app.modules|
    {
      var x := r.agents[a].assignedModules[k];
      if a == from {
        assert x in Without(s.agents[from].assignedModules, m);
        assert x in s.agents[from].assignedModules;
      } else if a == to && k == |s.agents[to].assignedModules| {
      } else {
        assert x == s.agents[a].assignedModules[k];
      }
    }
  }

  /** Completing a not-yet-completed module on the agent it is mapped to
      keeps the bookkeeping invariant: the released load is exactly the
      load that stops being pending. */
  lemma CompleteConsistent(s: State, m: int, a: int, start: real)
    requires Consistent(s)
    requires 0 <= m < |s.app.modules| && m in s.owner && s.owner[m] == a && s.status[m] != Completed
    ensures Consistent(Complete(s, m, a, start))
  {
    var r := Complete(s, m, a, start);
    forall b | 0 <= b < |r.agents|
      ensures r.agents[b].load == PendingLoad(r, b)
    {
      PendingFrame(s, r, b, m, |s.app.modules|);
    }
    assert ListsMatchOwner(r) by {
      forall b, k | 0 <= b < |r.agents| && 0 <= k < |r.agents[b].assignedModules|
        ensures r.agents[b].assignedModules[k] in r.owner && r.owner[r.agents[b].assignedModules[k]] == b
      {
        assert r.agents[b].assignedModules == s.agents[b].assignedModules;
      }
      forall x | x in r.owner
        ensures x in r.agents[r.owner[x]].assignedModules
      {
        assert r.agents[s.owner[x]].assignedModules == s.agents[s.owner[x]].assignedModules;
      }
    }
  }

  // ---------------------------------------------------------------------
  // findLeastLoadedAgent

  /** findLeastLoadedAgent: the agent with the smallest current load, the
      lowest index among equals (the scan replaces its pick only on a
      strictly smaller load). */
  function FindLeastLoaded(agents: seq<Agent>): (best: int)
    requires |agents| > 0
    ensures 0 <= best < |agents|
    ensures forall j :: 0 <= j < |agents| ==> agents[best].load <= agents[j].load
    ensures forall j :: 0 <= j < best ==> agents[j].load > agents[best].load
  {
    LeastFrom(agents, 1, 0)
  }

  /** The scan from index i on, with `best` the pick among indices below i. */
  function LeastFrom(agents: seq<Agent>, i: int, best: int): (r: int)
    requires 0 <= best < i <= |agents|
    requires forall j :: 0 <= j < i ==> agents[best].load <= agents[j].load
    requires forall j :: 0 <= j < best ==> agents[j].load > agents[best].load
    ensures 0 <= r < |agents|
    ensures forall j :: 0 <= j < |agents| ==> agents[r].load <= agents[j].load
    ensures forall j :: 0 <= j < r ==> agents[j].load > agents[r].load
    decreases |agents| - i
  {
    if i == |agents| then best
    else if agents[i].load < agents[best].load then LeastFrom(agents, i + 1, i)
    else LeastFrom(agents, i + 1, best)
  }

  /** The least-loaded pick is unique: any index with the two properties of
      FindLeastLoaded is the one it returns. */
  lemma LeastLoadedUnique(agents: seq<Agent>, i: int)
    requires 0 <= i < |agents|
    requires forall j :: 0 <= j < |agents| ==> agents[i].load <= agents[j].load
    requires forall j :: 0 <= j < i ==> agents[j].load > agents[i].load
    ensures FindLeastLoaded(agents) == i
  {
  }

  // ---------------------------------------------------------------------
  // isModuleReady

  /** The loop over a module's predecessors, stopping at the first one that
      is not done. */
  function PredsDone(status: seq<Status>, preds: seq<int>): (r: bool)
    requires forall k :: 0 <= k < |preds| ==> 0 <= preds[k] < |status|
    ensures r <==> forall k :: 0 <= k < |preds| ==> status[preds[k]] == Completed
  {
    if preds == [] then true
    else if status[preds[0]] != Completed then false
    else
      assert forall k :: 1 <= k < |preds| ==> preds[1..][k - 1] == preds[k];
      PredsDone(status, preds[1..])
  }

  /** isModuleReady: m has not started and every predecessor is done. */
  function IsModuleReady(g: Graph, status: seq<Status>, m: int): (r: bool)
    requires WellFormed(g) && |status| == |g.modules| && 0 <= m < |g.modules|
    ensures r <==> (status[m] == NotStarted &&
      forall k :: 0 <= k < |g.modules[m].prev| ==> status[g.modules[m].prev[k]] == Completed)
  {
    PredsDone(status, g.modules[m].prev) && status[m] == NotStarted
  }

  /** The ready modules among `ids`, in the order of `ids`: what the loops
      that push newly ready modules onto the queue append. */
  function ReadyAmong(g: Graph, status: seq<Status>, ids: seq<int>): (r: seq<int>)
    requires WellFormed(g) && |status| == |g.modules|
    requires forall k :: 0 <= k < |ids| ==> 0 <= ids[k] < |g.modules|
    ensures forall k :: 0 <= k < |r| ==> r[k] in ids && 0 <= r[k] < |g.modules| && IsModuleReady(g, status, r[k])
    ensures forall k :: 0 <= k < |ids| && IsModuleReady(g, status, ids[k]) ==> ids[k] in r
  {
    if ids == [] then []
    else
      assert forall k :: 1 <= k < |ids| ==> ids[1..][k - 1] == ids[k];
      var rest := ReadyAmong(g, status, ids[1..]);
      if IsModuleReady(g, status, ids[0]) then [ids[0]] + rest else rest
  }

  // ---------------------------------------------------------------------
  // initializeGraphs and initialDistribution

  /** initializeGraphs: takes both graphs, computes the start and end
      modules and marks every module not started; the other tables start
      empty. */
  function InitializeGraphs(app: Graph, agents: seq<Agent>): (s: State)
    ensures s.app == FindStartEndModules(app) && s.agents == agents
    ensures |s.status| == |app.modules|
    ensures forall m :: 0 <= m < |s.status| ==> s.status[m] == NotStarted
    ensures s.owner == map[] && s.ready == [] && s.finish == map[]
  {
    State(FindStartEndModules(app), agents, map[], seq(|app.modules|, _ => NotStarted), [], map[])
  }

  /** Orders are compared by key and then by the id itself. */
  predicate Precedes(key: int -> real, x: int, y: int) {
    key(x) < key(y) || (key(x) == key(y) && x <= y)
  }

  ghost predicate SortedBy(key: int -> real, xs: seq<int>) {
    forall i, j :: 0 <= i < j < |xs| ==> Precedes(key, xs[i], xs[j])
  }

  function Insert(key: int -> real, x: int, xs: seq<int>): (r: seq<int>)
    requires SortedBy(key, xs)
    ensures multiset(r) == multiset(xs) + multiset{x}
    ensures SortedBy(key, r)
    decreases |xs|
  {
    if xs == [] then [x]
    else if Precedes(key, x, xs[0]) then
      InsertFront(key, x, xs);
      [x] + xs
    else
      assert xs == [xs[0]] + xs[1..];
      assert SortedBy(key, xs[1..]) by {
        forall i, j | 0 <= i < j < |xs[1..]|
          ensures Precedes(key, xs[1..][i], xs[1..][j])
        {
          assert xs[1..][i] == xs[i + 1] && xs[1..][j] == xs[j + 1];
        }
      }
      var rest := Insert(key, x, xs[1..]);
      InsertBehind(key, x, xs, rest);
      [xs[0]] + rest
  }

  lemma InsertFront(key: int -> real, x: int, xs: seq<int>)
    requires SortedBy(key, xs) && xs != [] && Precedes(key, x, xs[0])
    ensures SortedBy(key, [x] + xs)
  {
    var r := [x] + xs;
    forall i, j | 0 <= i < j < |r|
      ensures Precedes(key, r[i], r[j])
    {
      if i == 0 {
        assert r[j] == xs[j - 1];
        if j > 1 {
          assert Precedes(key, xs[0], xs[j - 1]);
        }
      } else {
        assert r[i] == xs[i - 1] && r[j] == xs[j - 1];
      }
    }
  }

  lemma InsertBehind(key: int -> real, x: int, xs: seq<int>, rest: seq<int>)
    requires SortedBy(key, xs) && xs != [] && !Precedes(key, x, xs[0])
    requires multiset(rest) == multiset(xs[1..]) + multiset{x} && SortedBy(key, rest)
    ensures SortedBy(key, [xs[0]] + rest)
  {
    var r := [xs[0]] + rest;
    forall i, j | 0 <= i < j < |r|
      ensures Precedes(key, r[i], r[j])
    {
      if i == 0 {
        assert r[j] == rest[j - 1];
        assert rest[j - 1] in multiset(rest);
        if rest[j - 1] != x {
          assert rest[j - 1] in multiset(xs[1..]);
          var k :| 0 <= k < |xs[1..]| && xs[1..][k] == rest[j - 1];
          assert xs[k + 1] == rest[j - 1];
        }
      } else {
        assert r[i] == rest[i - 1] && r[j] == rest[j - 1];
      }
    }
  }

  /** Insertion sort by key, ties by id. */
  function SortBy(key: int -> real, xs: seq<int>): (r: seq<int>)
    ensures multiset(r) == multiset(xs)
    ensures SortedBy(key, r)
  {
    if xs == [] then []
    else
      assert xs == [xs[0]] + xs[1..];
      Insert(key, xs[0], SortBy(key, xs[1..]))
  }

  /** A legal placement order: every module exactly once, by non-decreasing
      predecessor count. std::sort is not stable, so any order of modules
      with equal counts is admitted. */
  ghost predicate IsPlacementOrder(ms: seq<Module>, order: seq<int>) {
    && multiset(order) == multiset(Ids(|ms|))
    && (forall i, j :: 0 <= i < j < |order| && 0 <= order[i] < |ms| && 0 <= order[j] < |ms| ==>
          |ms[order[i]].prev| <= |ms[order[j]].prev|)
  }

  /** One placement order: modules by predecessor count, ties by id. */
  function SortByPredecessors(g: Graph): (order: seq<int>)
    ensures IsPlacementOrder(g.modules, order)
  {
    var key := (i: int) => if 0 <= i < |g.modules| then |g.modules[i].prev| as real else 0.0;
    SortBy(key, Ids(|g.modules|))
  }

  /** The placement loop: each module in turn goes to the least-loaded agent. */
  function PlaceAll(s: State, order: seq<int>): (r: State)
    requires forall k :: 0 <= k < |order| ==> 0 <= order[k] < |s.app.modules|
    requires |s.agents| > 0 || order == []
    ensures r.app == s.app && r.status == s.status && r.ready == s.ready && r.finish == s.finish
    ensures |r.agents| == |s.agents|
    ensures forall m :: m in r.owner <==> m in s.owner || m in order
    ensures TotalLoad(r.agents) == TotalLoad(s.agents) + SumLoads(s.app.modules, order)
    decreases |order|
  {
    if order == [] then s
    else
      assert order == [order[0]] + order[1..];
      PlaceAll(Assign(s, order[0], FindLeastLoaded(s.agents)), order[1..])
  }

  /** Placing not-yet-mapped, not-completed modules, each once, keeps the
      bookkeeping invariant. */
  lemma {:induction false} PlaceAllConsistent(s: State, order: seq<int>)
    requires Consistent(s)
    requires forall k :: 0 <= k < |order| ==> 0 <= order[k] < |s.app.modules|
    requires |s.agents| > 0 || order == []
    requires Distinct(order)
    requires forall k :: 0 <= k < |order| ==> order[k] !in s.owner && s.status[order[k]] != Completed
    ensures Consistent(PlaceAll(s, order))
    decreases |order|
  {
    if order != [] {
      var t := Assign(s, order[0], FindLeastLoaded(s.agents));
      AssignConsistent(s, order[0], FindLeastLoaded(s.agents));
      forall k | 0 <= k < |order[1..]|
        ensures order[1..][k] !in t.owner
      {
        assert order[1..][k] == order[k + 1] != order[0];
      }
      assert Distinct(order[1..]) by {
        forall i, j | 0 <= i < j < |order[1..]|
          ensures order[1..][i] != order[1..][j]
        {
          assert order[1..][i] == order[i + 1] && order[1..][j] == order[j + 1];
        }
      }
      PlaceAllConsistent(t, order[1..]);
    }
  }

  /** A module the placement loop does not reach keeps its mapping. */
  lemma {:induction false} PlaceAllKeeps(s: State, order: seq<int>, x: int)
    requires forall k :: 0 <= k < |order| ==> 0 <= order[k] < |s.app.modules|
    requires |s.agents| > 0 || order == []
    requires x !in order && x in s.owner
    ensures x in PlaceAll(s, order).owner && PlaceAll(s, order).owner[x] == s.owner[x]
    decreases |order|
  {
    if order != [] {
      var t := Assign(s, order[0], FindLeastLoaded(s.agents));
      assert x != order[0];
      assert x !in order[1..] by {
        forall k | 0 <= k < |order[1..]|
          ensures order[1..][k] != x
        {
          assert order[1..][k] == order[k + 1];
        }
      }
      PlaceAllKeeps(t, order[1..], x);
    }
  }

  /** Placing a non-empty prefix places its head first. */
  lemma PlaceAllPrefix(s: State, order: seq<int>, k: int)
    requires forall i :: 0 <= i < |order| ==> 0 <= order[i] < |s.app.modules|
    requires |s.agents| > 0 && 0 < k <= |order|
    ensures PlaceAll(s, order[..k]) == PlaceAll(Assign(s, order[0], FindLeastLoaded(s.agents)), order[1..][..k - 1])
  {
    var pre := order[..k];
    assert pre[0] == order[0] && pre[1..] == order[1..][..k - 1];
  }

  /** The tail of a list without repeats has no repeats and lacks the head. */
  lemma DistinctTail(xs: seq<int>)
    requires Distinct(xs) && xs != []
    ensures Distinct(xs[1..]) && xs[0] !in xs[1..]
  {
    forall i, j | 0 <= i < j < |xs[1..]|
      ensures xs[1..][i] != xs[1..][j]
    {
      assert xs[1..][i] == xs[i + 1] && xs[1..][j] == xs[j + 1];
    }
    forall i | 0 <= i < |xs[1..]|
      ensures xs[1..][i] != xs[0]
    {
      assert xs[1..][i] == xs[i + 1];
    }
  }

  /** Greedy placement: the k-th module of the order goes to the agent that
      is least loaded (the first such) once the modules before it have been
      placed. */
  lemma {:induction false} PlaceAllPicksLeast(s: State, order: seq<int>, k: int)
    requires forall i :: 0 <= i < |order| ==> 0 <= order[i] < |s.app.modules|
    requires |s.agents| > 0 || order == []
    requires Distinct(order) && 0 <= k < |order|
    ensures order[k] in PlaceAll(s, order).owner
    ensures PlaceAll(s, order).owner[order[k]] == FindLeastLoaded(PlaceAll(s, order[..k]).agents)
    decreases |order|
  {
    var t := Assign(s, order[0], FindLeastLoaded(s.agents));
    DistinctTail(order);
    if k == 0 {
      assert order[..0] == [];
      PlaceAllKeeps(t, order[1..], order[0]);
    } else {
      PlaceAllPicksLeast(t, order[1..], k - 1);
      PlaceAllPrefix(s, order, k);
      assert order[1..][k - 1] == order[k];
    }
  }

  /** initialDistribution: clears module_to_agent and the completion times,
      places every module in `order` on the least-loaded agent, then pushes
      the start modules onto the ready queue. */
  function InitialDistribution(s: State, order: seq<int>): (r: State)
    requires IsPlacementOrder(s.app.modules, order)
    requires |s.agents| > 0 || |s.app.modules| == 0
    ensures r.app == s.app && r.status == s.status && r.finish == map[]
    ensures r.ready == s.ready + s.app.startModules
    ensures |r.agents| == |s.agents|
    ensures forall m :: m in r.owner <==> 0 <= m < |s.app.modules|
    ensures TotalLoad(r.agents) == TotalLoad(s.agents) + TotalModuleLoad(s.app)
  {
    PermutationOfIds(order, |s.app.modules|);
    SumLoadsPermutation(s.app.modules, order, Ids(|s.app.modules|));
    var placed := PlaceAll(s.(owner := map[], finish := map[]), order);
    placed.(ready := placed.ready + s.app.startModules)
  }

  /** initialDistribution places greedily: the k-th module of the order
      goes to the first least-loaded agent once the modules before it have
      been placed on the cleared tables. */
  lemma InitialDistributionPicksLeast(s: State, order: seq<int>, k: int)
    requires IsPlacementOrder(s.app.modules, order)
    requires |s.agents| > 0 || |s.app.modules| == 0
    requires 0 <= k < |order|
    ensures |order| == |s.app.modules| && (forall i :: 0 <= i < |order| ==> 0 <= order[i] < |s.app.modules|)
    ensures order[k] in InitialDistribution(s, order).owner
    ensures InitialDistribution(s, order).owner[order[k]] ==
      FindLeastLoaded(PlaceAll(s.(owner := map[], finish := map[]), order[..k]).agents)
  {
    PermutationOfIds(order, |s.app.modules|);
    PlaceAllPicksLeast(s.(owner := map[], finish := map[]), order, k);
  }

  /** The state the execution loop starts from: consistent bookkeeping,
      every module mapped to an agent and not started, nothing finished, and
      only modules without unfinished predecessors queued. */
  ghost predicate Placed(s: State) {
    && Consistent(s)
    && (forall m :: 0 <= m < |s.app.modules| ==> m in s.owner)
    && (forall m :: 0 <= m < |s.app.modules| ==> s.status[m] == NotStarted)
    && s.finish == map[]
    && (forall k :: 0 <= k < |s.ready| ==>
          0 <= s.ready[k] < |s.app.modules| && PredsDone(s.status, s.app.modules[s.ready[k]].prev))
  }

  /** initializeGraphs followed by initialDistribution, from a well-formed
      graph and freshly added agents, leaves the state the execution loop
      starts from: each agent's load is the sum of its modules' loads, each
      module is mapped to one agent and listed there, nothing has started,
      the total agent load equals the total module load, and exactly the
      start modules are queued. */
  lemma SetupPlacesEveryModule(app: Graph, agents: seq<Agent>, order: seq<int>)
    requires WellFormed(app) && Fresh(agents)
    requires |agents| > 0 || |app.modules| == 0
    requires IsPlacementOrder(app.modules, order)
    ensures Placed(InitialDistribution(InitializeGraphs(app, agents), order))
    ensures TotalLoad(InitialDistribution(InitializeGraphs(app, agents), order).agents) == TotalModuleLoad(app)
    ensures InitialDistribution(InitializeGraphs(app, agents), order).ready == FindStartEndModules(app).startModules
  {
    SetupPlaced(app, agents, order);
    SetupLoad(app, agents, order);
  }

  lemma SetupPlaced(app: Graph, agents: seq<Agent>, order: seq<int>)
    requires WellFormed(app) && Fresh(agents)
    requires |agents| > 0 || |app.modules| == 0
    requires IsPlacementOrder(app.modules, order)
    ensures Placed(InitialDistribution(InitializeGraphs(app, agents), order))
  {
    InitializedTables(app, agents, order);
    InitialDistributionPlaced(InitializeGraphs(app, agents), order);
  }

  lemma SetupLoad(app: Graph, agents: seq<Agent>, order: seq<int>)
    requires WellFormed(app) && Fresh(agents)
    requires |agents| > 0 || |app.modules| == 0
    requires IsPlacementOrder(app.modules, order)
    ensures TotalLoad(InitialDistribution(InitializeGraphs(app, agents), order).agents) == TotalModuleLoad(app)
    ensures InitialDistribution(InitializeGraphs(app, agents), order).ready == FindStartEndModules(app).startModules
  {
    InitializedTables(app, agents, order);
    FreshTotal(agents);
  }

  /** initializeGraphs leaves tables that initialDistribution can start
      from: the graph's modules unchanged with their start list filled in,
      fresh agents, every module not started and nothing ready. */
  lemma InitializedTables(app: Graph, agents: seq<Agent>, order: seq<int>)
    requires WellFormed(app) && Fresh(agents)
    requires |agents| > 0 || |app.modules| == 0
    requires IsPlacementOrder(app.modules, order)
    ensures Unplaced(InitializeGraphs(app, agents), order)
    ensures InitializeGraphs(app, agents).app.startModules == FindStartEndModules(app).startModules
    ensures TotalModuleLoad(InitializeGraphs(app, agents).app) == TotalModuleLoad(app)
  {
    UnplacedStart(InitializeGraphs(app, agents), app, agents, order);
  }

  lemma UnplacedStart(s: State, app: Graph, agents: seq<Agent>, order: seq<int>)
    requires WellFormed(app) && Fresh(agents)
    requires |agents| > 0 || |app.modules| == 0
    requires IsPlacementOrder(app.modules, order)
    requires s.app == FindStartEndModules(app) && s.agents == agents
    requires |s.status| == |app.modules|
    requires forall m :: 0 <= m < |s.status| ==> s.status[m] == NotStarted
    requires s.ready == []
    ensures Unplaced(s, order)
    ensures s.app.startModules == FindStartEndModules(app).startModules
    ensures TotalModuleLoad(s.app) == TotalModuleLoad(app)
  {
    SameModules(app, s.app);
    SameModules(s.app, app);
  }

  /** What depends only on the module list: well-formedness, the start
      list and the total load. */
  lemma SameModules(g: Graph, h: Graph)
    requires g.modules == h.modules
    ensures WellFormed(g) ==> WellFormed(h)
    ensures FindStartEndModules(g).startModules == FindStartEndModules(h).startModules
    ensures TotalModuleLoad(g) == TotalModuleLoad(h)
  {
  }

  /** Tables as initializeGraphs leaves them, with a placement order for
      initialDistribution: fresh agents, every module not started, nothing
      ready and the start list computed from the graph. */
  ghost predicate Unplaced(s: State, order: seq<int>) {
    && Sized(s) && Fresh(s.agents) && s.ready == []
    && (forall m :: 0 <= m < |s.status| ==> s.status[m] == NotStarted)
    && s.app.startModules == FindStartEndModules(s.app).startModules
    && (|s.agents| > 0 || |s.app.modules| == 0)
    && IsPlacementOrder(s.app.modules, order)
  }

  /** initialDistribution on freshly initialised tables leaves the state the
      execution loop starts from. */
  lemma InitialDistributionPlaced(s: State, order: seq<int>)
    requires Unplaced(s, order)
    ensures Placed(InitialDistribution(s, order))
  {
    ClearedConsistent(s);
    PermutationOfIds(order, |s.app.modules|);
    StartModulesAreSources(s.app);
    assert s.ready + s.app.startModules == s.app.startModules;
    PlaceThenQueue(s.(owner := map[], finish := map[]), order, s.ready + s.app.startModules);
  }

  lemma ClearedConsistent(s: State)
    requires Sized(s) && Fresh(s.agents)
    ensures Consistent(s.(owner := map[], finish := map[]))
  {
    FreshConsistent(s.(owner := map[], finish := map[]));
  }

  lemma PlaceThenQueue(s0: State, order: seq<int>, q: seq<int>)
    requires Consistent(s0) && s0.owner == map[] && s0.finish == map[]
    requires forall m :: 0 <= m < |s0.status| ==> s0.status[m] == NotStarted
    requires |s0.agents| > 0 || order == []
    requires Distinct(order) && CoversIds(order, |s0.app.modules|)
    requires forall k :: 0 <= k < |q| ==> 0 <= q[k] < |s0.app.modules| && s0.app.modules[q[k]].prev == []
    ensures Placed(PlaceAll(s0, order).(ready := q))
  {
    PlaceAllConsistent(s0, order);
    var p := PlaceAll(s0, order);
    var r := p.(ready := q);
    ConsistentFrame(p, r);
    assert forall m :: 0 <= m < |r.app.modules| ==> m in r.owner by {
      forall m | 0 <= m < |r.app.modules|
        ensures m in r.owner
      {
        assert m in order;
      }
    }
    forall k | 0 <= k < |r.ready|
      ensures 0 <= r.ready[k] < |r.app.modules| && PredsDone(r.status, r.app.modules[r.ready[k]].prev)
    {
      assert r.app.modules[q[k]].prev == [];
    }
  }

  /** Freshly added agents and an empty module_to_agent satisfy the
      bookkeeping invariant. */
  lemma FreshConsistent(s: State)
    requires Sized(s) && Fresh(s.agents) && s.owner == map[]
    ensures Consistent(s)
  {
    forall a | 0 <= a < |s.agents|
      ensures s.agents[a].load == PendingLoad(s, a)
    {
      PendingNoOwner(s, a, |s.app.modules|);
    }
  }

  /** A module listed on an agent is mapped to that agent. */
  lemma ListedIsOwned(s: State)
    requires ListsMatchOwner(s)
    ensures forall m, a :: 0 <= a < |s.agents| && m in s.agents[a].assignedModules ==> m in s.owner && s.owner[m] == a
  {
    forall m, a | 0 <= a < |s.agents| && m in s.agents[a].assignedModules
      ensures m in s.owner && s.owner[m] == a
    {
      var k :| 0 <= k < |s.agents[a].assignedModules| && s.agents[a].assignedModules[k] == m;
    }
  }

  lemma {:induction false} FreshTotal(agents: seq<Agent>)
    requires Fresh(agents)
    ensures TotalLoad(agents) == 0.0
  {
    if agents != [] {
      FreshTotal(agents[..|agents| - 1]);
    }
  }

  lemma {:induction false} PendingNoOwner(s: State, a: int, k: nat)
    requires |s.status| == |s.app.modules| && k <= |s.app.modules| && s.owner == map[]
    ensures PendingUpTo(s, a, k) == 0.0
  {
    if k > 0 {
      PendingNoOwner(s, a, k - 1);
    }
  }
}
