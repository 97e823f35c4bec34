/** Least-busy client dispatch: a new client goes to the agent with the
    least outstanding work, and the final report ranks agents by clients
    served (most first), then by total time (least first). The simulated
    clock that drains the queues is not part of this model. */
module Dispatch {

  /** An agent: its id, the queue of outstanding client durations (front at
      index 0), the number of clients ever served, the total duration ever
      received, and the duration still outstanding. */
  datatype Agent = Agent(id: int, clients: seq<int>, countClients: int, allTime: int, countTime: int)

  /** The agent table and the global count of clients received. */
  datatype Office = Office(agents: seq<Agent>, allClients: int)

  /** Total outstanding duration over all agents. */
  function Outstanding(agents: seq<Agent>): int {
    if agents == [] then 0 else Outstanding(agents[..|agents| - 1]) + agents[|agents| - 1].countTime
  }

  /** Replacing one agent changes the outstanding total by the difference
      of its outstanding durations. */
  lemma {:induction false} OutstandingUpdate(agents: seq<Agent>, i: int, x: Agent)
    requires 0 <= i < |agents|
    ensures Outstanding(agents[i := x]) == Outstanding(agents) - agents[i].countTime + x.countTime
    decreases |agents|
  {
    var last := |agents| - 1;
    var u := agents[i := x];
    assert u[..last] == if i == last then agents[..last] else agents[..last][i := x];
    if i < last {
      OutstandingUpdate(agents[..last], i, x);
    }
  }

  /** addNewClientToAgent: the client goes to the agent with the least
      outstanding duration, the lowest index among equals. That agent
      queues the client and adds its duration to both of its totals and one
      to its client count; the global client count goes up by one; every
      other agent is untouched. The source reads the first agent's time
      before the search, so the agent list must not be empty. */
  method AddNewClientToAgent(diff: int, o: Office) returns (r: Office, target: nat)
    requires |o.agents| > 0
    ensures target < |o.agents|
    ensures forall i :: 0 <= i < |o.agents| ==> o.agents[target].countTime <= o.agents[i].countTime
    ensures forall i :: 0 <= i < target ==> o.agents[i].countTime > o.agents[target].countTime
    ensures |r.agents| == |o.agents|
    ensures r.agents[target].id == o.agents[target].id
    ensures r.agents[target].clients == o.agents[target].clients + [diff]
    ensures r.agents[target].countClients == o.agents[target].countClients + 1
    ensures r.agents[target].allTime == o.agents[target].allTime + diff
    ensures r.agents[target].countTime == o.agents[target].countTime + diff
    ensures forall i :: 0 <= i < |o.agents| && i != target ==> r.agents[i] == o.agents[i]
    ensures r.allClients == o.allClients + 1
    ensures Outstanding(r.agents) == Outstanding(o.agents) + diff
  {
    var agents := o.agents;
    var least := agents[0].countTime;
    target := 0;
    var i := 0;
    while i < |agents|
      invariant 0 <= i <= |agents|
      invariant target < |agents| && target <= i
      invariant least == agents[target].countTime
      invariant forall k :: 0 <= k < i ==> least <= agents[k].countTime
      invariant forall k :: 0 <= k < target ==> agents[k].countTime > least
    {
      if least > agents[i].countTime {
        least := agents[i].countTime;
        target := i;
      }
      i := i + 1;
    }
    var a := agents[target];
    var served := a.(clients := a.clients + [diff], allTime := a.allTime + diff,
                     countTime := a.countTime + diff, countClients := a.countClients + 1);
    OutstandingUpdate(agents, target, served);
    r := Office(agents[target := served], o.allClients + 1);
  }

  /** allDone: despite its name, true exactly when some agent still has
      outstanding work. */
  method AllDone(agents: seq<Agent>) returns (busy: bool)
    ensures busy <==> exists i :: 0 <= i < |agents| && agents[i].countTime != 0
  {
    var i := 0;
    while i < |agents|
      invariant 0 <= i <= |agents|
      invariant forall k :: 0 <= k < i ==> agents[k].countTime == 0
    {
      if agents[i].countTime != 0 {
        return true;
      }
      i := i + 1;
    }
    return false;
  }

  /** No outstanding work anywhere means a zero outstanding total. */
  lemma {:induction false} IdleOutstanding(agents: seq<Agent>)
    requires forall i :: 0 <= i < |agents| ==> agents[i].countTime == 0
    ensures Outstanding(agents) == 0
    decreases |agents|
  {
    if agents != [] {
      IdleOutstanding(agents[..|agents| - 1]);
    }
  }

  // ---------------------------------------------------------------------
  // The ranking sort
  // ---------------------------------------------------------------------

  /** Client counts do not increase along the sequence. */
  ghost predicate ByClients(a: seq<Agent>) {
    forall i, j :: 0 <= i < j < |a| ==> a[i].countClients >= a[j].countClients
  }

  /** Neighbours with equal client counts are in non-decreasing total time. */
  ghost predicate TiesByTime(a: seq<Agent>) {
    forall i :: 0 <= i < |a| - 1 && a[i].countClients == a[i + 1].countClients ==>
      a[i].allTime <= a[i + 1].allTime
  }

  function Swap(a: seq<Agent>, i: int): (r: seq<Agent>)
    requires 0 <= i < |a| - 1
    ensures |r| == |a| && r[i] == a[i + 1] && r[i + 1] == a[i]
    ensures forall k :: 0 <= k < |a| && k != i && k != i + 1 ==> r[k] == a[k]
    ensures multiset(r) == multiset(a)
  {
    a[i := a[i + 1]][i + 1 := a[i]]
  }

  /** The weighted position sum that every tie-breaking swap raises. */
  function Weight(a: seq<Agent>): int {
    if a == [] then 0 else Weight(a[..|a| - 1]) + (|a| - 1) * a[|a| - 1].allTime
  }

  function Abs(x: int): nat {
    if x < 0 then -x else x
  }

  /** Sum of the absolute total times: a bound that no swap changes. */
  function Mass(a: seq<Agent>): nat {
    if a == [] then 0 else Mass(a[..|a| - 1]) + Abs(a[|a| - 1].allTime)
  }

  lemma {:induction false} WeightBounded(a: seq<Agent>)
    ensures Weight(a) <= |a| * Mass(a)
    decreases |a|
  {
    if a != [] {
      var init := a[..|a| - 1];
      var k := |a| - 1;
      var t := a[k].allTime;
      WeightBounded(init);
      assert Weight(a) == Weight(init) + k * t;
      assert Mass(a) == Mass(init) + Abs(t);
      MulMono(k, t, Abs(t));
      assert k * Mass(init) + k * Abs(t) == k * Mass(a);
      MulMono(Mass(a), k, |a|);
    }
  }

  lemma MulMono(k: int, x: int, y: int)
    requires k >= 0 && x <= y
    ensures k * x <= k * y
  {
    assert k * y - k * x == k * (y - x);
  }

  /** Swapping neighbours i and i + 1 changes the weighted sum by
      allTime[i] - allTime[i + 1] and leaves the mass as it is. */
  lemma {:induction false} SwapWeight(a: seq<Agent>, i: int)
    requires 0 <= i < |a| - 1
    ensures Weight(Swap(a, i)) == Weight(a) + a[i].allTime - a[i + 1].allTime
    ensures Mass(Swap(a, i)) == Mass(a)
    decreases |a|
  {
    var r := Swap(a, i);
    var last := |a| - 1;
    if i + 1 < last {
      assert r[..last] == Swap(a[..last], i);
      SwapWeight(a[..last], i);
      assert Weight(r) == Weight(r[..last]) + last * a[last].allTime;
      assert Mass(r) == Mass(r[..last]) + Abs(a[last].allTime);
    } else {
      var x, y := a[i].allTime, a[i + 1].allTime;
      var pre := a[..i];
      assert r[..last][..i] == pre && a[..last][..i] == pre;
      assert r[..last][i] == a[i + 1] && a[..last][i] == a[i];
      assert Weight(r[..last]) == Weight(pre) + i * y;
      assert Weight(a[..last]) == Weight(pre) + i * x;
      assert Weight(r) == Weight(pre) + i * y + (i + 1) * x;
      assert Weight(a) == Weight(pre) + i * x + (i + 1) * y;
      assert (i + 1) * x == i * x + x && (i + 1) * y == i * y + y;
      assert Mass(r[..last]) == Mass(pre) + Abs(y);
      assert Mass(a[..last]) == Mass(pre) + Abs(x);
    }
  }

  /** sortAgents: a bubble sort by client count, most first, then repeated
      passes that swap neighbours with equal client counts while the first
      has the larger total time, until a pass swaps nothing. The result is
      a permutation of the input, ordered by client count, with ties in
      total-time order. */
  method SortAgents(a0: seq<Agent>) returns (a: seq<Agent>)
    ensures multiset(a) == multiset(a0)
    ensures ByClients(a)
    ensures TiesByTime(a)
  {
    a := ByClientsPass(a0);
    var flag := true;
    ghost var n := |a|;
    ghost var mass := Mass(a);
    ghost var bound := n * mass;
    WeightBounded(a);
    while flag
      invariant multiset(a) == multiset(a0)
      invariant ByClients(a)
      invariant |a| == n && Mass(a) == mass && Weight(a) <= bound
      invariant !flag ==> TiesByTime(a)
      decreases bound - Weight(a) + (if flag then 1 else 0)
    {
      a, flag := TiePass(a);
      WeightBounded(a);
    }
  }

  /** One pass of the tie-breaking phase: swaps each neighbour pair with
      equal client counts whose first total time is the larger. A pass that
      swaps nothing finds the ties in order; a pass that swaps raises the
      weighted sum. */
  method TiePass(a0: seq<Agent>) returns (a: seq<Agent>, swapped: bool)
    requires ByClients(a0)
    ensures multiset(a) == multiset(a0) && |a| == |a0|
    ensures ByClients(a)
    ensures Mass(a) == Mass(a0)
    ensures swapped ==> Weight(a) > Weight(a0)
    ensures !swapped ==> a == a0 && TiesByTime(a)
  {
    a := a0;
    swapped := false;
    var i := 0;
    while i < |a| - 1
      invariant 0 <= i <= if |a| == 0 then 0 else |a| - 1
      invariant |a| == |a0|
      invariant !swapped ==> a == a0
      invariant multiset(a) == multiset(a0)
      invariant ByClients(a)
      invariant Mass(a) == Mass(a0)
      invariant swapped ==> Weight(a) > Weight(a0)
      invariant !swapped ==> forall k :: 0 <= k < i && a0[k].countClients == a0[k + 1].countClients ==>
        a0[k].allTime <= a0[k + 1].allTime
    {
      if a[i].countClients == a[i + 1].countClients && a[i].allTime > a[i + 1].allTime {
        SwapRaises(a, i);
        a := Swap(a, i);
        swapped := true;
      }
      i := i + 1;
    }
  }

  /** A tie-breaking swap keeps the cards, the order by client count and
      the mass, and raises the weighted sum. */
  lemma SwapRaises(a: seq<Agent>, i: int)
    requires ByClients(a)
    requires 0 <= i < |a| - 1 && a[i].countClients == a[i + 1].countClients && a[i].allTime > a[i + 1].allTime
    ensures ByClients(Swap(a, i)) && Mass(Swap(a, i)) == Mass(a) && Weight(Swap(a, i)) > Weight(a)
  {
    SwapWeight(a, i);
    SwapTiesByClients(a, i);
  }

  /** Swapping neighbours with equal client counts keeps the order by
      client count. */
  lemma SwapTiesByClients(a: seq<Agent>, i: int)
    requires ByClients(a)
    requires 0 <= i < |a| - 1 && a[i].countClients == a[i + 1].countClients
    ensures ByClients(Swap(a, i))
  {
    var r := Swap(a, i);
    forall p, q | 0 <= p < q < |r|
      ensures r[p].countClients >= r[q].countClients
    {
      var p' := if p == i then i + 1 else if p == i + 1 then i else p;
      var q' := if q == i then i + 1 else if q == i + 1 then i else q;
      assert r[p] == a[p'] && r[q] == a[q'];
      if p' > q' {
        assert p == i && q == i + 1;
      }
    }
  }

  /** The first phase of sortAgents: bubble passes that move smaller client
      counts towards the end. */
  method ByClientsPass(a0: seq<Agent>) returns (a: seq<Agent>)
    ensures multiset(a) == multiset(a0)
    ensures ByClients(a)
  {
    a := a0;
    var n := |a|;
    var i := 0;
    while i < n - 1
      invariant |a| == n
      invariant multiset(a) == multiset(a0)
      invariant 0 <= i <= n
      // the last i places hold the smallest counts, in order
      invariant forall p, q :: n - i <= p < q < n ==> a[p].countClients >= a[q].countClients
      invariant forall p, q :: 0 <= p < n - i <= q < n ==> a[p].countClients >= a[q].countClients
    {
      var j := 0;
      while j < n - i - 1
        invariant |a| == n
        invariant multiset(a) == multiset(a0)
        invariant 0 <= j <= n - i - 1
        invariant forall p, q :: n - i <= p < q < n ==> a[p].countClients >= a[q].countClients
        invariant forall p, q :: 0 <= p < n - i <= q < n ==> a[p].countClients >= a[q].countClients
        // the smallest count seen so far has bubbled to place j
        invariant forall p :: 0 <= p < j ==> a[p].countClients >= a[j].countClients
      {
        if a[j].countClients < a[j + 1].countClients {
          a := Swap(a, j);
        }
        j := j + 1;
      }
      i := i + 1;
    }
  }
}
