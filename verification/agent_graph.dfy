/** The agent graph: compute nodes with a running load, the modules assigned
    to them, and a neighbour list. The neighbour list is carried as data only;
    placement and rebalancing never read it. */
module AgentGraph {

  /** An agent: its id, its current load (sum of the loads of its assigned,
      not yet completed modules), its neighbours, and its assigned modules in
      assignment order. */
  datatype Agent = Agent(id: int, load: real, neighbors: seq<int>, assignedModules: seq<int>)

  /** No agent carries load or modules yet: the state addAgent creates. */
  ghost predicate Fresh(agents: seq<Agent>) {
    forall a :: 0 <= a < |agents| ==> agents[a].load == 0.0 && agents[a].assignedModules == []
  }

  /** Every neighbour names an agent, and every connection is recorded on
      both ends, as often on one as on the other. */
  ghost predicate Symmetric(agents: seq<Agent>) {
    && (forall a, k :: 0 <= a < |agents| && 0 <= k < |agents[a].neighbors| ==>
          0 <= agents[a].neighbors[k] < |agents|)
    && (forall a, b :: 0 <= a < |agents| && 0 <= b < |agents| ==>
          multiset(agents[a].neighbors)[b] == multiset(agents[b].neighbors)[a])
  }

  /** addAgent: appends an idle agent with no neighbours and no modules. */
  function AddAgent(agents: seq<Agent>, id: int): (r: seq<Agent>)
    ensures |r| == |agents| + 1
    ensures r[..|agents|] == agents
    ensures r[|agents|].id == id && r[|agents|].neighbors == []
    ensures Fresh(agents) ==> Fresh(r)
    ensures Symmetric(agents) ==> Symmetric(r)
  {
    var r := agents + [Agent(id, 0.0, [], [])];
    assert forall a :: 0 <= a < |agents| ==> r[a] == agents[a];
    assert Symmetric(agents) ==> forall a :: 0 <= a < |agents| ==> |agents| !in agents[a].neighbors;
    r
  }

  /** addConnection: records the link on both agents; loads and assigned
      modules are untouched, which is what makes the topology inert. */
  function AddConnection(agents: seq<Agent>, a: int, b: int): (r: seq<Agent>)
    requires 0 <= a < |agents| && 0 <= b < |agents|
    ensures |r| == |agents|
    ensures a != b ==> r[a].neighbors == agents[a].neighbors + [b]
    ensures a != b ==> r[b].neighbors == agents[b].neighbors + [a]
    ensures a == b ==> r[a].neighbors == agents[a].neighbors + [a, a]
    ensures forall i :: 0 <= i < |agents| ==>
      r[i].id == agents[i].id && r[i].load == agents[i].load && r[i].assignedModules == agents[i].assignedModules
    ensures forall i :: 0 <= i < |agents| && i != a && i != b ==> r[i] == agents[i]
  {
    var r1 := agents[a := agents[a].(neighbors := agents[a].neighbors + [b])];
    r1[b := r1[b].(neighbors := r1[b].neighbors + [a])]
  }

  /** Connecting agents keeps every connection recorded on both ends, and
      keeps fresh agents fresh. */
  lemma AddConnectionSymmetric(agents: seq<Agent>, a: int, b: int)
    requires 0 <= a < |agents| && 0 <= b < |agents|
    requires Symmetric(agents)
    ensures Symmetric(AddConnection(agents, a, b))
    ensures Fresh(agents) ==> Fresh(AddConnection(agents, a, b))
  {
    var r := AddConnection(agents, a, b);
    forall x, k | 0 <= x < |r| && 0 <= k < |r[x].neighbors|
      ensures 0 <= r[x].neighbors[k] < |r|
    {
      if x != a && x != b {
        assert r[x] == agents[x];
      } else if k < |agents[x].neighbors| {
        assert r[x].neighbors[k] == agents[x].neighbors[k];
      }
    }
    forall x, y | 0 <= x < |r| && 0 <= y < |r|
      ensures multiset(r[x].neighbors)[y] == multiset(r[y].neighbors)[x]
    {
      LinkCountAfterConnect(agents, a, b, x, y);
    }
  }

  lemma LinkCountAfterConnect(agents: seq<Agent>, a: int, b: int, x: int, y: int)
    requires Symmetric(agents)
    requires 0 <= a < |agents| && 0 <= b < |agents|
    requires 0 <= x < |agents| && 0 <= y < |agents|
    ensures var r := AddConnection(agents, a, b);
      multiset(r[x].neighbors)[y] == multiset(r[y].neighbors)[x]
  {
    LinkCountGrows(agents, a, b, x, y);
    LinkCountGrows(agents, a, b, y, x);
  }

  /** How many links between x and y one addConnection(a, b) adds. */
  function Added(a: int, b: int, x: int, y: int): nat {
    if a == b then (if x == a && y == a then 2 else 0)
    else if (x == a && y == b) || (x == b && y == a) then 1
    else 0
  }

  lemma LinkCountGrows(agents: seq<Agent>, a: int, b: int, x: int, y: int)
    requires 0 <= a < |agents| && 0 <= b < |agents|
    requires 0 <= x < |agents|
    ensures multiset(AddConnection(agents, a, b)[x].neighbors)[y]
      == multiset(agents[x].neighbors)[y] + Added(a, b, x, y)
  {
    var r := AddConnection(agents, a, b);
    var old_ := agents[x].neighbors;
    if a == b && x == a {
      assert r[x].neighbors == old_ + [a, a];
      assert multiset(old_ + [a, a]) == multiset(old_) + multiset{a, a};
    } else if x == a {
      assert r[x].neighbors == old_ + [b];
      assert multiset(old_ + [b]) == multiset(old_) + multiset{b};
    } else if x == b {
      assert r[x].neighbors == old_ + [a];
      assert multiset(old_ + [a]) == multiset(old_) + multiset{a};
    } else {
      assert r[x] == agents[x];
    }
  }
}
