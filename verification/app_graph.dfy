/** The application graph: modules (units of work) with a load and ordered
    successor and predecessor lists, and the derived lists of start modules
    (no predecessors) and end modules (no successors). */
module AppGraph {

  /** A unit of work: its id, its load (duration), and the ids of the modules
      that follow it and that precede it, each list in insertion order. */
  datatype Module = Module(id: int, load: real, next: seq<int>, prev: seq<int>)

  /** The module table and the boundary lists computed from it. */
  datatype Graph = Graph(modules: seq<Module>, startModules: seq<int>, endModules: seq<int>)

  /** The graph before any module is added. */
  const EmptyGraph: Graph := Graph([], [], [])

  /** Ids double as positions, every edge names an existing module, and no
      load is negative: what the scheduler relies on when it looks a module
      up by id. */
  ghost predicate WellFormed(g: Graph) {
    && (forall i :: 0 <= i < |g.modules| ==> g.modules[i].id == i && g.modules[i].load >= 0.0)
    && (forall i, k :: 0 <= i < |g.modules| && 0 <= k < |g.modules[i].next| ==>
          0 <= g.modules[i].next[k] < |g.modules|)
    && (forall i, k :: 0 <= i < |g.modules| && 0 <= k < |g.modules[i].prev| ==>
          0 <= g.modules[i].prev[k] < |g.modules|)
  }

  /** Every edge is recorded on both ends, as often on one end as on the other. */
  ghost predicate Mirrored(g: Graph) {
    forall p, m :: 0 <= p < |g.modules| && 0 <= m < |g.modules| ==>
      multiset(g.modules[p].next)[m] == multiset(g.modules[m].prev)[p]
  }

  /** addModule: appends a module with the given id and load and no edges. */
  function AddModule(g: Graph, id: int, load: real): (r: Graph)
    ensures |r.modules| == |g.modules| + 1
    ensures r.modules[..|g.modules|] == g.modules
    ensures r.modules[|g.modules|].id == id && r.modules[|g.modules|].load == load
    ensures r.modules[|g.modules|].next == [] && r.modules[|g.modules|].prev == []
    ensures r.startModules == g.startModules && r.endModules == g.endModules
  {
    g.(modules := g.modules + [Module(id, load, [], [])])
  }

  /** addDependency: records the edge from -> to on both of its ends. */
  function AddDependency(g: Graph, from: int, to: int): (r: Graph)
    requires 0 <= from < |g.modules| && 0 <= to < |g.modules|
    ensures |r.modules| == |g.modules|
    ensures r.modules[from].next == g.modules[from].next + [to]
    ensures r.modules[to].prev == g.modules[to].prev + [from]
    ensures from != to ==> r.modules[from].prev == g.modules[from].prev
    ensures from != to ==> r.modules[to].next == g.modules[to].next
    ensures forall i :: 0 <= i < |g.modules| ==>
      r.modules[i].id == g.modules[i].id && r.modules[i].load == g.modules[i].load
    ensures forall i :: 0 <= i < |g.modules| && i != from && i != to ==> r.modules[i] == g.modules[i]
    ensures r.startModules == g.startModules && r.endModules == g.endModules
  {
    var ms := g.modules[from := g.modules[from].(next := g.modules[from].next + [to])];
    g.(modules := ms[to := ms[to].(prev := ms[to].prev + [from])])
  }

  /** Adding a module whose id is its position, with a non-negative load, keeps the graph well formed. */
  lemma AddModuleWellFormed(g: Graph, load: real)
    requires WellFormed(g)
    requires load >= 0.0
    ensures WellFormed(AddModule(g, |g.modules|, load))
    ensures Mirrored(g) ==> Mirrored(AddModule(g, |g.modules|, load))
  {
    var r := AddModule(g, |g.modules|, load);
    assert forall i :: 0 <= i < |g.modules| ==> r.modules[i] == g.modules[i];
    if Mirrored(g) {
      forall p, m | 0 <= p < |r.modules| && 0 <= m < |r.modules|
        ensures multiset(r.modules[p].next)[m] == multiset(r.modules[m].prev)[p]
      {
        if p == |g.modules| || m == |g.modules| {
          if p < |g.modules| {
            assert m !in g.modules[p].next;
          }
          if m < |g.modules| {
            assert p !in g.modules[m].prev;
          }
        }
      }
    }
  }

  /** Adding an edge between existing modules keeps the graph well formed and
      keeps every edge recorded on both ends. */
  lemma AddDependencyMirrored(g: Graph, from: int, to: int)
    requires WellFormed(g) && Mirrored(g)
    requires 0 <= from < |g.modules| && 0 <= to < |g.modules|
    ensures WellFormed(AddDependency(g, from, to))
    ensures Mirrored(AddDependency(g, from, to))
  {
    var r := AddDependency(g, from, to);
    AddDependencyWellFormed(g, from, to);
    forall p, m | 0 <= p < |r.modules| && 0 <= m < |r.modules|
      ensures multiset(r.modules[p].next)[m] == multiset(r.modules[m].prev)[p]
    {
      EdgeCountAfterAdd(g, from, to, p, m);
    }
  }

  lemma AddDependencyWellFormed(g: Graph, from: int, to: int)
    requires WellFormed(g)
    requires 0 <= from < |g.modules| && 0 <= to < |g.modules|
    ensures WellFormed(AddDependency(g, from, to))
  {
    var r := AddDependency(g, from, to);
    forall i, k | 0 <= i < |r.modules| && 0 <= k < |r.modules[i].next|
      ensures 0 <= r.modules[i].next[k] < |r.modules|
    {
      if i != from && i != to {
        assert r.modules[i] == g.modules[i];
      } else if i == from {
        if k < |g.modules[i].next| {
          assert r.modules[i].next[k] == g.modules[i].next[k];
        }
      } else {
        assert r.modules[i].next == g.modules[i].next;
      }
    }
    forall i, k | 0 <= i < |r.modules| && 0 <= k < |r.modules[i].prev|
      ensures 0 <= r.modules[i].prev[k] < |r.modules|
    {
      if i != from && i != to {
        assert r.modules[i] == g.modules[i];
      } else if i == to {
        if k < |g.modules[i].prev| {
          assert r.modules[i].prev[k] == g.modules[i].prev[k];
        }
      } else {
        assert r.modules[i].prev == g.modules[i].prev;
      }
    }
  }

  lemma EdgeCountAfterAdd(g: Graph, from: int, to: int, p: int, m: int)
    requires Mirrored(g)
    requires 0 <= from < |g.modules| && 0 <= to < |g.modules|
    requires 0 <= p < |g.modules| && 0 <= m < |g.modules|
    ensures var r := AddDependency(g, from, to);
      multiset(r.modules[p].next)[m] == multiset(r.modules[m].prev)[p]
  {
    var r := AddDependency(g, from, to);
    var nx := if p == from then g.modules[p].next + [to] else g.modules[p].next;
    var pv := if m == to then g.modules[m].prev + [from] else g.modules[m].prev;
    assert r.modules[p].next == nx;
    assert r.modules[m].prev == pv;
    assert multiset(g.modules[p].next)[m] == multiset(g.modules[m].prev)[p];
  }

  /** The ids of the modules that `pick` selects, in module order. */
  function IdsWhere(ms: seq<Module>, pick: Module -> bool): (r: seq<int>)
    ensures |r| <= |ms|
    ensures forall x :: x in r <==> exists i :: 0 <= i < |ms| && ms[i].id == x && pick(ms[i])
    ensures IdsAscending(ms) ==> Ascending(r)
  {
    if ms == [] then []
    else
      var init := ms[..|ms| - 1];
      var last := ms[|ms| - 1];
      assert forall i :: 0 <= i < |init| ==> init[i] == ms[i];
      var rest := IdsWhere(init, pick);
      assert IdsAscending(ms) ==> forall k :: 0 <= k < |rest| ==> rest[k] < last.id by {
        if IdsAscending(ms) {
          forall k | 0 <= k < |rest|
            ensures rest[k] < last.id
          {
            assert rest[k] in rest;
          }
        }
      }
      if pick(last) then rest + [last.id] else rest
  }

  /** Ids strictly increase along the module table (true of a well-formed graph). */
  ghost predicate IdsAscending(ms: seq<Module>) {
    forall i, j :: 0 <= i < j < |ms| ==> ms[i].id < ms[j].id
  }

  ghost predicate Ascending(xs: seq<int>) {
    forall i, j :: 0 <= i < j < |xs| ==> xs[i] < xs[j]
  }

  /** findStartEndModules: recomputes the start list (modules without
      predecessors) and the end list (modules without successors). */
  function FindStartEndModules(g: Graph): (r: Graph)
    ensures r.modules == g.modules
    ensures forall x :: x in r.startModules <==>
      exists i :: 0 <= i < |g.modules| && g.modules[i].id == x && g.modules[i].prev == []
    ensures forall x :: x in r.endModules <==>
      exists i :: 0 <= i < |g.modules| && g.modules[i].id == x && g.modules[i].next == []
    ensures IdsAscending(g.modules) ==> Ascending(r.startModules) && Ascending(r.endModules)
  {
    g.(startModules := IdsWhere(g.modules, (m: Module) => m.prev == []),
       endModules := IdsWhere(g.modules, (m: Module) => m.next == []))
  }

  /** In a well-formed graph the start list holds exactly the positions of the
      modules without predecessors, ascending, so a start module has no
      predecessor to wait for. */
  lemma StartModulesAreSources(g: Graph)
    requires WellFormed(g)
    ensures var r := FindStartEndModules(g);
      && Ascending(r.startModules)
      && (forall k :: 0 <= k < |r.startModules| ==>
            0 <= r.startModules[k] < |g.modules| && g.modules[r.startModules[k]].prev == [])
      && (forall i :: 0 <= i < |g.modules| && g.modules[i].prev == [] ==> i in r.startModules)
  {
    var r := FindStartEndModules(g);
    assert IdsAscending(g.modules);
    forall k | 0 <= k < |r.startModules|
      ensures 0 <= r.startModules[k] < |g.modules| && g.modules[r.startModules[k]].prev == []
    {
      assert r.startModules[k] in r.startModules;
    }
  }
}
