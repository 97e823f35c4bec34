/** needRebalancing and the two branches of dynamicRebalance: moving a
    module away from an agent that failed, and the global sweep that pairs
    the most loaded agents with the least loaded ones. */
module Rebalance {
  import opened Indices
  import opened Wrappers
  import opened AppGraph
  import opened AgentGraph
  import opened Balancer

  // ---------------------------------------------------------------------
  // needRebalancing

  /** max_load after the scan: the largest load, but never below the
      starting value 0. */
  function MaxLoad(agents: seq<Agent>): (r: real)
    ensures r >= 0.0
    ensures forall i :: 0 <= i < |agents| ==> agents[i].load <= r
    ensures r == 0.0 || exists i :: 0 <= i < |agents| && agents[i].load == r
  {
    if agents == [] then 0.0
    else
      var rest := MaxLoad(agents[..|agents| - 1]);
      var last := agents[|agents| - 1].load;
      assert forall i :: 0 <= i < |agents| - 1 ==> agents[..|agents| - 1][i] == agents[i];
      if last > rest then last else rest
  }

  /** min_load after the scan over a non-empty agent list: the smallest load.
      The scan starts from the largest double, which every load lies below. */
  function MinLoad(agents: seq<Agent>): (r: real)
    requires |agents| > 0
    ensures forall i :: 0 <= i < |agents| ==> r <= agents[i].load
    ensures exists i :: 0 <= i < |agents| && agents[i].load == r
  {
    if |agents| == 1 then agents[0].load
    else
      var rest := MinLoad(agents[..|agents| - 1]);
      var last := agents[|agents| - 1].load;
      assert forall i :: 0 <= i < |agents| - 1 ==> agents[..|agents| - 1][i] == agents[i];
      if last < rest then last else rest
  }

  /** needRebalancing: more than one agent, and the spread between the
      (zero-floored) largest load and the smallest load exceeds 1. */
  function NeedRebalancing(agents: seq<Agent>): (r: bool)
    ensures r <==> |agents| > 1 && exists i, j :: (0 <= i < |agents| && 0 <= j < |agents| &&
      (if agents[i].load > 0.0 then agents[i].load else 0.0) - agents[j].load > 1.0)
  {
    if |agents| <= 1 then false
    else
      var hi := MaxLoad(agents);
      var lo := MinLoad(agents);
      if hi - lo > 1.0 then
        SpreadWitness(agents);
        true
      else
        false
  }

  lemma SpreadWitness(agents: seq<Agent>)
    requires |agents| > 0 && MaxLoad(agents) - MinLoad(agents) > 1.0
    ensures exists i, j :: (0 <= i < |agents| && 0 <= j < |agents| &&
      (if agents[i].load > 0.0 then agents[i].load else 0.0) - agents[j].load > 1.0)
  {
    var j :| 0 <= j < |agents| && agents[j].load == MinLoad(agents);
    var i :| 0 <= i < |agents| && (agents[i].load == MaxLoad(agents) || (MaxLoad(agents) == 0.0 && i == j));
    assert (if agents[i].load > 0.0 then agents[i].load else 0.0) - agents[j].load > 1.0;
  }

  // ---------------------------------------------------------------------
  // The failed-module branch

  /** dynamicRebalance with a failed module: the module goes to the
      least-loaded agent, unless that is the agent that failed. */
  function RebalanceFailed(s: State, m: int, failed: int): (r: State)
    requires 0 <= m < |s.app.modules| && 0 <= failed < |s.agents|
    ensures |r.agents| == |s.agents|
    ensures FindLeastLoaded(s.agents) == failed ==> r == s
    ensures FindLeastLoaded(s.agents) != failed ==>
      && r.owner == s.owner[m := FindLeastLoaded(s.agents)]
      && m !in r.agents[failed].assignedModules
      && m in r.agents[FindLeastLoaded(s.agents)].assignedModules
    ensures r.app == s.app && r.status == s.status && r.ready == s.ready && r.finish == s.finish
    ensures TotalLoad(r.agents) == TotalLoad(s.agents)
  {
    var target := FindLeastLoaded(s.agents);
    if target == failed then s else Move(s, m, failed, target)
  }

  /** After the failed-module branch, a module that was mapped to the failed
      agent is mapped to the agent that was least loaded, and the
      bookkeeping invariant still holds. */
  lemma RebalanceFailedConsistent(s: State, m: int, failed: int)
    requires Consistent(s)
    requires 0 <= m < |s.app.modules| && m in s.owner && s.owner[m] == failed && s.status[m] != Completed
    ensures 0 <= failed < |s.agents|
    ensures var r := RebalanceFailed(s, m, failed);
      && Consistent(r)
      && m in r.owner && r.owner[m] == FindLeastLoaded(s.agents)
      && (forall j :: 0 <= j < |s.agents| ==> s.agents[r.owner[m]].load <= s.agents[j].load)
  {
    var target := FindLeastLoaded(s.agents);
    if target != failed {
      MoveConsistent(s, m, failed, target);
    }
  }

  // ---------------------------------------------------------------------
  // The global sweep

  /** Agent indices by current load, ties by index: the order std::sort
      gives the (load, index) pairs. */
  function SortByLoad(agents: seq<Agent>): (order: seq<int>)
    ensures multiset(order) == multiset(Ids(|agents|))
    ensures |order| == |agents| && Distinct(order) && CoversIds(order, |agents|)
    ensures forall i, j :: 0 <= i < j < |order| ==>
      agents[order[i]].load < agents[order[j]].load ||
      (agents[order[i]].load == agents[order[j]].load && order[i] < order[j])
  {
    var key := (i: int) => if 0 <= i < |agents| then agents[i].load else 0.0;
    var order := SortBy(key, Ids(|agents|));
    PermutationOfIds(order, |agents|);
    forall i, j | 0 <= i < j < |order|
      ensures agents[order[i]].load < agents[order[j]].load ||
        (agents[order[i]].load == agents[order[j]].load && order[i] < order[j])
    {
      assert Precedes(key, order[i], order[j]);
    }
    order
  }

  /** The first agent of the sorted snapshot is the one findLeastLoadedAgent
      picks. */
  lemma SortByLoadStartsWithLeast(agents: seq<Agent>)
    requires |agents| > 0
    ensures SortByLoad(agents)[0] == FindLeastLoaded(agents)
  {
    var order := SortByLoad(agents);
    var x := order[0];
    forall j | 0 <= j < |agents|
      ensures agents[x].load <= agents[j].load
      ensures j < x ==> agents[j].load > agents[x].load
    {
      assert j in order;
      var k :| 0 <= k < |order| && order[k] == j;
    }
    LeastLoadedUnique(agents, x);
  }

  /** The agent with the largest load in the snapshot order, the last entry
      of the sorted (load, index) pairs. */
  function Heaviest(agents: seq<Agent>): (h: int)
    requires |agents| > 0
    ensures 0 <= h < |agents|
    ensures forall j :: 0 <= j < |agents| ==> agents[j].load <= agents[h].load
    ensures forall j :: h < j < |agents| ==> agents[j].load < agents[h].load
  {
    var order := SortByLoad(agents);
    var h := order[|order| - 1];
    forall j | 0 <= j < |agents|
      ensures agents[j].load <= agents[h].load
      ensures h < j ==> agents[j].load < agents[h].load
    {
      assert j in order;
      var k :| 0 <= k < |order| && order[k] == j;
    }
    h
  }

  /** One relocation of the sweep: a module moved from one agent to another. */
  datatype Relocation = Relocation(moduleId: int, from: int, to: int)

  /** The first not-started module in the list, if any. */
  function FirstNotStarted(status: seq<Status>, ms: seq<int>): (r: Option<int>)
    requires forall k :: 0 <= k < |ms| ==> 0 <= ms[k] < |status|
    ensures r.None? <==> forall k :: 0 <= k < |ms| ==> status[ms[k]] != NotStarted
    ensures r.Some? ==> exists k :: (0 <= k < |ms| && ms[k] == r.value && status[r.value] == NotStarted &&
      forall j :: 0 <= j < k ==> status[ms[j]] != NotStarted)
  {
    if ms == [] then None
    else if status[ms[0]] == NotStarted then
      assert ms[0] == ms[0];
      Some(ms[0])
    else
      var rest := FirstNotStarted(status, ms[1..]);
      assert forall k :: 1 <= k < |ms| ==> ms[1..][k - 1] == ms[k];
      if rest.Some? then
        var k :| 0 <= k < |ms[1..]| && ms[1..][k] == rest.value && status[rest.value] == NotStarted &&
          forall j :: 0 <= j < k ==> status[ms[1..][j]] != NotStarted;
        assert ms[k + 1] == rest.value;
        assert forall j :: 0 <= j < k + 1 ==> status[ms[j]] != NotStarted by {
          forall j | 0 <= j < k + 1
            ensures status[ms[j]] != NotStarted
          {
            if j > 0 {
              assert ms[j] == ms[1..][j - 1];
            }
          }
        }
        rest
      else
        rest
  }

  /** A duplicate-free order of all agent indices. */
  ghost predicate AgentOrder(order: seq<int>, n: int) {
    |order| == n && Distinct(order) && forall k :: 0 <= k < |order| ==> 0 <= order[k] < n
  }

  /** A relocation as the sweep promises it, judged against the state before
      the sweep: the module is the first not-started module of the giving
      agent, and that agent's load exceeded the receiving agent's by at
      least 0.5. */
  ghost predicate MoveValid(s: State, mv: Relocation) {
    && |s.status| == |s.app.modules| && ListsInRange(s)
    && 0 <= mv.from < |s.agents| && 0 <= mv.to < |s.agents|
    && FirstNotStarted(s.status, s.agents[mv.from].assignedModules) == Some(mv.moduleId)
    && s.agents[mv.from].load - s.agents[mv.to].load >= 0.5
  }

  /** Two relocations share no agent. */
  predicate Apart(a: Relocation, b: Relocation) {
    a.from != b.from && a.from != b.to && a.to != b.from && a.to != b.to
  }

  ghost predicate AllValid(s: State, moves: seq<Relocation>) {
    forall k :: 0 <= k < |moves| ==> MoveValid(s, moves[k])
  }

  ghost predicate PairwiseApart(moves: seq<Relocation>) {
    forall i, j :: 0 <= i < j < |moves| ==> Apart(moves[i], moves[j])
  }

  /** Agent b gives or receives in one of the relocations. */
  ghost predicate Involved(moves: seq<Relocation>, b: int) {
    exists k :: 0 <= k < |moves| && (moves[k].from == b || moves[k].to == b)
  }

  /** An agent no relocation of a longer list names is named by no
      relocation of its prefix, nor by the last one. */
  lemma NotInvolvedPrefix(moves: seq<Relocation>, mv: Relocation, b: int)
    requires !Involved(moves + [mv], b)
    ensures !Involved(moves, b) && b != mv.from && b != mv.to
  {
    var ms := moves + [mv];
    assert ms[|moves|] == mv;
    forall k | 0 <= k < |moves|
      ensures moves[k].from != b && moves[k].to != b
    {
      assert ms[k] == moves[k];
    }
  }

  /** The two agents of a relocation, in state s, are the agents of s0 with
      the module and its load carried from one to the other. */
  ghost predicate Shifted(s0: State, s: State, mv: Relocation) {
    && 0 <= mv.moduleId < |s0.app.modules|
    && 0 <= mv.from < |s0.agents| && 0 <= mv.to < |s0.agents|
    && |s.agents| == |s0.agents|
    && s.agents[mv.from] == s0.agents[mv.from].(
         assignedModules := Without(s0.agents[mv.from].assignedModules, mv.moduleId),
         load := s0.agents[mv.from].load - s0.app.modules[mv.moduleId].load)
    && s.agents[mv.to] == s0.agents[mv.to].(
         assignedModules := s0.agents[mv.to].assignedModules + [mv.moduleId],
         load := s0.agents[mv.to].load + s0.app.modules[mv.moduleId].load)
  }

  /** Each relocation shifted its module between its two agents, and every
      agent no relocation names is as it was in s0. */
  ghost predicate Effects(s0: State, s: State, moves: seq<Relocation>) {
    && |s.agents| == |s0.agents|
    && (forall k :: 0 <= k < |moves| ==> Shifted(s0, s, moves[k]))
    && (forall b :: 0 <= b < |s0.agents| && !Involved(moves, b) ==> s.agents[b] == s0.agents[b])
  }

  /** module_to_agent after the relocations, applied in order. */
  function ApplyOwners(owner: map<int, int>, moves: seq<Relocation>): (r: map<int, int>)
    ensures forall x :: x in owner ==> x in r
    ensures forall k :: 0 <= k < |moves| ==> moves[k].moduleId in r
    decreases |moves|
  {
    if moves == [] then owner
    else
      var init := moves[..|moves| - 1];
      assert forall k :: 0 <= k < |init| ==> init[k] == moves[k];
      ApplyOwners(owner, init)[moves[|moves| - 1].moduleId := moves[|moves| - 1].to]
  }

  /** With each module relocated at most once, every relocated module ends
      up mapped to the agent it was moved to. */
  lemma {:induction false} ApplyOwnersMoved(owner: map<int, int>, moves: seq<Relocation>, k: int)
    requires forall i, j :: 0 <= i < j < |moves| ==> moves[i].moduleId != moves[j].moduleId
    requires 0 <= k < |moves|
    ensures ApplyOwners(owner, moves)[moves[k].moduleId] == moves[k].to
    decreases |moves|
  {
    if k < |moves| - 1 {
      var init := moves[..|moves| - 1];
      assert init[k] == moves[k];
      ApplyOwnersMoved(owner, init, k);
    }
  }

  /** A module no relocation names keeps its mapping. */
  lemma {:induction false} ApplyOwnersUnmoved(owner: map<int, int>, moves: seq<Relocation>, x: int)
    requires forall k :: 0 <= k < |moves| ==> moves[k].moduleId != x
    ensures x in ApplyOwners(owner, moves) <==> x in owner
    ensures x in owner ==> ApplyOwners(owner, moves)[x] == owner[x]
    decreases |moves|
  {
    if moves != [] {
      var init := moves[..|moves| - 1];
      assert forall k :: 0 <= k < |init| ==> init[k] == moves[k];
      ApplyOwnersUnmoved(owner, init, x);
    }
  }

  /** What the sweep keeps between iterations, against the state s0 it
      started from: the agents still between the pointers are untouched and
      no relocation so far names them; the relocations so far are valid,
      pairwise apart, and had exactly their intended effect. */
  ghost predicate Swept(s0: State, order: seq<int>, left: int, right: int, s: State, moves: seq<Relocation>) {
    && |s0.status| == |s0.app.modules| && ListsInRange(s0)
    && AgentOrder(order, |s0.agents|)
    && 0 <= left && right == |order| - 1 - left && left <= right + 1
    && |s.agents| == |s0.agents| && s.app == s0.app && s.status == s0.status
    && (forall i :: left <= i <= right ==> s.agents[order[i]] == s0.agents[order[i]])
    && (forall k, i :: 0 <= k < |moves| && left <= i <= right ==>
          moves[k].from != order[i] && moves[k].to != order[i])
    && AllValid(s0, moves) && PairwiseApart(moves)
    && Effects(s0, s, moves)
  }

  /** A pair without a not-started module on its loaded side only narrows the range. */
  lemma SweptSkip(s0: State, order: seq<int>, left: int, right: int, s: State, moves: seq<Relocation>)
    requires Swept(s0, order, left, right, s, moves) && left < right
    ensures Swept(s0, order, left + 1, right - 1, s, moves)
  {
  }

  /** Moving the loaded agent's first not-started module to the free agent
      keeps what the sweep promises. */
  lemma SweptTake(s0: State, order: seq<int>, left: int, right: int, s: State, moves: seq<Relocation>, m: int)
    requires Swept(s0, order, left, right, s, moves) && left < right
    requires ListsInRange(s)
    requires s.agents[order[right]].load - s.agents[order[left]].load >= 0.5
    requires FirstNotStarted(s.status, s.agents[order[right]].assignedModules) == Some(m)
    ensures 0 <= m < |s.app.modules| && order[right] != order[left]
    ensures Swept(s0, order, left + 1, right - 1, Move(s, m, order[right], order[left]),
                  moves + [Relocation(m, order[right], order[left])])
  {
    var hi := order[right];
    var lo := order[left];
    assert m in s.agents[hi].assignedModules;
    var t := Move(s, m, hi, lo);
    var mv := Relocation(m, hi, lo);
    var ms := moves + [mv];
    assert ms[|moves|] == mv;
    forall i | left + 1 <= i <= right - 1
      ensures t.agents[order[i]] == s0.agents[order[i]]
    {
      assert order[i] != hi && order[i] != lo;
    }
    forall k, i | 0 <= k < |ms| && left + 1 <= i <= right - 1
      ensures ms[k].from != order[i] && ms[k].to != order[i]
    {
      if k < |moves| {
        assert ms[k] == moves[k];
      }
    }
    SweptTakeValid(s0, order, left, right, s, moves, m);
    SweptTakeEffects(s0, order, left, right, s, moves, m);
  }

  lemma SweptTakeValid(s0: State, order: seq<int>, left: int, right: int, s: State, moves: seq<Relocation>, m: int)
    requires Swept(s0, order, left, right, s, moves) && left < right
    requires s.agents[order[right]].load - s.agents[order[left]].load >= 0.5
    requires FirstNotStarted(s0.status, s.agents[order[right]].assignedModules) == Some(m)
    ensures AllValid(s0, moves + [Relocation(m, order[right], order[left])])
    ensures PairwiseApart(moves + [Relocation(m, order[right], order[left])])
  {
    var hi := order[right];
    var lo := order[left];
    var ms := moves + [Relocation(m, hi, lo)];
    assert s.agents[hi] == s0.agents[hi] && s.agents[lo] == s0.agents[lo];
    forall k | 0 <= k < |ms|
      ensures MoveValid(s0, ms[k])
    {
      if k < |moves| {
        assert ms[k] == moves[k];
      }
    }
    forall i, j | 0 <= i < j < |ms|
      ensures Apart(ms[i], ms[j])
    {
      assert ms[i] == moves[i];
      if j < |moves| {
        assert ms[j] == moves[j];
      }
    }
  }

  lemma SweptTakeEffects(s0: State, order: seq<int>, left: int, right: int, s: State, moves: seq<Relocation>, m: int)
    requires Swept(s0, order, left, right, s, moves) && left < right
    requires 0 <= m < |s.app.modules|
    ensures Effects(s0, Move(s, m, order[right], order[left]), moves + [Relocation(m, order[right], order[left])])
  {
    var hi := order[right];
    var lo := order[left];
    var t := Move(s, m, hi, lo);
    var ms := moves + [Relocation(m, hi, lo)];
    assert ms[|moves|] == Relocation(m, hi, lo);
    forall k | 0 <= k < |ms|
      ensures Shifted(s0, t, ms[k])
    {
      if k < |moves| {
        assert ms[k] == moves[k];
        assert Shifted(s0, s, moves[k]);
        assert t.agents[moves[k].from] == s.agents[moves[k].from];
        assert t.agents[moves[k].to] == s.agents[moves[k].to];
      }
    }
    forall b | 0 <= b < |s0.agents| && !Involved(ms, b)
      ensures t.agents[b] == s0.agents[b]
    {
      NotInvolvedPrefix(moves, Relocation(m, hi, lo), b);
    }
  }

  /** Appending a relocation updates the mapping of its module last. */
  lemma ApplyOwnersSnoc(owner: map<int, int>, moves: seq<Relocation>, mv: Relocation)
    ensures ApplyOwners(owner, moves + [mv]) == ApplyOwners(owner, moves)[mv.moduleId := mv.to]
  {
    assert (moves + [mv])[..|moves|] == moves;
  }

  /** The first relocation the sweep makes, if its first pair yields one. */
  ghost predicate FirstMoveIs(s0: State, order: seq<int>, moves: seq<Relocation>)
    requires |s0.status| == |s0.app.modules| && ListsInRange(s0) && AgentOrder(order, |s0.agents|)
  {
    |order| > 0 && FirstNotStarted(s0.status, s0.agents[order[|order| - 1]].assignedModules).Some? ==>
      && |moves| >= 1
      && moves[0] == Relocation(FirstNotStarted(s0.status, s0.agents[order[|order| - 1]].assignedModules).value,
                                order[|order| - 1], order[0])
  }

  /** The sweep goes on past pair l (the l-th most loaded agent of the
      snapshot order against the l-th least loaded one, counting from 0):
      the two pointers have not met and the pair's snapshot loads differ by
      at least 0.5. */
  ghost predicate GoesOn(s0: State, order: seq<int>, l: int)
    requires AgentOrder(order, |s0.agents|)
  {
    && 0 <= l < |order| - 1 - l
    && s0.agents[order[|order| - 1 - l]].load - s0.agents[order[l]].load >= 0.5
  }

  /** The first pair from l on at which the sweep stops. */
  ghost function SweepStop(s0: State, order: seq<int>, l: nat): (r: nat)
    requires AgentOrder(order, |s0.agents|)
    ensures l <= r && !GoesOn(s0, order, r)
    ensures forall k :: l <= k < r ==> GoesOn(s0, order, k)
    ensures r == l || 2 * r <= |order|
    decreases |order| - l
  {
    if GoesOn(s0, order, l) then SweepStop(s0, order, l + 1) else l
  }

  /** The relocation the snapshot assigns to pair l: the first not-started
      module of the l-th most loaded agent, when it has one, goes to the
      l-th least loaded agent; otherwise nothing moves. */
  ghost function PairMove(s0: State, order: seq<int>, l: nat): seq<Relocation>
    requires |s0.status| == |s0.app.modules| && ListsInRange(s0) && AgentOrder(order, |s0.agents|)
    requires l < |order|
  {
    var giver := order[|order| - 1 - l];
    var pick := FirstNotStarted(s0.status, s0.agents[giver].assignedModules);
    if pick.Some? then [Relocation(pick.value, giver, order[l])] else []
  }

  /** The relocations the snapshot assigns to pairs k up to l, in order. */
  ghost function PairMoves(s0: State, order: seq<int>, k: nat, l: nat): seq<Relocation>
    requires |s0.status| == |s0.app.modules| && ListsInRange(s0) && AgentOrder(order, |s0.agents|)
    requires k <= l <= |order|
    decreases l - k
  {
    if k == l then [] else PairMove(s0, order, k) + PairMoves(s0, order, k + 1, l)
  }

  /** The sweep has gone on past each of its first l pairs, and its
      relocations are exactly those the snapshot assigns to them. */
  ghost predicate SweepTrace(s0: State, order: seq<int>, l: int, moves: seq<Relocation>) {
    && |s0.status| == |s0.app.modules| && ListsInRange(s0) && AgentOrder(order, |s0.agents|)
    && 0 <= l <= |order|
    && moves == PairMoves(s0, order, 0, l)
    && (forall k :: 0 <= k < l ==> GoesOn(s0, order, k))
  }

  /** One more pair appends its relocation, if any, at the end. */
  lemma {:induction false} PairMovesSnoc(s0: State, order: seq<int>, k: nat, l: nat)
    requires |s0.status| == |s0.app.modules| && ListsInRange(s0) && AgentOrder(order, |s0.agents|)
    requires k <= l < |order|
    ensures PairMoves(s0, order, k, l + 1) == PairMoves(s0, order, k, l) + PairMove(s0, order, l)
    decreases l - k
  {
    if k < l {
      PairMovesSnoc(s0, order, k + 1, l);
      var a, b, c := PairMove(s0, order, k), PairMoves(s0, order, k + 1, l), PairMove(s0, order, l);
      calc {
        PairMoves(s0, order, k, l + 1);
        a + PairMoves(s0, order, k + 1, l + 1);
        a + (b + c);
        { assert a + (b + c) == (a + b) + c; }
        (a + b) + c;
        PairMoves(s0, order, k, l) + c;
      }
    } else {
      assert PairMoves(s0, order, l, l + 1) == PairMove(s0, order, l) + [];
    }
  }

  /** The snapshot with the relocations of the pairs before l applied in
      order. */
  ghost function ReplayPairs(s0: State, order: seq<int>, l: nat): (r: State)
    requires |s0.status| == |s0.app.modules| && ListsInRange(s0) && AgentOrder(order, |s0.agents|)
    requires 2 * l <= |order|
    ensures r.app == s0.app && r.status == s0.status && |r.agents| == |s0.agents|
    decreases l
  {
    if l == 0 then s0
    else
      var s := ReplayPairs(s0, order, l - 1);
      var giver := order[|order| - l];
      var pick := FirstNotStarted(s0.status, s0.agents[giver].assignedModules);
      if pick.Some? then
        assert order[|order| - l] != order[l - 1];
        Move(s, pick.value, giver, order[l - 1])
      else s
  }

  /** Replaying the pairs before l leaves the agents of the later pairs as
      they were in the snapshot. */
  lemma {:induction false} ReplayKeeps(s0: State, order: seq<int>, l: nat, i: int)
    requires |s0.status| == |s0.app.modules| && ListsInRange(s0) && AgentOrder(order, |s0.agents|)
    requires 2 * l <= |order| && l <= i < |order| - l
    ensures ReplayPairs(s0, order, l).agents[order[i]] == s0.agents[order[i]]
    decreases l
  {
    if l > 0 {
      ReplayKeeps(s0, order, l - 1, i);
      assert order[i] != order[|order| - l] && order[i] != order[l - 1];
    }
  }

  /** The pointer loop after left pairs: it went on past each of them, its
      live state is the snapshot with their relocations replayed, and its
      relocations are exactly theirs. */
  ghost predicate Replayed(s0: State, order: seq<int>, left: int, right: int, s: State, moves: seq<Relocation>) {
    && SweepTrace(s0, order, left, moves)
    && right == |order| - 1 - left && left <= right + 1
    && s == ReplayPairs(s0, order, left)
  }

  /** At a pair the loop goes on past, the live pair is the snapshot's. */
  lemma ReplayedPair(s0: State, order: seq<int>, left: int, right: int, s: State, moves: seq<Relocation>)
    requires Replayed(s0, order, left, right, s, moves) && left < right
    ensures 0 <= left && 0 <= order[left] < |s.agents| && 0 <= order[right] < |s.agents| && order[left] != order[right]
    ensures s.agents[order[left]] == s0.agents[order[left]] && s.agents[order[right]] == s0.agents[order[right]]
    ensures s.status == s0.status && s.app == s0.app && |s.agents| == |s0.agents|
  {
    ReplayKeeps(s0, order, left, left);
    ReplayKeeps(s0, order, left, right);
  }

  /** A pair whose live loads differ by at least 0.5 and whose loaded agent
      has a not-started module adds the snapshot's relocation for the pair;
      l and r are the next pointers. */
  lemma ReplayTake(s0: State, order: seq<int>, left: int, right: int, l: int, r: int,
                   s: State, moves: seq<Relocation>, m: int)
    requires Replayed(s0, order, left, right, s, moves) && left < right && l == left + 1 && r == right - 1
    requires 0 <= order[left] < |s.agents| && 0 <= order[right] < |s.agents|
    requires s.agents[order[right]] == s0.agents[order[right]] && s.status == s0.status
    requires s.agents[order[right]].load - s.agents[order[left]].load >= 0.5
    requires FirstNotStarted(s.status, s.agents[order[right]].assignedModules) == Some(m)
    ensures 0 <= m < |s.app.modules| && order[right] != order[left]
    ensures Replayed(s0, order, l, r, Move(s, m, order[right], order[left]),
                     moves + [Relocation(m, order[right], order[left])])
  {
    ReplayedPair(s0, order, left, right, s, moves);
    ReplayStep(s0, order, left, right, l);
    GoesOnLoads(s0, order, left, right, s.agents[order[right]].load, s.agents[order[left]].load);
  }

  /** A pair whose live loads differ by at least 0.5 and whose loaded agent
      has no not-started module adds nothing; l and r are the next
      pointers. */
  lemma ReplaySkip(s0: State, order: seq<int>, left: int, right: int, l: int, r: int,
                   s: State, moves: seq<Relocation>)
    requires Replayed(s0, order, left, right, s, moves) && left < right && l == left + 1 && r == right - 1
    requires 0 <= order[left] < |s.agents| && 0 <= order[right] < |s.agents|
    requires s.agents[order[right]] == s0.agents[order[right]] && s.status == s0.status
    requires s.agents[order[right]].load - s.agents[order[left]].load >= 0.5
    requires FirstNotStarted(s.status, s.agents[order[right]].assignedModules).None?
    ensures Replayed(s0, order, l, r, s, moves)
  {
    ReplayedPair(s0, order, left, right, s, moves);
    ReplayStep(s0, order, left, right, l);
    GoesOnLoads(s0, order, left, right, s.agents[order[right]].load, s.agents[order[left]].load);
  }

  /** One more pair, replayed: the relocation the snapshot assigns to pair
      k (whose loaded agent is order[right]) is applied to the state after
      the pairs before it, and appended to their relocations. */
  lemma ReplayStep(s0: State, order: seq<int>, k: nat, right: int, l: nat)
    requires |s0.status| == |s0.app.modules| && ListsInRange(s0) && AgentOrder(order, |s0.agents|)
    requires l == k + 1 && 2 * l <= |order| && right == |order| - 1 - k
    ensures PairMoves(s0, order, 0, l) == PairMoves(s0, order, 0, k) + PairMove(s0, order, k)
    ensures FirstNotStarted(s0.status, s0.agents[order[right]].assignedModules).Some? ==>
      && PairMoves(s0, order, 0, l) == PairMoves(s0, order, 0, k) +
           [Relocation(FirstNotStarted(s0.status, s0.agents[order[right]].assignedModules).value, order[right], order[k])]
      && ReplayPairs(s0, order, l) ==
           Move(ReplayPairs(s0, order, k), FirstNotStarted(s0.status, s0.agents[order[right]].assignedModules).value,
                order[right], order[k])
    ensures FirstNotStarted(s0.status, s0.agents[order[right]].assignedModules).None? ==>
      PairMoves(s0, order, 0, l) == PairMoves(s0, order, 0, k) && ReplayPairs(s0, order, l) == ReplayPairs(s0, order, k)
  {
    PairMovesSnoc(s0, order, 0, k);
    assert PairMoves(s0, order, 0, k) + [] == PairMoves(s0, order, 0, k);
  }

  /** The sweep invariant depends on the pointers, the state and the
      relocations only through their values. */
  lemma SweepStateSubst(s0: State, order: seq<int>, left: int, right: int, s: State, moves: seq<Relocation>,
                        l: int, r: int, t: State, ms: seq<Relocation>)
    requires SweepState(s0, order, left, right, s, moves) && l == left && r == right && t == s && ms == moves
    ensures SweepState(s0, order, l, r, t, ms)
  {
  }

  /** The replayed state and relocations of the first l pairs satisfy the
      sweep invariant, when the sweep went on past each of them. */
  lemma {:induction false} SweepStateReplay(s0: State, order: seq<int>, l: nat)
    requires |s0.status| == |s0.app.modules| && ListsInRange(s0) && AgentOrder(order, |s0.agents|)
    requires 2 * l <= |order| && forall k :: 0 <= k < l ==> GoesOn(s0, order, k)
    ensures SweepState(s0, order, l, |order| - 1 - l, ReplayPairs(s0, order, l), PairMoves(s0, order, 0, l))
    decreases l
  {
    if l == 0 {
      SweepStateStart(s0, order);
    } else {
      var k := l - 1;
      SweepStateReplay(s0, order, k);
      SweepStateReplayStep(s0, order, k, l);
    }
  }

  /** Replaying one more pair the sweep goes on past keeps the sweep
      invariant. */
  lemma SweepStateReplayStep(s0: State, order: seq<int>, k: nat, l: nat)
    requires |s0.status| == |s0.app.modules| && ListsInRange(s0) && AgentOrder(order, |s0.agents|)
    requires l == k + 1 && 2 * l <= |order| && GoesOn(s0, order, k)
    requires SweepState(s0, order, k, |order| - 1 - k, ReplayPairs(s0, order, k), PairMoves(s0, order, 0, k))
    ensures SweepState(s0, order, l, |order| - 1 - l, ReplayPairs(s0, order, l), PairMoves(s0, order, 0, l))
  {
    var right := |order| - 1 - k;
    ReplayStep(s0, order, k, right, l);
    SweepStateStep(s0, order, k, right, l, ReplayPairs(s0, order, k), PairMoves(s0, order, 0, k),
      ReplayPairs(s0, order, l), PairMoves(s0, order, 0, l));
  }

  /** A pair the sweep goes on past, with the snapshot's relocation for it
      applied when there is one, keeps the sweep invariant. */
  lemma SweepStateStep(s0: State, order: seq<int>, k: int, right: int, l: int, s: State, moves: seq<Relocation>,
                       t: State, ms: seq<Relocation>)
    requires right == |order| - 1 - k && l == k + 1
    requires SweepState(s0, order, k, |order| - 1 - k, s, moves) && GoesOn(s0, order, k)
    requires FirstNotStarted(s0.status, s0.agents[order[right]].assignedModules).Some? ==>
      && t == Move(s, FirstNotStarted(s0.status, s0.agents[order[right]].assignedModules).value, order[right], order[k])
      && ms == moves + [Relocation(FirstNotStarted(s0.status, s0.agents[order[right]].assignedModules).value,
                                   order[right], order[k])]
    requires FirstNotStarted(s0.status, s0.agents[order[right]].assignedModules).None? ==> t == s && ms == moves
    ensures SweepState(s0, order, l, |order| - 1 - l, t, ms)
  {
    SweepPairLoads(s0, order, k, right, s, moves);
    GoesOnLoads(s0, order, k, right, s.agents[order[right]].load, s.agents[order[k]].load);
    var pick := FirstNotStarted(s0.status, s0.agents[order[right]].assignedModules);
    if pick.Some? {
      SweepStateTake(s0, order, k, right, s, moves, pick.value);
      SweepStateSubst(s0, order, k + 1, right - 1,
        Move(s, pick.value, order[right], order[k]), moves + [Relocation(pick.value, order[right], order[k])],
        l, |order| - 1 - l, t, ms);
    } else {
      SweepStateSkip(s0, order, k, right, s, moves);
      SweepStateSubst(s0, order, k + 1, right - 1, s, moves, l, |order| - 1 - l, t, ms);
    }
  }

  /** The first pair from l0 on at which the sweep does not go on is where
      it stops. */
  lemma {:induction false} SweepStopIsFirst(s0: State, order: seq<int>, l0: nat, l: int)
    requires AgentOrder(order, |s0.agents|)
    requires l0 <= l && !GoesOn(s0, order, l)
    requires forall k :: l0 <= k < l ==> GoesOn(s0, order, k)
    ensures SweepStop(s0, order, l0) == l
    decreases l - l0
  {
    if l0 < l {
      assert GoesOn(s0, order, l0);
      SweepStopIsFirst(s0, order, l0 + 1, l);
    }
  }

  /** Where the sweep does not go on, it has made exactly the relocations of
      the pairs before the first pair at which the snapshot says it stops. */
  lemma SweepTraceStops(s0: State, order: seq<int>, l: int, moves: seq<Relocation>)
    requires SweepTrace(s0, order, l, moves) && !GoesOn(s0, order, l)
    ensures l == SweepStop(s0, order, 0)
    ensures moves == PairMoves(s0, order, 0, SweepStop(s0, order, 0))
  {
    SweepStopIsFirst(s0, order, 0, l);
  }

  /** The pair under the pointers is as it was in the snapshot, so the
      loop's live test and pick are the snapshot's. */
  lemma SweepPairSnapshot(s0: State, order: seq<int>, left: int, right: int, s: State, moves: seq<Relocation>)
    requires SweepState(s0, order, left, right, s, moves)
    ensures right == |order| - 1 - left
    ensures GoesOn(s0, order, left) <==> left < right && s.agents[order[right]].load - s.agents[order[left]].load >= 0.5
    ensures left < right ==> (ListsInRange(s) &&
      FirstNotStarted(s.status, s.agents[order[right]].assignedModules) ==
      FirstNotStarted(s0.status, s0.agents[order[right]].assignedModules))
  {
    if left < right {
      SweepPairLoads(s0, order, left, right, s, moves);
      GoesOnLoads(s0, order, left, right, s.agents[order[right]].load, s.agents[order[left]].load);
    }
  }

  lemma SweepPairLoads(s0: State, order: seq<int>, left: int, right: int, s: State, moves: seq<Relocation>)
    requires SweepState(s0, order, left, right, s, moves) && left < right
    ensures AgentOrder(order, |s0.agents|) && right == |order| - 1 - left && 0 <= left
    ensures s.agents[order[right]].load == s0.agents[order[right]].load
    ensures s.agents[order[left]].load == s0.agents[order[left]].load
    ensures ListsInRange(s)
    ensures FirstNotStarted(s.status, s.agents[order[right]].assignedModules) ==
      FirstNotStarted(s0.status, s0.agents[order[right]].assignedModules)
  {
  }

  /** GoesOn at a pair, read off the pair's two loads. */
  lemma GoesOnLoads(s0: State, order: seq<int>, left: int, right: int, hi: real, lo: real)
    requires AgentOrder(order, |s0.agents|) && 0 <= left < right && right == |order| - 1 - left
    requires hi == s0.agents[order[right]].load && lo == s0.agents[order[left]].load
    ensures GoesOn(s0, order, left) <==> hi - lo >= 0.5
  {
  }

  /** Everything the global sweep keeps between iterations. */
  ghost predicate SweepState(s0: State, order: seq<int>, left: int, right: int, s: State, moves: seq<Relocation>) {
    && Swept(s0, order, left, right, s, moves)
    && s.ready == s0.ready && s.finish == s0.finish && ListsInRange(s)
    && TotalLoad(s.agents) == TotalLoad(s0.agents)
    && |moves| <= left
    && s.owner == ApplyOwners(s0.owner, moves)
    && (Consistent(s0) ==> Consistent(s))
    && (left == 0 ==> s == s0 && moves == [])
    && (|order| >= 2 && s0.agents[order[|order| - 1]].load - s0.agents[order[0]].load < 0.5 ==> left == 0)
    && (left > 0 ==> FirstMoveIs(s0, order, moves))
  }

  lemma SweepStateStart(s0: State, order: seq<int>)
    requires |s0.status| == |s0.app.modules| && ListsInRange(s0) && AgentOrder(order, |s0.agents|)
    ensures SweepState(s0, order, 0, |order| - 1, s0, [])
  {
  }

  lemma SweepStateSkip(s0: State, order: seq<int>, left: int, right: int, s: State, moves: seq<Relocation>)
    requires SweepState(s0, order, left, right, s, moves) && left < right
    requires s.agents[order[right]].load - s.agents[order[left]].load >= 0.5
    requires FirstNotStarted(s.status, s.agents[order[right]].assignedModules).None?
    ensures SweepState(s0, order, left + 1, right - 1, s, moves)
  {
    SweptSkip(s0, order, left, right, s, moves);
  }

  lemma SweepStateTake(s0: State, order: seq<int>, left: int, right: int, s: State, moves: seq<Relocation>, m: int)
    requires SweepState(s0, order, left, right, s, moves) && left < right
    requires s.agents[order[right]].load - s.agents[order[left]].load >= 0.5
    requires FirstNotStarted(s.status, s.agents[order[right]].assignedModules) == Some(m)
    ensures 0 <= m < |s.app.modules| && order[right] != order[left]
    ensures SweepState(s0, order, left + 1, right - 1, Move(s, m, order[right], order[left]),
                       moves + [Relocation(m, order[right], order[left])])
  {
    var hi := order[right];
    var lo := order[left];
    SweptTake(s0, order, left, right, s, moves, m);
    SweepTakeBooks(s0, order, left, right, s, moves, m);
    SweepTakeFirst(s0, order, left, right, s, moves, m);
  }

  /** The bookkeeping part of one relocation step: lists stay in range, the
      total load and the owner map follow the relocation, and consistency
      is kept. */
  lemma SweepTakeBooks(s0: State, order: seq<int>, left: int, right: int, s: State, moves: seq<Relocation>, m: int)
    requires SweepState(s0, order, left, right, s, moves) && left < right
    requires FirstNotStarted(s.status, s.agents[order[right]].assignedModules) == Some(m)
    ensures 0 <= m < |s.app.modules| && order[right] != order[left]
    ensures var t := Move(s, m, order[right], order[left]);
      && ListsInRange(t)
      && TotalLoad(t.agents) == TotalLoad(s0.agents)
      && t.owner == ApplyOwners(s0.owner, moves + [Relocation(m, order[right], order[left])])
      && (Consistent(s0) ==> Consistent(t))
  {
    var hi := order[right];
    var lo := order[left];
    assert m in s.agents[hi].assignedModules;
    MoveInRange(s, m, hi, lo);
    ApplyOwnersSnoc(s0.owner, moves, Relocation(m, hi, lo));
    if Consistent(s0) {
      var k :| 0 <= k < |s.agents[hi].assignedModules| && s.agents[hi].assignedModules[k] == m;
      MoveConsistent(s, m, hi, lo);
    }
  }

  /** The first relocation step fixes the first relocation for good. */
  lemma SweepTakeFirst(s0: State, order: seq<int>, left: int, right: int, s: State, moves: seq<Relocation>, m: int)
    requires SweepState(s0, order, left, right, s, moves) && left < right
    requires s.agents[order[right]].load - s.agents[order[left]].load >= 0.5
    requires FirstNotStarted(s.status, s.agents[order[right]].assignedModules) == Some(m)
    ensures |order| >= 2 && s0.agents[order[|order| - 1]].load - s0.agents[order[0]].load < 0.5 ==> left + 1 == 0
    ensures FirstMoveIs(s0, order, moves + [Relocation(m, order[right], order[left])])
  {
    var ms := moves + [Relocation(m, order[right], order[left])];
    if left > 0 && |moves| > 0 {
      assert ms[0] == moves[0];
    }
  }

  /** Where the sweep stops, the relocations made so far are all it makes. */
  lemma SweepStateDone(s0: State, left: int, right: int, s: State, moves: seq<Relocation>)
    requires SweepState(s0, SortByLoad(s0.agents), left, right, s, moves)
    ensures s.app == s0.app && s.status == s0.status && s.ready == s0.ready && s.finish == s0.finish
    ensures |s.agents| == |s0.agents| && ListsInRange(s)
    ensures TotalLoad(s.agents) == TotalLoad(s0.agents)
    ensures 2 * |moves| <= |s0.agents|
    ensures AllValid(s0, moves) && PairwiseApart(moves)
    ensures Effects(s0, s, moves)
    ensures s.owner == ApplyOwners(s0.owner, moves)
    ensures Consistent(s0) ==> Consistent(s)
  {
  }

  /** Where the sweep stops, its first pair decided whether it moved
      anything, and what it moved first. */
  lemma SweepStateEnds(s0: State, left: int, right: int, s: State, moves: seq<Relocation>)
    requires SweepState(s0, SortByLoad(s0.agents), left, right, s, moves)
    requires left >= right ||
      s.agents[SortByLoad(s0.agents)[right]].load - s.agents[SortByLoad(s0.agents)[left]].load < 0.5
    ensures (|s0.agents| >= 2 ==> s0.agents[Heaviest(s0.agents)].load - s0.agents[FindLeastLoaded(s0.agents)].load < 0.5) ==>
      s == s0 && moves == []
    ensures (&& |s0.agents| >= 2
             && s0.agents[Heaviest(s0.agents)].load - s0.agents[FindLeastLoaded(s0.agents)].load >= 0.5
             && FirstNotStarted(s0.status, s0.agents[Heaviest(s0.agents)].assignedModules).Some?) ==>
      && |moves| >= 1
      && moves[0] == Relocation(FirstNotStarted(s0.status, s0.agents[Heaviest(s0.agents)].assignedModules).value,
                                Heaviest(s0.agents), FindLeastLoaded(s0.agents))
  {
    SweepStateKeeps(s0, SortByLoad(s0.agents), left, right, s, moves);
    SweepEndsAtPicks(s0, left, s, moves);
  }

  /** SweepEndsByOrder, with the ends of the sorted order read as the
      heaviest and the least loaded agent. */
  lemma SweepEndsAtPicks(s0: State, left: int, s: State, moves: seq<Relocation>)
    requires |s0.status| == |s0.app.modules| && ListsInRange(s0)
    requires AgentOrder(SortByLoad(s0.agents), |s0.agents|)
    requires left >= 0 && (|s0.agents| < 2 ==> left == 0)
    requires left == 0 ==> s == s0 && moves == []
    requires (&& |s0.agents| >= 2
              && s0.agents[SortByLoad(s0.agents)[|s0.agents| - 1]].load - s0.agents[SortByLoad(s0.agents)[0]].load < 0.5)
      ==> left == 0
    requires left > 0 ==> FirstMoveIs(s0, SortByLoad(s0.agents), moves)
    requires left == 0 && |s0.agents| >= 2 ==>
      s0.agents[SortByLoad(s0.agents)[|s0.agents| - 1]].load - s0.agents[SortByLoad(s0.agents)[0]].load < 0.5
    ensures (|s0.agents| >= 2 ==> s0.agents[Heaviest(s0.agents)].load - s0.agents[FindLeastLoaded(s0.agents)].load < 0.5) ==>
      s == s0 && moves == []
    ensures (&& |s0.agents| >= 2
             && s0.agents[Heaviest(s0.agents)].load - s0.agents[FindLeastLoaded(s0.agents)].load >= 0.5
             && FirstNotStarted(s0.status, s0.agents[Heaviest(s0.agents)].assignedModules).Some?) ==>
      && |moves| >= 1
      && moves[0] == Relocation(FirstNotStarted(s0.status, s0.agents[Heaviest(s0.agents)].assignedModules).value,
                                Heaviest(s0.agents), FindLeastLoaded(s0.agents))
  {
    var order := SortByLoad(s0.agents);
    var n := |order|;
    if n > 0 {
      SortByLoadStartsWithLeast(s0.agents);
      assert Heaviest(s0.agents) == order[n - 1];
    }
    SweepEndsByOrder(s0, order, left, s, moves);
  }

  /** The three facts about the start of the sweep that SweepState keeps,
      with the stopping pair read at the start when nothing has moved. */
  lemma SweepStateKeeps(s0: State, order: seq<int>, left: int, right: int, s: State, moves: seq<Relocation>)
    requires SweepState(s0, order, left, right, s, moves)
    ensures AgentOrder(order, |s0.agents|) && |s0.status| == |s0.app.modules| && ListsInRange(s0)
    ensures left == 0 ==> s == s0 && moves == []
    ensures |order| >= 2 && s0.agents[order[|order| - 1]].load - s0.agents[order[0]].load < 0.5 ==> left == 0
    ensures left > 0 ==> FirstMoveIs(s0, order, moves)
    ensures left >= 0 && (|order| < 2 ==> left == 0)
    ensures left == 0 && |order| >= 2 ==>
      (left >= right || s.agents[order[right]].load - s.agents[order[left]].load < 0.5) ==
      (s0.agents[order[|order| - 1]].load - s0.agents[order[0]].load < 0.5)
  {
  }

  /** The end of the sweep in terms of the ends of the sorted order. */
  lemma SweepEndsByOrder(s0: State, order: seq<int>, left: int, s: State, moves: seq<Relocation>)
    requires AgentOrder(order, |s0.agents|) && |s0.status| == |s0.app.modules| && ListsInRange(s0)
    requires left >= 0 && (|order| < 2 ==> left == 0)
    requires left == 0 ==> s == s0 && moves == []
    requires |order| >= 2 && s0.agents[order[|order| - 1]].load - s0.agents[order[0]].load < 0.5 ==> left == 0
    requires left > 0 ==> FirstMoveIs(s0, order, moves)
    requires left == 0 && |order| >= 2 ==> s0.agents[order[|order| - 1]].load - s0.agents[order[0]].load < 0.5
    ensures (|order| >= 2 ==> s0.agents[order[|order| - 1]].load - s0.agents[order[0]].load < 0.5) ==>
      s == s0 && moves == []
    ensures (&& |order| >= 2
             && s0.agents[order[|order| - 1]].load - s0.agents[order[0]].load >= 0.5
             && FirstNotStarted(s0.status, s0.agents[order[|order| - 1]].assignedModules).Some?) ==>
      && |moves| >= 1
      && moves[0] == Relocation(FirstNotStarted(s0.status, s0.agents[order[|order| - 1]].assignedModules).value,
                                order[|order| - 1], order[0])
  {
  }

  /** dynamicRebalance(-1, -1): agents are sorted by a snapshot of their
      loads; then, pairing the most loaded remaining agent with the least
      loaded one and stepping both pointers inwards, the sweep stops at the
      first pair whose live loads differ by less than 0.5 and otherwise moves
      the loaded agent's first not-started module (if it has one) to the
      free agent. */
  method RebalanceGlobal(s0: State) returns (s: State, moves: seq<Relocation>)
    requires |s0.status| == |s0.app.modules| && ListsInRange(s0)
    ensures s.app == s0.app && s.status == s0.status && s.ready == s0.ready && s.finish == s0.finish
    ensures |s.agents| == |s0.agents| && ListsInRange(s)
    ensures TotalLoad(s.agents) == TotalLoad(s0.agents)
    ensures 2 * |moves| <= |s0.agents|
    ensures AllValid(s0, moves) && PairwiseApart(moves)
    ensures Effects(s0, s, moves)
    ensures s.owner == ApplyOwners(s0.owner, moves)
    ensures Consistent(s0) ==> Consistent(s)
    ensures (|s0.agents| >= 2 ==> s0.agents[Heaviest(s0.agents)].load - s0.agents[FindLeastLoaded(s0.agents)].load < 0.5) ==>
      s == s0 && moves == []
    ensures (&& |s0.agents| >= 2
             && s0.agents[Heaviest(s0.agents)].load - s0.agents[FindLeastLoaded(s0.agents)].load >= 0.5
             && FirstNotStarted(s0.status, s0.agents[Heaviest(s0.agents)].assignedModules).Some?) ==>
      && |moves| >= 1
      && moves[0] == Relocation(FirstNotStarted(s0.status, s0.agents[Heaviest(s0.agents)].assignedModules).value,
                                Heaviest(s0.agents), FindLeastLoaded(s0.agents))
    ensures moves == PairMoves(s0, SortByLoad(s0.agents), 0, SweepStop(s0, SortByLoad(s0.agents), 0))
  {
    var order, left, right;
    s, moves, order, left, right := Sweep(s0);
    SweepStateDone(s0, left, right, s, moves);
    SweepStateEnds(s0, left, right, s, moves);
    SweepEndsAtStop(s0, left, right, s, moves);
  }

  /** The pointer loop of the global sweep. */
  method Sweep(s0: State) returns (s: State, moves: seq<Relocation>, order: seq<int>, left: int, right: int)
    requires |s0.status| == |s0.app.modules| && ListsInRange(s0)
    ensures order == SortByLoad(s0.agents)
    ensures SweepState(s0, order, left, right, s, moves)
    ensures SweepTrace(s0, order, left, moves)
    ensures left >= right || s.agents[order[right]].load - s.agents[order[left]].load < 0.5
  {
    s, moves, order, left, right := SweepLoop(s0);
    SweepReplayed(s0, order, left, right, s, moves);
  }

  /** The loop itself: sort a snapshot of the loads, then walk the pointers
      inwards, moving the loaded agent's first not-started module to the
      free agent, until they meet or the live gap drops below 0.5. */
  method SweepLoop(s0: State) returns (s: State, moves: seq<Relocation>, order: seq<int>, left: int, right: int)
    requires |s0.status| == |s0.app.modules| && ListsInRange(s0)
    ensures order == SortByLoad(s0.agents)
    ensures Replayed(s0, order, left, right, s, moves)
    ensures left >= right || (0 <= order[left] < |s.agents| && 0 <= order[right] < |s.agents| &&
      s.agents[order[right]].load - s.agents[order[left]].load < 0.5)
  {
    order := SortByLoad(s0.agents);
    left, right := 0, |order| - 1;
    s, moves := s0, [];
    while left < right
      invariant Replayed(s0, order, left, right, s, moves)
      decreases right - left
    {
      ReplayedPair(s0, order, left, right, s, moves);
      var hi, lo := order[right], order[left];
      if s.agents[hi].load - s.agents[lo].load < 0.5 {
        return;
      }
      var pick := FirstNotStarted(s.status, s.agents[hi].assignedModules);
      var l, r := left + 1, right - 1;
      if pick.Some? {
        ReplayTake(s0, order, left, right, l, r, s, moves, pick.value);
        s := Move(s, pick.value, hi, lo);
        moves := moves + [Relocation(pick.value, hi, lo)];
      } else {
        ReplaySkip(s0, order, left, right, l, r, s, moves);
      }
      left, right := l, r;
    }
  }

  /** The loop's replayed state satisfies the sweep invariant. */
  lemma SweepReplayed(s0: State, order: seq<int>, left: int, right: int, s: State, moves: seq<Relocation>)
    requires Replayed(s0, order, left, right, s, moves)
    ensures SweepState(s0, order, left, right, s, moves) && SweepTrace(s0, order, left, moves)
  {
    SweepStateReplay(s0, order, left);
  }

  /** Where the loop leaves, the snapshot says the sweep stops, so the
      relocations made are those of the pairs before the stopping pair. */
  lemma SweepEndsAtStop(s0: State, left: int, right: int, s: State, moves: seq<Relocation>)
    requires SweepState(s0, SortByLoad(s0.agents), left, right, s, moves)
    requires SweepTrace(s0, SortByLoad(s0.agents), left, moves)
    requires left >= right ||
      s.agents[SortByLoad(s0.agents)[right]].load - s.agents[SortByLoad(s0.agents)[left]].load < 0.5
    ensures left == SweepStop(s0, SortByLoad(s0.agents), 0)
    ensures moves == PairMoves(s0, SortByLoad(s0.agents), 0, SweepStop(s0, SortByLoad(s0.agents), 0))
  {
    SweepPairSnapshot(s0, SortByLoad(s0.agents), left, right, s, moves);
    SweepTraceStops(s0, SortByLoad(s0.agents), left, moves);
  }

  /** A valid relocation's module is mapped to the giving agent before the
      sweep. */
  lemma MovedModuleOwnedByGiver(s: State, mv: Relocation)
    requires ListsMatchOwner(s) && MoveValid(s, mv)
    ensures mv.moduleId in s.owner && s.owner[mv.moduleId] == mv.from
  {
    var ms := s.agents[mv.from].assignedModules;
    var k :| 0 <= k < |ms| && ms[k] == mv.moduleId;
  }

  /** Every relocated module ends up mapped to the agent that received it,
      and every other module keeps its mapping. */
  lemma RelocatedOwners(s0: State, s: State, moves: seq<Relocation>)
    requires ListsMatchOwner(s0) && AllValid(s0, moves) && PairwiseApart(moves)
    requires s.owner == ApplyOwners(s0.owner, moves)
    ensures forall k :: 0 <= k < |moves| ==> moves[k].moduleId in s.owner && s.owner[moves[k].moduleId] == moves[k].to
    ensures forall x :: x in s0.owner && !(exists k :: 0 <= k < |moves| && moves[k].moduleId == x) ==>
      x in s.owner && s.owner[x] == s0.owner[x]
  {
    forall i, j | 0 <= i < j < |moves|
      ensures moves[i].moduleId != moves[j].moduleId
    {
      MovedModuleOwnedByGiver(s0, moves[i]);
      MovedModuleOwnedByGiver(s0, moves[j]);
    }
    forall k | 0 <= k < |moves|
      ensures s.owner[moves[k].moduleId] == moves[k].to
    {
      ApplyOwnersMoved(s0.owner, moves, k);
    }
    forall x | x in s0.owner && !(exists k :: 0 <= k < |moves| && moves[k].moduleId == x)
      ensures x in s.owner && s.owner[x] == s0.owner[x]
    {
      ApplyOwnersUnmoved(s0.owner, moves, x);
    }
  }
}
