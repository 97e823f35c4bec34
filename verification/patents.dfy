/** Patent trading: n agents each hold m patents, dealt as a shuffled n x m
    table in which every agent id appears m times. Agents trade one patent
    at a time, each trying to collect m copies of its own id. The driving
    loop and the random draws are not part of this model; the draws of the
    shuffle are a parameter. */
module Patents {

  /** An agent: its id (its position in the table), the patents it holds,
      the number of trades it took part in, and whether it is finished. */
  datatype Agent = Agent(id: int, patents: seq<int>, countIter: int, complete: bool)

  // ---------------------------------------------------------------------
  // The patent table
  // ---------------------------------------------------------------------

  /** An n x m table. */
  ghost predicate Shape(p: seq<seq<int>>, n: int, m: int) {
    |p| == n && forall r :: 0 <= r < |p| ==> |p[r]| == m
  }

  /** The table's cells, row after row. */
  function Flatten(p: seq<seq<int>>): seq<int> {
    if p == [] then [] else Flatten(p[..|p| - 1]) + p[|p| - 1]
  }

  /** How often x occurs in s. */
  function Count(s: seq<int>, x: int): nat {
    multiset(s)[x]
  }

  /** Overwriting one element trades one occurrence of its old value for
      one of the new value. */
  lemma UpdateCount(s: seq<int>, i: int, v: int, z: int)
    requires 0 <= i < |s|
    ensures Count(s[i := v], z) + (if z == s[i] then 1 else 0) == Count(s, z) + (if z == v then 1 else 0)
  {
    assert s == s[..i] + [s[i]] + s[i + 1..];
    assert s[i := v] == s[..i] + [v] + s[i + 1..];
  }

  /** Overwriting one cell trades one occurrence of that cell's value for
      one of the new value among the table's cells. */
  lemma {:induction false} FlattenUpdate(p: seq<seq<int>>, r: int, c: int, v: int, z: int)
    requires 0 <= r < |p| && 0 <= c < |p[r]|
    ensures Count(Flatten(p[r := p[r][c := v]]), z) + (if z == p[r][c] then 1 else 0) ==
      Count(Flatten(p), z) + (if z == v then 1 else 0)
    decreases |p|
  {
    var last := |p| - 1;
    var u := p[r := p[r][c := v]];
    assert Flatten(u) == Flatten(u[..last]) + u[last];
    assert Flatten(p) == Flatten(p[..last]) + p[last];
    if r == last {
      assert u[..last] == p[..last];
      UpdateCount(p[r], c, v, z);
    } else {
      assert u[..last] == p[..last][r := p[r][c := v]];
      assert u[last] == p[last];
      FlattenUpdate(p[..last], r, c, v, z);
    }
  }

  /** Swapping two cells keeps the table's multiset of cells. */
  function SwapCells(p: seq<seq<int>>, r1: int, c1: int, r2: int, c2: int): (q: seq<seq<int>>)
    requires 0 <= r1 < |p| && 0 <= c1 < |p[r1]|
    requires 0 <= r2 < |p| && 0 <= c2 < |p[r2]|
    ensures |q| == |p| && forall r :: 0 <= r < |p| ==> |q[r]| == |p[r]|
    ensures multiset(Flatten(q)) == multiset(Flatten(p))
  {
    var temp := p[r1][c1];
    var p1 := p[r1 := p[r1][c1 := p[r2][c2]]];
    SwapCount(p, r1, c1, r2, c2);
    p1[r2 := p1[r2][c2 := temp]]
  }

  lemma SwapCount(p: seq<seq<int>>, r1: int, c1: int, r2: int, c2: int)
    requires 0 <= r1 < |p| && 0 <= c1 < |p[r1]|
    requires 0 <= r2 < |p| && 0 <= c2 < |p[r2]|
    ensures var p1 := p[r1 := p[r1][c1 := p[r2][c2]]];
      multiset(Flatten(p1[r2 := p1[r2][c2 := p[r1][c1]]])) == multiset(Flatten(p))
  {
    var temp := p[r1][c1];
    var x := p[r2][c2];
    var p1 := p[r1 := p[r1][c1 := x]];
    var q := p1[r2 := p1[r2][c2 := temp]];
    assert p1[r2][c2] == x;
    forall z
      ensures multiset(Flatten(q))[z] == multiset(Flatten(p))[z]
    {
      FlattenUpdate(p, r1, c1, x, z);
      FlattenUpdate(p1, r2, c2, temp, z);
      assert Count(Flatten(q), z) + (if z == x then 1 else 0) == Count(Flatten(p1), z) + (if z == temp then 1 else 0);
      assert Count(Flatten(p1), z) + (if z == temp then 1 else 0) == Count(Flatten(p), z) + (if z == x then 1 else 0);
    }
  }

  /** Row i holds m copies of i. */
  function Rows(n: nat, m: nat): (p: seq<seq<int>>)
    ensures Shape(p, n, m)
  {
    seq(n, i => seq(m, _ => i))
  }

  lemma {:induction false} ConstantCount(m: nat, i: int, x: int)
    ensures multiset(seq(m, _ => i))[x] == if x == i then m else 0
    decreases m
  {
    if m > 0 {
      assert seq(m, _ => i) == seq(m - 1, _ => i) + [i];
      ConstantCount(m - 1, i, x);
    }
  }

  /** The unshuffled table holds each id below n exactly m times. */
  lemma {:induction false} RowsCount(n: nat, m: nat, x: int)
    ensures multiset(Flatten(Rows(n, m)))[x] == if 0 <= x < n then m else 0
    decreases n
  {
    if n > 0 {
      assert Rows(n, m)[..n - 1] == Rows(n - 1, m);
      RowsCount(n - 1, m, x);
      ConstantCount(m, n - 1, x);
    }
  }

  /** createPatents: fills row i with m copies of i, then in ten rounds
      visits every cell from the last to the first and swaps it with the
      cell that the round's draw picks (the draw taken modulo n and m).
      `draw(round, i, j)` stands for the two rand() results at that visit.
      Whatever the draws, every id below n ends up m times in the table. */
  method CreatePatents(n: nat, m: nat, draw: (nat, nat, nat) -> (nat, nat)) returns (p: seq<seq<int>>)
    ensures Shape(p, n, m)
    ensures forall x :: multiset(Flatten(p))[x] == if 0 <= x < n then m else 0
  {
    p := Rows(n, m);
    forall x
      ensures multiset(Flatten(p))[x] == if 0 <= x < n then m else 0
    {
      RowsCount(n, m, x);
    }
    ghost var cells := multiset(Flatten(p));
    var round := 0;
    while round < 10
      invariant Shape(p, n, m) && multiset(Flatten(p)) == cells
    {
      var i := n - 1;
      while i >= 0
        invariant -1 <= i < n
        invariant Shape(p, n, m) && multiset(Flatten(p)) == cells
      {
        var j := m - 1;
        while j >= 0
          invariant -1 <= j < m
          invariant Shape(p, n, m) && multiset(Flatten(p)) == cells
        {
          var (rr, rc) := draw(round, i, j);
          p := SwapCells(p, i, j, rr % n, rc % m);
          j := j - 1;
        }
        i := i - 1;
      }
      round := round + 1;
    }
  }

  /** The agents as the driver sets them up: agent i holds row i. */
  function InitAgents(p: seq<seq<int>>): (agents: seq<Agent>)
    ensures |agents| == |p|
    ensures forall i :: 0 <= i < |p| ==> agents[i] == Agent(i, p[i], 0, false)
  {
    seq(|p|, i requires 0 <= i < |p| => Agent(i, p[i], 0, false))
  }

  /** All patents held by the agents, together. */
  function Pool(agents: seq<Agent>): multiset<int> {
    if agents == [] then multiset{}
    else Pool(agents[..|agents| - 1]) + multiset(agents[|agents| - 1].patents)
  }

  lemma {:induction false} PoolOfTable(p: seq<seq<int>>)
    ensures Pool(InitAgents(p)) == multiset(Flatten(p))
    decreases |p|
  {
    if p != [] {
      assert InitAgents(p)[..|p| - 1] == InitAgents(p[..|p| - 1]);
      PoolOfTable(p[..|p| - 1]);
    }
  }

  /** The dealt agents hold, between them, each id below n exactly m times. */
  lemma DealCount(n: nat, m: nat, p: seq<seq<int>>)
    requires Shape(p, n, m)
    requires forall x :: multiset(Flatten(p))[x] == if 0 <= x < n then m else 0
    ensures forall x :: Pool(InitAgents(p))[x] == if 0 <= x < n then m else 0
  {
    PoolOfTable(p);
  }

  /** Replacing one agent trades its patents for the new agent's in the pool. */
  lemma {:induction false} PoolUpdate(agents: seq<Agent>, i: int, x: Agent, z: int)
    requires 0 <= i < |agents|
    ensures Pool(agents[i := x])[z] + Count(agents[i].patents, z) == Pool(agents)[z] + Count(x.patents, z)
    decreases |agents|
  {
    var last := |agents| - 1;
    var u := agents[i := x];
    assert Pool(u) == Pool(u[..last]) + multiset(u[last].patents);
    assert Pool(agents) == Pool(agents[..last]) + multiset(agents[last].patents);
    if i == last {
      assert u[..last] == agents[..last];
    } else {
      assert u[..last] == agents[..last][i := x];
      assert u[last] == agents[last];
      assert agents[..last][i] == agents[i];
      PoolUpdate(agents[..last], i, x, z);
    }
  }

  // ---------------------------------------------------------------------
  // Queries
  // ---------------------------------------------------------------------

  /** allDone: true exactly when every agent is finished. */
  method AllDone(agents: seq<Agent>) returns (r: bool)
    ensures r <==> forall i :: 0 <= i < |agents| ==> agents[i].complete
  {
    var i := 0;
    while i < |agents|
      invariant 0 <= i <= |agents|
      invariant forall k :: 0 <= k < i ==> agents[k].complete
    {
      if !agents[i].complete {
        return false;
      }
      i := i + 1;
    }
    return true;
  }

  /** hasPatent: true exactly when the patents include `id`. */
  method HasPatent(patents: seq<int>, id: int) returns (r: bool)
    ensures r <==> id in patents
  {
    var j := 0;
    while j < |patents|
      invariant 0 <= j <= |patents|
      invariant id !in patents[..j]
    {
      if patents[j] == id {
        return true;
      }
      j := j + 1;
    }
    return false;
  }

  /** canTrade: true when agent `id` still holds a patent other than its
      own id. Otherwise agent `a` (by its id) is marked finished and the
      result is false. */
  method CanTrade(agents: seq<Agent>, a: Agent, id: int) returns (r: bool, after: seq<Agent>)
    requires 0 <= id < |agents| && 0 <= a.id < |agents|
    ensures r <==> exists j :: 0 <= j < |agents[id].patents| && agents[id].patents[j] != id
    ensures r ==> after == agents
    ensures !r ==> after == agents[a.id := agents[a.id].(complete := true)]
  {
    var patents := agents[id].patents;
    var j := 0;
    while j < |patents|
      invariant 0 <= j <= |patents|
      invariant forall k :: 0 <= k < j ==> patents[k] == id
    {
      if patents[j] != id {
        return true, agents;
      }
      j := j + 1;
    }
    return false, agents[a.id := agents[a.id].(complete := true)];
  }

  // ---------------------------------------------------------------------
  // Trading
  // ---------------------------------------------------------------------

  /** The last position of `x` in p, or 0 when there is none. */
  ghost predicate LastOf(p: seq<int>, x: int, i: int) {
    if x in p then 0 <= i < |p| && p[i] == x && forall k :: i < k < |p| ==> p[k] != x
    else i == 0
  }

  /** The last position in q whose cell equals y (when `equal`) or differs
      from y (otherwise), or 0 when there is none. */
  ghost predicate LastWhere(q: seq<int>, y: int, equal: bool, j: int) {
    if exists k :: 0 <= k < |q| && (q[k] == y) == equal then
      0 <= j < |q| && (q[j] == y) == equal && forall k :: j < k < |q| ==> (q[k] == y) != equal
    else j == 0
  }

  /** The search loop of trade: one pass over the m positions that records
      the last position of x in p and the last position in q that matches
      y (or differs from it). */
  method FindPositions(p: seq<int>, x: int, q: seq<int>, y: int, equal: bool) returns (i: nat, j: nat)
    requires |p| == |q|
    ensures LastOf(p, x, i)
    ensures LastWhere(q, y, equal, j)
  {
    i, j := 0, 0;
    var k := 0;
    while k < |p|
      invariant 0 <= k <= |p|
      invariant if x in p[..k] then i < k && p[i] == x && forall t :: i < t < k ==> p[t] != x else i == 0
      invariant if exists t :: 0 <= t < k && (q[t] == y) == equal then
          j < k && (q[j] == y) == equal && forall t :: j < t < k ==> (q[t] == y) != equal
        else j == 0
    {
      assert p[..k + 1] == p[..k] + [p[k]];
      if p[k] == x {
        i := k;
      }
      if (q[k] == y) == equal {
        j := k;
      }
      k := k + 1;
    }
    assert p[..k] == p;
  }

  /** Exchanges cell i of p with cell j of q. */
  function Exchange(p: seq<int>, i: int, q: seq<int>, j: int): (r: (seq<int>, seq<int>))
    requires 0 <= i < |p| && 0 <= j < |q|
    ensures |r.0| == |p| && |r.1| == |q|
    ensures r.0[i] == q[j] && r.1[j] == p[i]
    ensures forall t :: 0 <= t < |p| && t != i ==> r.0[t] == p[t]
    ensures forall t :: 0 <= t < |q| && t != j ==> r.1[t] == q[t]
    ensures forall z :: Count(r.0, z) + Count(r.1, z) == Count(p, z) + Count(q, z)
  {
    var r := (p[i := q[j]], q[j := p[i]]);
    assert forall z :: Count(r.0, z) + Count(r.1, z) == Count(p, z) + Count(q, z) by {
      forall z
        ensures Count(r.0, z) + Count(r.1, z) == Count(p, z) + Count(q, z)
      {
        UpdateCount(p, i, q[j], z);
        UpdateCount(q, j, p[i], z);
      }
    }
    r
  }

  /** pa and pb are p and q with cell i of p and cell j of q exchanged. */
  ghost predicate Swapped(p: seq<int>, q: seq<int>, i: int, j: int, pa: seq<int>, pb: seq<int>) {
    0 <= i < |p| && 0 <= j < |q| && pa == p[i := q[j]] && pb == q[j := p[i]]
  }

  /** The outcome trade promises for a's patents p (a's id x) and b's
      patents q (b's id y): when each holds the other's id, a's last copy of
      y is exchanged with b's last copy of x; when only b holds x, b's last
      copy of x is exchanged with a's last patent other than x (a's first
      patent if there is none); when only a holds y, symmetrically; and
      otherwise nothing changes. */
  ghost predicate Traded(p: seq<int>, x: int, q: seq<int>, y: int, pa: seq<int>, pb: seq<int>) {
    if x in q && y in p then
      exists i, j :: LastOf(p, y, i) && LastOf(q, x, j) && Swapped(p, q, i, j, pa, pb)
    else if x in q then
      exists i, j :: LastWhere(p, x, false, i) && LastOf(q, x, j) && Swapped(p, q, i, j, pa, pb)
    else if y in p then
      exists i, j :: LastOf(p, y, i) && LastWhere(q, y, false, j) && Swapped(p, q, i, j, pa, pb)
    else
      pa == p && pb == q
  }

  /** a and b agree everywhere except possibly at position i. */
  ghost predicate SameBut(a: seq<int>, b: seq<int>, i: int) {
    |a| == |b| && forall t :: 0 <= t < |a| && t != i ==> a[t] == b[t]
  }

  /** A trade changes at most one cell of each agent's patents, and keeps
      their lengths. */
  lemma TradedMovesOneCell(p: seq<int>, x: int, q: seq<int>, y: int, pa: seq<int>, pb: seq<int>)
    requires Traded(p, x, q, y, pa, pb)
    ensures |pa| == |p| && |pb| == |q|
    ensures exists i, j :: SameBut(pa, p, i) && SameBut(pb, q, j)
  {
    var i, j := 0, 0;
    if x in q && y in p {
      i, j :| LastOf(p, y, i) && LastOf(q, x, j) && Swapped(p, q, i, j, pa, pb);
    } else if x in q {
      i, j :| LastWhere(p, x, false, i) && LastOf(q, x, j) && Swapped(p, q, i, j, pa, pb);
    } else if y in p {
      i, j :| LastOf(p, y, i) && LastWhere(q, y, false, j) && Swapped(p, q, i, j, pa, pb);
    }
    assert SameBut(pa, p, i) && SameBut(pb, q, j);
  }

  /** The exchange that trade makes between the patents of a and b. When
      each holds the other's id, b's last copy of a's id is exchanged with
      a's last copy of b's id. When only b holds a's id, b's last copy of it
      is exchanged with a's last patent that is not a's id (a's first patent
      if all are). When only a holds b's id, symmetrically. Otherwise
      nothing moves. Between them the two keep the same patents, and in the
      first case each gains a copy of its own id. */
  method TradePatents(a: Agent, b: Agent) returns (pa: seq<int>, pb: seq<int>)
    requires |a.patents| == |b.patents|
    ensures |pa| == |a.patents| && |pb| == |b.patents|
    ensures forall z :: Count(pa, z) + Count(pb, z) == Count(a.patents, z) + Count(b.patents, z)
    ensures a.id != b.id && a.id in b.patents && b.id in a.patents ==>
      && Count(pa, a.id) == Count(a.patents, a.id) + 1
      && Count(pb, b.id) == Count(b.patents, b.id) + 1
    ensures a.id !in b.patents && b.id !in a.patents ==> pa == a.patents && pb == b.patents
    ensures Traded(a.patents, a.id, b.patents, b.id, pa, pb)
  {
    pa, pb := a.patents, b.patents;
    var bHas := HasPatent(pb, a.id);
    var aHas := HasPatent(pa, b.id);
    if bHas && aHas {
      var t1, t2 := FindPositions(pb, a.id, pa, b.id, true);
      var x := Exchange(pb, t1, pa, t2);
      UpdateCount(pa, t2, pb[t1], a.id);
      UpdateCount(pb, t1, pa[t2], b.id);
      assert LastOf(pa, b.id, t2) && Swapped(pa, pb, t2, t1, x.1, x.0);
      pb, pa := x.0, x.1;
    } else if bHas {
      var t1, t2 := FindPositions(pb, a.id, pa, a.id, false);
      var x := Exchange(pb, t1, pa, t2);
      assert Swapped(pa, pb, t2, t1, x.1, x.0);
      pb, pa := x.0, x.1;
    } else if aHas {
      var t1, t2 := FindPositions(pa, b.id, pb, b.id, false);
      var x := Exchange(pa, t1, pb, t2);
      assert Swapped(pa, pb, t1, t2, x.0, x.1);
      pa, pb := x.0, x.1;
    }
  }

  /** trade: after the exchange, both copies are written back at their
      ids and each one's trade count goes up by one. Nothing else in the
      table changes, and no patent is created or lost. */
  method Trade(agents: seq<Agent>, a: Agent, b: Agent) returns (r: seq<Agent>)
    requires 0 <= a.id < |agents| && 0 <= b.id < |agents|
    requires |a.patents| == |b.patents|
    ensures |r| == |agents|
    ensures forall k :: 0 <= k < |agents| && k != a.id && k != b.id ==> r[k] == agents[k]
    ensures a.id != b.id ==>
      && r[a.id].id == a.id && r[a.id].complete == a.complete && r[a.id].countIter == a.countIter + 1
      && r[b.id].id == b.id && r[b.id].complete == b.complete && r[b.id].countIter == b.countIter + 1
      && |r[a.id].patents| == |a.patents| && |r[b.id].patents| == |b.patents|
      && forall z :: Count(r[a.id].patents, z) + Count(r[b.id].patents, z) ==
           Count(a.patents, z) + Count(b.patents, z)
    ensures a.id != b.id && a.id in b.patents && b.id in a.patents ==>
      && Count(r[a.id].patents, a.id) == Count(a.patents, a.id) + 1
      && Count(r[b.id].patents, b.id) == Count(b.patents, b.id) + 1
    ensures a.id != b.id && a.id !in b.patents && b.id !in a.patents ==>
      r[a.id].patents == a.patents && r[b.id].patents == b.patents
    ensures a.id != b.id && agents[a.id] == a && agents[b.id] == b ==> Pool(r) == Pool(agents)
    ensures a.id != b.id ==> Traded(a.patents, a.id, b.patents, b.id, r[a.id].patents, r[b.id].patents)
  {
    var pa, pb := TradePatents(a, b);
    r := WriteBack(agents, a.(patents := pa), b.(patents := pb));
    if a.id != b.id && agents[a.id] == a && agents[b.id] == b {
      WriteBackPool(agents, a.(patents := pa), b.(patents := pb));
    }
  }

  /** The write-back of trade: a then b stored at their ids, then each
      stored agent's trade count raised by one. */
  function WriteBack(agents: seq<Agent>, a: Agent, b: Agent): (r: seq<Agent>)
    requires 0 <= a.id < |agents| && 0 <= b.id < |agents|
    ensures |r| == |agents|
    ensures forall k :: 0 <= k < |agents| && k != a.id && k != b.id ==> r[k] == agents[k]
    ensures a.id != b.id ==> r[a.id] == a.(countIter := a.countIter + 1) && r[b.id] == b.(countIter := b.countIter + 1)
  {
    var r1 := agents[a.id := a][b.id := b];
    var r2 := r1[a.id := r1[a.id].(countIter := r1[a.id].countIter + 1)];
    r2[b.id := r2[b.id].(countIter := r2[b.id].countIter + 1)]
  }

  /** Writing back two distinct agents in place of the originals keeps the
      pool whenever the two together hold the same patents as before. */
  lemma WriteBackPool(agents: seq<Agent>, a: Agent, b: Agent)
    requires 0 <= a.id < |agents| && 0 <= b.id < |agents| && a.id != b.id
    requires forall z ::
      Count(a.patents, z) + Count(b.patents, z) == Count(agents[a.id].patents, z) + Count(agents[b.id].patents, z)
    ensures Pool(WriteBack(agents, a, b)) == Pool(agents)
  {
    var r := WriteBack(agents, a, b);
    var r1 := agents[a.id := r[a.id]];
    assert r == r1[b.id := r[b.id]];
    forall z
      ensures Pool(r)[z] == Pool(agents)[z]
    {
      PoolUpdate(agents, a.id, r[a.id], z);
      PoolUpdate(r1, b.id, r[b.id], z);
    }
  }
}
