# Agent-system laboratory cores, modelled in Dafny

This project models the rule cores of a set of small multi-agent
simulations. All of them are written in C++ and keep their state in globals.

- **Load balancer over a task graph** (`MA_laba5`). This is the main core:
  - An application graph of modules. Each module has a load and
    successor and predecessor lists.
  - An agent graph of compute nodes. Each node has a running load and a
    list of assigned modules.
  - A load balancer with these parts: greedy least-loaded placement, a
    FIFO ready queue, a simulated clock, and the execute loop with
    failure-driven and global rebalancing.
- **Tennis scoring** (`MA_laba3`): points, the 40-40 ball rule, sets and the
  match winner.
- **Client dispatch and agent ranking** (`MA_laba1`): the least-busy agent
  takes each new client, and a two-pass sort ranks the agents.
- **Patent trading** (`MA_laba2`): building and shuffling the patent
  matrix, and swap trades between agents.
- **Durak-style card rules** (`MA_laba6`): the deal and trump marking, card
  deletion, beating, defence, adding to the table, drawing and the end of
  the game.

Every global becomes a field of an immutable state record, and every
operation becomes a pure function or a method returning the new state.

Modules:

| file | module | models |
|---|---|---|
| `app_graph.dfy` | `AppGraph` | `ApplicationGraph` |
| `agent_graph.dfy` | `AgentGraph` | `AgentGraph` |
| `balancer.dfy` | `Balancer` | the load balancer's state, placement, readiness, and the bookkeeping shared with rebalancing and execution |
| `rebalance.dfy` | `Rebalance` | `needRebalancing`, `dynamicRebalance` |
| `schedule.dfy` | `Schedule` | one step of `executeApplication`, and the invariants it keeps |
| `execution.dfy` | `Execution` | the `executeApplication` loop |
| `indices.dfy` | `Indices` | index sequences and distinctness |
| `wrappers.dfy` | `Wrappers` | `Option` |
| `tennis.dfy` | `Tennis` | `MA_laba3` |
| `dispatch.dfy` | `Dispatch` | `MA_laba1` |
| `patents.dfy` | `Patents` | `MA_laba2` |
| `durak.dfy` | `Durak` | `MA_laba6` |

Modelling choices:
- **Loads and the clock.** They are `real`, with exact arithmetic. The
  source keeps them in IEEE doubles, which round: ten additions of 0.1 give
  0.9999999999999999, and a load of 0.1 + 0.2 from which 0.1 and 0.2 are
  subtracted again leaves about 2.8e-17. The model does not reproduce this
  rounding (see "Left out").
- **Module ids.** They are dense indices (`modules[i].id == i`), as
  `getModule(id)`, which returns `modules[id]`, requires.
  - The status table is a sequence indexed by module.
  - `module_to_agent` is a map.
  - The completion times are a map from module to time.
- **Placement order.** The placement sort is `std::sort` by predecessor
  count, which is not stable, so modules with equal counts may be placed in
  any order. `InitialDistribution` therefore takes any permutation of the
  module ids that is non-decreasing in predecessor count, and
  `SortByPredecessors` computes one such permutation.
- **Randomness.** Every random draw is a parameter:
  - the failure draw in the execute loop is a sequence of booleans, one per
    executed module;
  - the shuffles take a function that picks the swap partner.
- **The execute loop** terminates only on an acyclic graph. On a cycle the
  idle branch adds 0.1 to the clock forever. `ExecuteApplication` therefore
  requires an acyclic graph, stated as the existence of a topological rank.

Facts about the code that the model follows:
- **Global rebalance loop.** The loop breaks when the live gap is below
  0.5, so a pair with a gap of exactly 0.5 is still handled.
- **Makespan.** One global clock advances by each executed module's load,
  so on a graph without idle ticks the makespan is the sum of all loads,
  not the longest path.
- **`needRebalancing`.** Its maximum starts at 0, so the maximum is never
  negative.

## Model

| member | source | states |
|---|---|---|
| AppGraph.AddModule | MA_laba5/MA_laba5/MA_laba5.cpp:42-44 | appends one module with the given id and load and no edges; the earlier modules and the start/end lists are unchanged |
| AppGraph.AddModuleWellFormed | MA_laba5/MA_laba5/MA_laba5.cpp:42-44 | adding a module with the next dense id and a non-negative load keeps the graph well formed, and keeps every edge recorded on both ends |
| AppGraph.AddDependency | MA_laba5/MA_laba5/MA_laba5.cpp:46-49 | `to` is appended to the successors of `from` and `from` to the predecessors of `to`; every other module and every id and load stay as they were |
| AppGraph.AddDependencyWellFormed | MA_laba5/MA_laba5/MA_laba5.cpp:46-49 | an edge between existing modules keeps every edge endpoint in range |
| AppGraph.AddDependencyMirrored | MA_laba5/MA_laba5/MA_laba5.cpp:46-49 | after addDependency each edge p->m still occurs in p's successors exactly as often as p occurs in m's predecessors |
| AppGraph.EdgeCountAfterAdd | MA_laba5/MA_laba5/MA_laba5.cpp:46-49 | the mirrored edge count holds for every pair of modules after one addDependency |
| AppGraph.IdsWhere | MA_laba5/MA_laba5/MA_laba5.cpp:55-62 | an id is collected exactly when some module with that id passes the test; collected ids ascend when the module ids do |
| AppGraph.FindStartEndModules | MA_laba5/MA_laba5/MA_laba5.cpp:51-63 | start modules are exactly the ids of modules without predecessors and end modules exactly those without successors, both in module order; the modules are unchanged |
| AppGraph.StartModulesAreSources | MA_laba5/MA_laba5/MA_laba5.cpp:51-63 | on a well-formed graph every start module is an in-range module without predecessors, they ascend, and every such module is listed |
| AgentGraph.AddAgent | MA_laba5/MA_laba5/MA_laba5.cpp:75-77 | appends an agent with the given id, no neighbours, no load and no modules; earlier agents are unchanged, so fresh and symmetric graphs stay so |
| AgentGraph.AddConnection | MA_laba5/MA_laba5/MA_laba5.cpp:79-82 | each agent gains the other as neighbour (a self-link adds the agent twice); loads, ids and module lists are untouched |
| AgentGraph.AddConnectionSymmetric | MA_laba5/MA_laba5/MA_laba5.cpp:79-82 | connecting keeps every neighbour in range and every link recorded equally often on both ends, and keeps fresh agents fresh |
| AgentGraph.LinkCountAfterConnect | MA_laba5/MA_laba5/MA_laba5.cpp:79-82 | for each pair x, y the count of y among x's neighbours equals that of x among y's after a connection |
| AgentGraph.LinkCountGrows | MA_laba5/MA_laba5/MA_laba5.cpp:79-82 | one connection adds exactly one link each way between distinct agents, two for a self-link, and none elsewhere |
| Balancer.Assign | MA_laba5/MA_laba5/MA_laba5.cpp:166-170 | the module is mapped to the agent, appended to its list and its load added to the agent's load; every other agent is unchanged and the total load grows by exactly the module's load |
| Balancer.AssignConsistent | MA_laba5/MA_laba5/MA_laba5.cpp:166-170 | assigning an unplaced module keeps map and lists in agreement and each agent's load equal to the loads of its unfinished modules |
| Balancer.Without | MA_laba5/MA_laba5/MA_laba5.cpp:289 | erase-remove drops every occurrence of the module and keeps the count of every other id |
| Balancer.WithoutDistinct | MA_laba5/MA_laba5/MA_laba5.cpp:289 | removing a module from a list without repeats leaves a list without repeats |
| Balancer.Move | MA_laba5/MA_laba5/MA_laba5.cpp:287-293 | the module leaves the giver's list and load and joins the receiver's; the map points to the receiver; other agents and the total load are unchanged |
| Balancer.MoveConsistent | MA_laba5/MA_laba5/MA_laba5.cpp:287-293 | moving an unfinished module from its owner keeps map, lists and loads consistent |
| Balancer.MoveLists | MA_laba5/MA_laba5/MA_laba5.cpp:287-293 | after a move every listed module is mapped to the agent listing it, every mapped module is listed by its agent, and no list repeats a module |
| Balancer.MoveInRange | MA_laba5/MA_laba5/MA_laba5.cpp:328-332 | a move keeps every listed module id in range |
| Balancer.Complete | MA_laba5/MA_laba5/MA_laba5.cpp:204-217 | the module becomes completed with finish time start + load, and its agent's load drops by the module's load; lists and the map are untouched |
| Balancer.CompleteConsistent | MA_laba5/MA_laba5/MA_laba5.cpp:204-217 | completing a module on its owner keeps every agent's load equal to the loads of its unfinished modules |
| Balancer.FindLeastLoaded | MA_laba5/MA_laba5/MA_laba5.cpp:152-163 | on a non-empty agent list, returns an agent whose load is at most every load, and every earlier agent is strictly more loaded (first minimum) |
| Balancer.LeastFrom | MA_laba5/MA_laba5/MA_laba5.cpp:156-161 | the scan from index i keeps the least load seen so far, switching only on a strictly smaller load |
| Balancer.LeastLoadedUnique | MA_laba5/MA_laba5/MA_laba5.cpp:152-163 | any index that is a minimum and strictly below all earlier agents is the one returned, so the tie-break is fully determined |
| Balancer.PredsDone | MA_laba5/MA_laba5/MA_laba5.cpp:256-260 | true exactly when every listed predecessor is completed |
| Balancer.IsModuleReady | MA_laba5/MA_laba5/MA_laba5.cpp:254-262 | true exactly when the module is not started and every predecessor is completed |
| Balancer.ReadyAmong | MA_laba5/MA_laba5/MA_laba5.cpp:220-225 | keeps exactly the ready ones among the candidate modules |
| Balancer.InitializeGraphs | MA_laba5/MA_laba5/MA_laba5.cpp:109-118 | the graph gets its start/end lists computed, the agents are taken over, every module is not started, and map, queue and times are empty |
| Balancer.SortBy | MA_laba5/MA_laba5/MA_laba5.cpp:132-135 | a permutation of the input ordered by the key, ties by id |
| Balancer.SortByPredecessors | MA_laba5/MA_laba5/MA_laba5.cpp:126-135 | a permutation of all module ids, non-decreasing in predecessor count |
| Balancer.PlaceAll | MA_laba5/MA_laba5/MA_laba5.cpp:137-140 | a module is mapped afterwards exactly when it was mapped before or is placed now; the total agent load grows by the placed modules' loads |
| Balancer.PlaceAllConsistent | MA_laba5/MA_laba5/MA_laba5.cpp:137-140 | placing distinct unplaced modules one by one on the least-loaded agent keeps the bookkeeping consistent |
| Balancer.InitialDistribution | MA_laba5/MA_laba5/MA_laba5.cpp:121-145 | every module is mapped, the completion times are cleared, the total agent load grows by the total module load, and the start modules are queued behind the old queue |
| Balancer.PlaceAllKeeps | MA_laba5/MA_laba5/MA_laba5.cpp:137-140 | placing modules never moves an already placed module that is not placed again |
| Balancer.PlaceAllPrefix | MA_laba5/MA_laba5/MA_laba5.cpp:137-140 | placing the first k modules is placing the first one on the least-loaded agent and then the next k-1 |
| Balancer.PlaceAllPicksLeast | MA_laba5/MA_laba5/MA_laba5.cpp:137-140 | for distinct modules, the k-th module goes to the least-loaded agent of the state reached after placing the k before it |
| Balancer.InitialDistributionPicksLeast | MA_laba5/MA_laba5/MA_laba5.cpp:121-145 | in the initial distribution, the k-th module of the placement order goes to the least-loaded agent after the modules before it were placed on empty tables |
| Balancer.InitialDistributionPlaced | MA_laba5/MA_laba5/MA_laba5.cpp:121-145 | from freshly initialised tables, placement maps every module to an agent listing it, keeps loads equal to module loads, and queues only modules with no predecessors |
| Balancer.SetupPlacesEveryModule | MA_laba5/MA_laba5/MA_laba5.cpp:109-145 | after initializeGraphs and initialDistribution on fresh agents: everything is placed, total agent load equals total module load, and the queue is the start modules |
| Balancer.PlaceThenQueue | MA_laba5/MA_laba5/MA_laba5.cpp:137-145 | placing every module and then queueing modules without predecessors yields a placed state |
| Balancer.ClearedConsistent | MA_laba5/MA_laba5/MA_laba5.cpp:122-123 | with fresh agents, clearing the map and the completion times gives a consistent state |
| Schedule.ReadyBelow | MA_laba5/MA_laba5/MA_laba5.cpp:254-262 | on an acyclic graph with nothing running, below every not-started module lies a ready module |
| Schedule.SomeModuleReady | MA_laba5/MA_laba5/MA_laba5.cpp:233-245 | while fewer than all modules are completed, the idle rescan finds a ready module, so the idle branch cannot repeat forever on an acyclic graph |
| Schedule.IdleQueueSound | MA_laba5/MA_laba5/MA_laba5.cpp:237-244 | the rescanned queue holds only modules whose predecessors are all completed |
| Schedule.ExecStepped | MA_laba5/MA_laba5/MA_laba5.cpp:204-225 | executing the queue head completes it, records its finish time, pops it and appends its ready successors |
| Schedule.ExecConsistent | MA_laba5/MA_laba5/MA_laba5.cpp:204-217 | executing an unfinished module on its owner keeps the bookkeeping consistent |
| Schedule.ExecTraced | MA_laba5/MA_laba5/MA_laba5.cpp:204-210 | the completed modules remain exactly the executed ones, each executed once |
| Schedule.ExecQueueSound | MA_laba5/MA_laba5/MA_laba5.cpp:219-225 | after a step every queued module still has all predecessors completed |
| Schedule.ExecTimed | MA_laba5/MA_laba5/MA_laba5.cpp:205-211 | finish times stay non-decreasing in execution order and bounded by the clock, and each module finishes at least its load after every predecessor |
| Schedule.ExecOrder | MA_laba5/MA_laba5/MA_laba5.cpp:205-211 | appending a module that finishes at clock + load keeps finish times ordered and bounded by the new clock |
| Schedule.ExecPreds | MA_laba5/MA_laba5/MA_laba5.cpp:205-211 | a module started after its predecessors finish no earlier than each predecessor's finish plus its own load |
| Schedule.ExecClock | MA_laba5/MA_laba5/MA_laba5.cpp:205-211 | the clock stays the sum of executed loads plus 0.1 per idle tick |
| Schedule.ExecQueued | MA_laba5/MA_laba5/MA_laba5.cpp:219-225 | on a graph with mirrored edges, every ready module stays in the queue after a step, so the idle branch is never taken |
| Schedule.EndClock | MA_laba5/MA_laba5/MA_laba5.cpp:248-250 | at the end the clock is at least the total module load, and equal to it without idle ticks |
| Schedule.EndFinish | MA_laba5/MA_laba5/MA_laba5.cpp:248-250 | at the end no completion time exceeds the returned clock |
| Execution.RunStart | MA_laba5/MA_laba5/MA_laba5.cpp:176-179 | a placed state with clock 0 and nothing executed satisfies the loop invariant |
| Execution.RunSkip | MA_laba5/MA_laba5/MA_laba5.cpp:186-189 | popping a queue head that is not startable keeps the invariant |
| Execution.RunFrame | MA_laba5/MA_laba5/MA_laba5.cpp:227-231 | a consistent rearrangement of agents and map that keeps status, queue and times keeps the invariant |
| Execution.RunIdle | MA_laba5/MA_laba5/MA_laba5.cpp:233-245 | an idle tick adds 0.1 to the clock, counts one idle tick, and refills the queue with a startable module |
| Execution.RunExec | MA_laba5/MA_laba5/MA_laba5.cpp:186-225 | executing a startable head on its owner keeps the invariant with the clock advanced by its load and the module appended to the trace |
| Execution.RunStepped | MA_laba5/MA_laba5/MA_laba5.cpp:204-225 | any consistent state reached by the step keeps the invariant |
| Execution.RunFail | MA_laba5/MA_laba5/MA_laba5.cpp:194-199 | the failure rebalance before executing the head keeps queue, status and the invariant |
| Execution.RunEnd | MA_laba5/MA_laba5/MA_laba5.cpp:183-250 | when the loop exits every module is completed exactly once, every agent's load is zero, and the clock bounds every finish time and is at least the total load |
| Execution.GlobalStep | MA_laba5/MA_laba5/MA_laba5.cpp:227-231 | the rebalance check after a completion keeps the loop invariant |
| Execution.ExecHead | MA_laba5/MA_laba5/MA_laba5.cpp:200-225 | executing the head appends it to the trace and advances the clock by its load |
| Execution.RunModule | MA_laba5/MA_laba5/MA_laba5.cpp:186-231 | one executed module (with optional failure rebalance and global rebalance) extends the trace by one and keeps the invariant |
| Execution.Step | MA_laba5/MA_laba5/MA_laba5.cpp:183-246 | each iteration keeps the invariant and either executes a module, leaves the idle state, or shortens the queue |
| Execution.RunLoop | MA_laba5/MA_laba5/MA_laba5.cpp:183-247 | on an acyclic placed graph the loop terminates with every module executed |
| Execution.ExecuteApplication | MA_laba5/MA_laba5/MA_laba5.cpp:176-251 | on an acyclic graph every module completes exactly once, each after all its predecessors, finish times follow execution order, the makespan is at least the total load (equal when edges are mirrored and every ready module is queued), and all agent loads return to zero |
| Rebalance.MaxLoad | MA_laba5/MA_laba5/MA_laba5.cpp:268-273 | the maximum starts at 0: it bounds every load and is either 0 or some agent's load |
| Rebalance.MinLoad | MA_laba5/MA_laba5/MA_laba5.cpp:268-273 | bounds every load from below and is some agent's load |
| Rebalance.NeedRebalancing | MA_laba5/MA_laba5/MA_laba5.cpp:265-277 | false for at most one agent; otherwise true exactly when some load (clamped below at 0) exceeds some load by more than 1.0 |
| Rebalance.RebalanceFailed | MA_laba5/MA_laba5/MA_laba5.cpp:280-295 | no change when the least-loaded agent is the failed one; otherwise the module moves to the least-loaded agent; total load unchanged |
| Rebalance.RebalanceFailedConsistent | MA_laba5/MA_laba5/MA_laba5.cpp:280-295 | the failure rebalance keeps the bookkeeping consistent and leaves the module on an agent that was least loaded beforehand |
| Rebalance.SortByLoad | MA_laba5/MA_laba5/MA_laba5.cpp:299-304 | a permutation of the agent indices ordered by (load, index) |
| Rebalance.SortByLoadStartsWithLeast | MA_laba5/MA_laba5/MA_laba5.cpp:299-309 | the sweep's first light agent is the agent findLeastLoadedAgent returns |
| Rebalance.Heaviest | MA_laba5/MA_laba5/MA_laba5.cpp:304-308 | the sweep's first heavy agent: maximal load, last index among ties |
| Rebalance.FirstNotStarted | MA_laba5/MA_laba5/MA_laba5.cpp:316-322 | the first not-started module of a list, or none exactly when all have started |
| Rebalance.ApplyOwnersMoved | MA_laba5/MA_laba5/MA_laba5.cpp:332 | after the sweep each relocated module is mapped to its receiver |
| Rebalance.ApplyOwnersUnmoved | MA_laba5/MA_laba5/MA_laba5.cpp:332 | modules not relocated keep their mapping |
| Rebalance.SweepStateStart | MA_laba5/MA_laba5/MA_laba5.cpp:299-306 | the sweep starts from the untouched state with the outermost pointer pair |
| Rebalance.SweepStateSkip | MA_laba5/MA_laba5/MA_laba5.cpp:315-336 | a pair whose heavy agent has no movable module only advances the pointers |
| Rebalance.SweepStateTake | MA_laba5/MA_laba5/MA_laba5.cpp:315-336 | a pair with a gap of at least 0.5 and a movable module moves that module and advances the pointers |
| Rebalance.SweepStateDone | MA_laba5/MA_laba5/MA_laba5.cpp:306-337 | for any state the sweep loop can reach: at most half as many moves as agents, each moving a not-started module from its owner, no agent in two moves; only the involved agents change, by the moved loads; total load, status, queue and times unchanged; consistency kept |
| Rebalance.SweepStop | MA_laba5/MA_laba5/MA_laba5.cpp:306-313 | the stopping pair is the first pair, from a given one on, whose pointers have met or whose gap is below 0.5; every pair before it goes on |
| Rebalance.PairMovesSnoc | MA_laba5/MA_laba5/MA_laba5.cpp:315-336 | the relocations of pairs k up to and including l are those of pairs k up to l - 1 followed by pair l's |
| Rebalance.SweepStopIsFirst | MA_laba5/MA_laba5/MA_laba5.cpp:306-313 | a pair that does not go on, with every pair before it going on, is the stopping pair |
| Rebalance.SweepTraceStops | MA_laba5/MA_laba5/MA_laba5.cpp:306-313 | a trace ending at a pair that does not go on has stopped at the stopping pair, with exactly the relocations of the pairs before it |
| Rebalance.SweepPairSnapshot | MA_laba5/MA_laba5/MA_laba5.cpp:306-313 | at the l-th pair the live loads and the live first not-started module of both agents equal the snapshot's, so the live break test is the snapshot one |
| Rebalance.ReplayPairs | MA_laba5/MA_laba5/MA_laba5.cpp:324-335 | the state after the relocations of the first l pairs, applied in order; the application, the statuses and the number of agents are unchanged |
| Rebalance.ReplayKeeps | MA_laba5/MA_laba5/MA_laba5.cpp:324-335 | replaying the first l pairs leaves every agent still between the pointers as it was in the snapshot |
| Rebalance.ReplayedPair | MA_laba5/MA_laba5/MA_laba5.cpp:306-313 | at a pair the loop goes on past, both live agents are the snapshot's, so the live loads and picks are the snapshot's |
| Rebalance.ReplayStep | MA_laba5/MA_laba5/MA_laba5.cpp:315-336 | replaying pair k moves the k-th heaviest agent's first not-started module to the k-th lightest agent and appends that relocation; with no such module nothing changes |
| Rebalance.ReplayTake | MA_laba5/MA_laba5/MA_laba5.cpp:315-336 | a live take at the current pair leaves the loop at the replay of the next pair: the moved state and the moves are exactly those of the snapshot for that pair |
| Rebalance.ReplaySkip | MA_laba5/MA_laba5/MA_laba5.cpp:315-336 | a live skip at the current pair leaves the loop at the replay of the next pair, with nothing moved |
| Rebalance.SweepStateStep | MA_laba5/MA_laba5/MA_laba5.cpp:315-336 | a pair the sweep goes on past, with its snapshot relocation applied when there is one, keeps the sweep invariant |
| Rebalance.SweepStateReplayStep | MA_laba5/MA_laba5/MA_laba5.cpp:315-336 | replaying one more pair the sweep goes on past keeps the sweep invariant |
| Rebalance.SweepStateReplay | MA_laba5/MA_laba5/MA_laba5.cpp:306-337 | the replay of the first l pairs satisfies the sweep invariant when the sweep goes on past each of them |
| Rebalance.SweepLoop | MA_laba5/MA_laba5/MA_laba5.cpp:299-337 | the pointer loop ends at the replay of the pairs it passed, with the pointers met or a live gap below 0.5 |
| Rebalance.SweepReplayed | MA_laba5/MA_laba5/MA_laba5.cpp:306-337 | the state the loop ends in satisfies the sweep invariant and its moves are the trace of the pairs passed |
| Rebalance.Sweep | MA_laba5/MA_laba5/MA_laba5.cpp:299-337 | the pointer loop ends with the sweep invariant and trace, with the pointers met or a live gap below 0.5 |
| Rebalance.SweepEndsAtStop | MA_laba5/MA_laba5/MA_laba5.cpp:306-337 | where the loop leaves is the stopping pair, and the moves are the relocations of all pairs before it |
| Rebalance.SweepStateEnds | MA_laba5/MA_laba5/MA_laba5.cpp:306-313 | a snapshot gap below 0.5 moves nothing; otherwise the first move takes the heaviest agent's first unstarted module to the least-loaded agent |
| Rebalance.RebalanceGlobal | MA_laba5/MA_laba5/MA_laba5.cpp:296-337 | the global rebalance preserves total load and consistency, moves only unstarted modules, at most one per pointer pair on disjoint agents, and starts with the heaviest/lightest pair; the moves are exactly, in order, the l-th heaviest agent's first not-started module to the l-th lightest agent, for each pair l before the first pair whose gap is below 0.5 or whose pointers meet, skipping pairs whose heavy agent has no not-started module |
| Rebalance.MovedModuleOwnedByGiver | MA_laba5/MA_laba5/MA_laba5.cpp:317-322 | a module picked from an agent's list is mapped to that agent |
| Rebalance.RelocatedOwners | MA_laba5/MA_laba5/MA_laba5.cpp:324-332 | after the sweep relocated modules are mapped to their receivers and all others keep their agent |
| Tennis.AddScore | MA_laba3/MA_laba3/MA_laba3.cpp:135-160 | at 40-40 only the scorer's ball count grows; otherwise the scorer gains 15 below 30 and 10 from 30 on; loser, sets and winner flags unchanged |
| Tennis.AddScoreClimbsLadder | MA_laba3/MA_laba3/MA_laba3.cpp:144-159 | outside 40-40 a point moves the scorer one rung up 0, 15, 30, 40, 50 |
| Tennis.AwardSet | MA_laba3/MA_laba3/MA_laba3.cpp:41-46 | the taker gains a set; both scores and balls reset |
| Tennis.SetIsDone | MA_laba3/MA_laba3/MA_laba3.cpp:39-75 | a side above 40 against one below 40, or two balls ahead at 40-40, takes the set, resets and the result is false; otherwise, and in particular whenever neither of those holds, true with nothing changed |
| Tennis.HasWinner | MA_laba3/MA_laba3/MA_laba3.cpp:161-164 | the agent wins on two sets, else the bot on two sets; nothing else changes |
| Tennis.StartLive | MA_laba3/MA_laba3/MA_laba3.cpp:182-183 | the starting state is a set in play |
| Tennis.AddScoreScored | MA_laba3/MA_laba3/MA_laba3.cpp:135-160 | from a set in play a point keeps scores on the ladder and never puts 50 against 40 |
| Tennis.SetIsDoneLive | MA_laba3/MA_laba3/MA_laba3.cpp:39-75 | after a point setIsDone returns a set in play, consuming every 50 |
| Tennis.PlayMatch | MA_laba3/MA_laba3/MA_laba3.cpp:184-248 | the match loop keeps scores on the ladder and sets at most two; it ends with exactly one winner with two sets, or only when the rallies run out |
| Dispatch.AddNewClientToAgent | MA_laba1/MA_laba1/MA_laba1.cpp:16-34 | the first agent with minimal queued time takes the client: queue, total time, queued time and client count grow; the rest are unchanged; the global count grows by one |
| Dispatch.AllDone | MA_laba1/MA_laba1/MA_laba1.cpp:43-50 | true exactly when some agent still has queued time |
| Dispatch.IdleOutstanding | MA_laba1/MA_laba1/MA_laba1.cpp:43-50 | when allDone is false the total queued time is zero |
| Dispatch.Swap | MA_laba1/MA_laba1/MA_laba1.cpp:55-57 | exchanges two neighbours and nothing else, a permutation |
| Dispatch.ByClientsPass | MA_laba1/MA_laba1/MA_laba1.cpp:52-60 | the bubble pass returns a permutation with client counts non-increasing |
| Dispatch.TiePass | MA_laba1/MA_laba1/MA_laba1.cpp:64-73 | one tie pass keeps the permutation and the client order; a pass with a swap strictly raises the termination weight, and a pass without swaps leaves ties ordered by total time |
| Dispatch.SwapRaises | MA_laba1/MA_laba1/MA_laba1.cpp:65-71 | swapping an out-of-order tie keeps the client order and raises the weight |
| Dispatch.SwapWeight | MA_laba1/MA_laba1/MA_laba1.cpp:65-71 | swapping neighbours changes the position-weighted total time by exactly the difference of the two times |
| Dispatch.WeightBounded | MA_laba1/MA_laba1/MA_laba1.cpp:61-74 | the weight is bounded by length times total absolute time, so the tie loop ends |
| Dispatch.SortAgents | MA_laba1/MA_laba1/MA_laba1.cpp:51-76 | returns a permutation with client counts non-increasing and neighbours with equal counts ordered by total time |
| Patents.SwapCells | MA_laba2/MA_laba2/MA_laba2.cpp:32-34 | swapping two cells keeps the matrix shape and the multiset of its entries |
| Patents.RowsCount | MA_laba2/MA_laba2/MA_laba2.cpp:19-25 | the unshuffled matrix holds each id below n exactly m times and nothing else |
| Patents.CreatePatents | MA_laba2/MA_laba2/MA_laba2.cpp:17-39 | the shuffled matrix is n by m and holds each id below n exactly m times |
| Patents.InitAgents | MA_laba2/MA_laba2/MA_laba2.cpp:117-121 | agent i gets id i and row i, not complete |
| Patents.PoolOfTable | MA_laba2/MA_laba2/MA_laba2.cpp:117-121 | the agents' patents together are the matrix's entries |
| Patents.DealCount | MA_laba2/MA_laba2/MA_laba2.cpp:116-121 | after the deal the agents hold each id exactly m times |
| Patents.AllDone | MA_laba2/MA_laba2/MA_laba2.cpp:40-47 | true exactly when every agent is complete |
| Patents.HasPatent | MA_laba2/MA_laba2/MA_laba2.cpp:48-53 | true exactly when the id occurs among the patents |
| Patents.CanTrade | MA_laba2/MA_laba2/MA_laba2.cpp:103-111 | false exactly when every patent of agent id equals id, and only then marks the asking agent complete |
| Patents.FindPositions | MA_laba2/MA_laba2/MA_laba2.cpp:57-64 | each index is the last position matching its test, or 0 when none matches |
| Patents.Exchange | MA_laba2/MA_laba2/MA_laba2.cpp:65-67 | cell i of the first list and cell j of the second trade places and every other cell stays; the combined counts are unchanged |
| Patents.TradePatents | MA_laba2/MA_laba2/MA_laba2.cpp:54-94 | the trade is exactly one exchange: b's last copy of a's id against a's last copy of b's id when each holds the other's; b's last copy of a's id against a's last patent other than a's id (or a's first) when only b holds it; symmetrically when only a holds b's id; nothing otherwise; combined counts kept, and in the first case each gains a copy of its own id |
| Patents.TradedMovesOneCell | MA_laba2/MA_laba2/MA_laba2.cpp:54-94 | a trade changes at most one cell of each agent's patents and keeps their lengths |
| Patents.Trade | MA_laba2/MA_laba2/MA_laba2.cpp:54-99 | only the two traders are written back, each with one more iteration and with their patents exchanged exactly as the trade rules say; combined counts and, for stored agents, the whole pool are kept |
| Patents.WriteBack | MA_laba2/MA_laba2/MA_laba2.cpp:95-98 | stores both agents with their iteration count raised by one, other agents unchanged |
| Patents.WriteBackPool | MA_laba2/MA_laba2/MA_laba2.cpp:95-98 | writing back two agents whose combined counts are unchanged keeps the pool of all patents |
| Durak.FreshDeck | MA_laba6/MA_laba6/MA_laba6.cpp:38-43 | 52 distinct cards with values below 13 and suits below 4, none trump |
| Durak.SwapAt | MA_laba6/MA_laba6/MA_laba6.cpp:60 | a swap of two positions, keeping the multiset |
| Durak.SwapKeeps | MA_laba6/MA_laba6/MA_laba6.cpp:60 | a swap keeps a deck distinct, valid and without trump marks |
| Durak.Shuffle | MA_laba6/MA_laba6/MA_laba6.cpp:60 | the shuffled deck is a permutation, still distinct, valid and unmarked |
| Durak.MarkTrumps | MA_laba6/MA_laba6/MA_laba6.cpp:61-67 | faces unchanged; a card is marked exactly when already marked or of the trump suit |
| Durak.Dealt | MA_laba6/MA_laba6/MA_laba6.cpp:68-77 | a seat receives one card per round |
| Durak.Init | MA_laba6/MA_laba6/MA_laba6.cpp:37-81 | 52 distinct cards; trump is the last card's suit and marks exactly that suit; each of the 4 players gets 6 cards in turn; the bank holds the other 28 |
| Durak.RemoveAt | MA_laba6/MA_laba6/MA_laba6.cpp:82-87 | the swap-then-erase removal shortens the hand by one |
| Durak.RemoveAtCards | MA_laba6/MA_laba6/MA_laba6.cpp:82-87 | the removed hand plus card i is the old hand |
| Durak.DeleteCard | MA_laba6/MA_laba6/MA_laba6.cpp:82-87 | only that hand changes, losing exactly card i |
| Durak.CanBeatOrder | MA_laba6/MA_laba6/MA_laba6.cpp:127-133 | with trumps marked by suit, no card beats itself, beating is one-way and transitive |
| Durak.Strike | MA_laba6/MA_laba6/MA_laba6.cpp:144-150 | attack card j and hand card i go to temp as a pair; hand and attack pile each lose one card |
| Durak.StrikeCards | MA_laba6/MA_laba6/MA_laba6.cpp:144-150 | a strike moves cards without creating or losing any |
| Durak.ScanKeepsCards | MA_laba6/MA_laba6/MA_laba6.cpp:135-153 | the beating loop keeps the cards of hand, attack pile and temp |
| Durak.ScanKeepsPairs | MA_laba6/MA_laba6/MA_laba6.cpp:135-153 | the loop only appends to temp, in pairs where the second card beats the first |
| Durak.ScanAgrees | MA_laba6/MA_laba6/MA_laba6.cpp:135-153 | where the loop as written does not read past the hand, the guarded loop gives the same result |
| Durak.Beat | MA_laba6/MA_laba6/MA_laba6.cpp:135-153 | the guarded beating loop always finishes, keeps all cards and adds only beaten pairs to temp |
| Durak.DeffendAsWritten | MA_laba6/MA_laba6/MA_laba6.cpp:134-171 | wherever deffend as written stays within the hand it agrees with the guarded deffend |
| Durak.Deffend | MA_laba6/MA_laba6/MA_laba6.cpp:134-171 | on failure the defender takes every attack and temp card and both piles empty; on success temp goes to the discard pile in beaten pairs; no card created or lost; other players and bank untouched |
| Durak.SettleTakes | MA_laba6/MA_laba6/MA_laba6.cpp:154-164 | the failure branch puts every attack and temp card into the defender's hand and leaves the discard pile |
| Durak.SettleDiscards | MA_laba6/MA_laba6/MA_laba6.cpp:165-169 | the success branch appends temp to the discard pile and conserves cards |
| Durak.Check | MA_laba6/MA_laba6/MA_laba6.cpp:227-237 | a player becomes done when the hand is empty and stays done; nothing else changes |
| Durak.CheckIdempotent | MA_laba6/MA_laba6/MA_laba6.cpp:227-237 | checking twice equals checking once |
| Durak.HasWinner | MA_laba6/MA_laba6/MA_laba6.cpp:88-93 | false exactly when some team has both players done |
| Durak.TeamOutEndsGame | MA_laba6/MA_laba6/MA_laba6.cpp:88-93 | after check, a team with both hands empty ends the game |
| Durak.TableScanThrows | MA_laba6/MA_laba6/MA_laba6.cpp:172-197 | the guarded loop throws one matching card from one of the team's hands, or changes nothing |
| Durak.TableScanAgrees | MA_laba6/MA_laba6/MA_laba6.cpp:172-197 | where the loop as written does not read past the partner's hand, the guarded loop agrees |
| Durak.AddToTableAsWritten | MA_laba6/MA_laba6/MA_laba6.cpp:172-197 | wherever addToTable as written stays within the hands it agrees with the guarded version |
| Durak.AddToTable | MA_laba6/MA_laba6/MA_laba6.cpp:172-197 | false with nothing changed, or true with exactly one card matching a temp value thrown from the attacking team |
| Durak.Fill | MA_laba6/MA_laba6/MA_laba6.cpp:218-222 | the hand grows by a prefix of the bank until it has six cards or the bank is empty |
| Durak.FillAgrees | MA_laba6/MA_laba6/MA_laba6.cpp:218-222 | where drawing as written does not read an empty bank, the guarded draw agrees |
| Durak.FillSeat | MA_laba6/MA_laba6/MA_laba6.cpp:218-222 | filling one seat only draws from the bank into that hand, conserving cards |
| Durak.RefillFrom | MA_laba6/MA_laba6/MA_laba6.cpp:216-224 | seats are filled in order; hands only grow by bank cards; from this seat on each hand has six cards or the bank is empty |
| Durak.RefillAgrees | MA_laba6/MA_laba6/MA_laba6.cpp:216-224 | where the seat loop as written never reads an empty bank, the guarded loop agrees |
| Durak.AddToHandAsWritten | MA_laba6/MA_laba6/MA_laba6.cpp:214-226 | wherever addToHand as written stays within the bank it agrees with the guarded version |
| Durak.AddToHand | MA_laba6/MA_laba6/MA_laba6.cpp:214-226 | hands only grow by bank cards, no card is created or lost, the table is untouched, and every hand has six cards or the bank is empty |
| Durak.DeffendReadsPastHand | MA_laba6/MA_laba6/MA_laba6.cpp:135-153 | a concrete game on which deffend as written reads past the defender's hand, while the guarded version fails the defence |
| Durak.ScanStuck | MA_laba6/MA_laba6/MA_laba6.cpp:135-153 | a two-card hand whose second card strikes the first attack card leaves three attack cards for an index past the hand |
| Durak.AddToTableReadsPastPartner | MA_laba6/MA_laba6/MA_laba6.cpp:183-193 | a concrete game on which addToTable as written reads the partner's missing card, while the guarded version throws nothing |
| Durak.AddToHandReadsEmptyBank | MA_laba6/MA_laba6/MA_laba6.cpp:218-222 | a concrete game on which addToHand as written draws from an empty bank, while the guarded version stops at five cards |

## Left out

- Console and file output: `cout`, `printDistribution`, and the trace lines.
  They carry no state.
- The `main` drivers and their loops over parameters and repetitions. This
  includes the `MA_laba1` tick loops and the `MA_laba6` `play` loop. The
  loops are driven by input and `rand()`; the operations they call are
  modelled.
- Random draws. They are parameters instead:
  - the failure draw at `MA_laba5.cpp:195` is a boolean per executed
    module;
  - the swap partners of the patent shuffle are a function;
  - `std::shuffle` over the deck is a Fisher-Yates pass driven by a
    function. The exact algorithm of the standard library is not
    reproduced, only that the result is a permutation.
- The Running status. It is set and immediately overwritten within one
  step (`MA_laba5.cpp:204-209`), so the model completes modules directly.
- `Agent::current_module` and `Agent::completion_time`. They are written
  but never read.
- The agent neighbour lists. They are modelled as data and never
  consulted, as in the code.
- `MA_laba6` `atack` and the attacking tactic. The attack pile is an input
  to `deffend`.
- `MA_laba3` rally geometry: `movePlayer`, `hit` and `clearPos` work on
  floating-point positions with random aims. A rally is reduced to the side
  that wins it, and players are a `Side` value instead of the strings
  "agent" and "bot".
- The `MA_laba4`, `MA_laba7` and `MA_laba8` programs. They are
  floating-point simulations outside this model.
- IEEE double rounding. Loads and the clock are exact reals, so sums such
  as ten steps of 0.1 and the comparisons with 1.0, 0.5 and 0.1 are decided
  on exact values, where the code may see a value one rounding step away.
- Execution.ExecuteApplication: the final loads of zero and the makespan
  equal to the total load hold in exact arithmetic. With doubles, a load
  can keep a residue such as 2.8e-17 after its modules are subtracted, and
  the clock can differ from the sum of loads by rounding.
- Execution.ExecuteApplication: requires an acyclic graph. On a cycle the
  code loops forever in its idle branch, which a terminating method cannot
  express.
- Patents.Trade: the contents of the trade are stated for two different
  agents only. When an agent trades with itself, the model computes what
  the code does (the same slot written twice), but its contract states only
  that the other agents are unchanged.
- Dispatch.AddNewClientToAgent: needs at least one agent. The code reads
  `time[0]` unconditionally.
- Balancer.PlaceAll: its own contract says which modules are mapped and
  what happens to the total load. Which agent takes each module is stated
  by Balancer.PlaceAllPicksLeast.
- Balancer.InitialDistribution: likewise, the agent each module goes to is
  stated by Balancer.InitialDistributionPicksLeast.
- Rebalance.SweepStateDone: states only the invariant that every reachable
  loop state keeps. Which pair produces which move, and where the sweep
  stops, are stated by Rebalance.SweepEndsAtStop and
  Rebalance.RebalanceGlobal.
- Rebalance.RebalanceGlobal: compares the live loads against the snapshot
  order as the code does. It does not claim that the final gap is at most
  0.5, which the code does not achieve in general.

## Findings

| source | as written | input that shows it | evidently intended | confidence | as-written member | corrected member |
|---|---|---|---|---|---|---|
| MA_laba6/MA_laba6/MA_laba6.cpp:135-153 | after a hand card strikes an attack card, the inner loop keeps reading `hand[i]`, although the hand has shrunk and `i` may now be past its end | cards written (value, suit), no trumps: defender hand (0,1), (6,0); attack pile (5,0), (6,1), (7,2). Hand card 1 strikes attack card 0, then `hand[1]` is read from a one-card hand | stop the inner loop when the hand is exhausted | not executed | Durak.DeffendAsWritten, Durak.DeffendReadsPastHand | Durak.Deffend |
| MA_laba6/MA_laba6/MA_laba6.cpp:183-193 | on a miss, the partner's card is read at the attacker's index `i`, whether or not the partner has that many cards | attacker hand one card of value 3, partner hand empty, temp one card of value 9: `hand[0]` of the empty partner hand is read | read the partner's card only when it exists | not executed | Durak.AddToTableAsWritten, Durak.AddToTableReadsPastPartner | Durak.AddToTable |
| MA_laba6/MA_laba6/MA_laba6.cpp:218-222 | the bank is checked for emptiness once, before all four hands are filled; the inner loop then draws `bank.arr[0]` until a hand has six cards | first hand has 4 cards and the bank 1 card: the second draw reads an empty bank | stop drawing when the bank runs out | not executed | Durak.AddToHandAsWritten, Durak.AddToHandReadsEmptyBank | Durak.AddToHand |
