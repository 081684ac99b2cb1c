/** Two small automata on which `removeEpsilonTransitions` as written (src/NFA.cpp:182-312)
    departs from the automaton it is given, and what the corrected removal does with them. */
module EpsilonFindings {
  import opened Ordering
  import G = Graphs
  import opened Nfas
  import opened EpsilonRemoval

  /** The state whose only edges are epsilon edges to vs. */
  function EpsTo(vs: set<nat>, acc: bool): NState {
    NState(map[Eps := vs], acc)
  }

  /** The state without edges. */
  function Stop(acc: bool): NState {
    NState(map[], acc)
  }

  /** The epsilon loop 0 -> 1 -> 0 with only 1 accepting: it accepts the empty word. */
  const Loop: Arena := Arena(map[0 := EpsTo({1}, false), 1 := EpsTo({0}, true)], 2)

  lemma SortedSingletons(n: nat, c: char)
    ensures SortedNats({n}) == [n] && SortedChars({c}) == [c]
  {
    var r := SortedNats({n});
    assert r[0] in {n};
    var s := SortedChars({c});
    assert s[0] in {c};
  }

  /** The successor list of a state with epsilon edges only. */
  lemma SuccEpsTo(vs: set<nat>, acc: bool)
    ensures Succ(EpsTo(vs, acc).trans) == SortedNats(vs)
  {
    var t := EpsTo(vs, acc).trans;
    SortedSingletons(0, Eps);
    assert t.Keys == {Eps};
    assert SortedChars(t.Keys) == [Eps];
    assert SuccList(t, [Eps]) == SortedNats(vs) + SuccList(t, []);
  }

  lemma SuccStop(acc: bool)
    ensures Succ(Stop(acc).trans) == []
  {
    assert Stop(acc).trans.Keys == {};
    assert SortedChars({}) == [];
  }

  /** g is the loop 0 -> 1 -> 0. */
  predicate IsLoop(g: G.Graph) {
    g.Keys == {0, 1} && g[0] == [1] && g[1] == [0]
  }

  lemma LoopValid()
    ensures Valid(Loop) && 0 in Loop.states && Loop.states.Keys == {0, 1}
    ensures EpsTargets(Loop.states[0]) == {1} && EpsTargets(Loop.states[1]) == {0}
    ensures !Loop.states[0].accepting && Loop.states[1].accepting
  {
  }

  lemma LoopGraph()
    ensures IsLoop(ToGraph(Loop, {}))
  {
    LoopValid();
    SuccEpsTo({1}, false);
    SuccEpsTo({0}, true);
    SortedSingletons(0, Eps);
    SortedSingletons(1, Eps);
  }

  lemma LoopClosed(g: G.Graph)
    requires IsLoop(g)
    ensures G.Closed(g) && 1 in G.Reach(g, 0) && G.Reach(g, 0) == {0, 1}
  {
    G.ReachIsLeast(g, 0);
    G.ReachSucc(g, 0, 0);
  }

  /** Both states are reachable from 0. */
  lemma LoopReachable()
    ensures Valid(Loop) && 0 in Loop.states
    ensures Reachable(Loop, 0) == {0, 1}
  {
    LoopValid();
    LoopGraph();
    LoopClosed(ToGraph(Loop, {}));
  }

  lemma LoopEpsGraph()
    ensures Valid(Loop) && TransClosed(Loop, {0, 1}) && IsLoop(EpsGraph(Loop, {0, 1}))
  {
    LoopValid();
    SortedSingletons(0, Eps);
    SortedSingletons(1, Eps);
  }

  lemma LoopParentGraph()
    ensures Valid(Loop) && TransClosed(Loop, {0, 1}) && IsLoop(ParentGraph(Loop, {0, 1}))
  {
    LoopValid();
    LoopParents(0, 1);
    LoopParents(1, 0);
    SortedSingletons(0, Eps);
    SortedSingletons(1, Eps);
    var pg := ParentGraph(Loop, {0, 1});
    assert pg[0] == SortedNats(Parents(Loop, {0, 1}, 0));
    assert pg[1] == SortedNats(Parents(Loop, {0, 1}, 1));
  }

  /** In the loop, the only epsilon parent of u is v. */
  lemma LoopParents(u: nat, v: nat)
    requires u in {0, 1} && v == 1 - u
    ensures Parents(Loop, {0, 1}, u) == {v}
  {
    LoopValid();
    var P := Parents(Loop, {0, 1}, u);
    assert v in P;
    forall q | q in P ensures q == v {}
  }

  /** The traversal of the loop from 0 visits 0 and then 1. */
  lemma LoopDfs(g: G.Graph)
    requires IsLoop(g)
    ensures G.Closed(g) && G.Dfs(g, [0], []) == [0, 1] && G.Dfs(g, [1], [0, 1]) == [0, 1]
  {
    LoopClosed(g);
    assert G.Dfs(g, [0], []) == G.Dfs(g, [] + g[0], [] + [0]);
    assert [] + g[0] == [1] && [] + [0] == [0];
    assert G.Dfs(g, [1], [0]) == G.Dfs(g, [] + g[1], [0] + [1]);
    assert [] + g[1] == [0] && [0] + [1] == [0, 1];
    assert G.Dfs(g, [0], [0, 1]) == G.Dfs(g, [], [0, 1]);
    assert G.Dfs(g, [1], [0, 1]) == G.Dfs(g, [], [0, 1]);
  }

  /** The ordered stack of the loop pops 0 and then 1. */
  lemma LoopPopOrder(g: G.Graph)
    requires IsLoop(g)
    ensures G.Closed(g) && PopOrder(g, [0, 1], []) == [0, 1]
  {
    LoopDfs(g);
    assert PopOrder(g, [1], [0, 1]) == PopOrder(g, [], [0, 1]) + [];
  }

  /** The source's grouping of the loop gives one component headed by 0. */
  lemma LoopSourceGroups(pg: G.Graph)
    requires IsLoop(pg)
    ensures G.Closed(pg) && Groups(pg, [0, 1], []) == [Component(0, {0, 1})]
  {
    LoopDfs(pg);
    assert G.NewlyVisited(pg, 0, []) == {0, 1} by {
      assert G.Elems([0, 1]) == {0, 1};
    }
    assert Groups(pg, [1], [0, 1]) == [];
  }

  /** So does the corrected grouping. */
  lemma LoopSccGroups(eg: G.Graph, pg: G.Graph)
    requires IsLoop(eg) && IsLoop(pg)
    ensures G.Closed(eg) && G.Closed(pg) && SccGroups(eg, pg, [0, 1], {}) == [Component(0, {0, 1})]
  {
    LoopClosed(eg);
    LoopClosed(pg);
    LoopSccFirst(eg, pg);
    hide *;
    SccGroupsStep(eg, pg, [1], {0, 1});
    assert [1][1..] == [];
    SccGroupsNil(eg, pg, {0, 1});
  }

  /** Both states of the loop reach each other both ways, so the first group takes both. */
  lemma LoopSccFirst(eg: G.Graph, pg: G.Graph)
    requires IsLoop(eg) && IsLoop(pg)
    ensures G.Closed(eg) && G.Closed(pg)
    ensures SccGroups(eg, pg, [0, 1], {}) == [Component(0, {0, 1})] + SccGroups(eg, pg, [1], {0, 1})
  {
    LoopClosed(eg);
    LoopClosed(pg);
    var m := (set v | v in G.Reach(eg, 0) && v in G.Reach(pg, 0)) - {};
    assert m == {0, 1};
    assert [0, 1][0] == 0 && [0, 1][1..] == [1] && {} + m == {0, 1};
    assert SccGroups(eg, pg, [0, 1], {}) == [Component(0, m)] + SccGroups(eg, pg, [1], {} + m);
  }

  /** One step of the corrected grouping. */
  lemma SccGroupsStep(eg: G.Graph, pg: G.Graph, pops: seq<nat>, taken: set<nat>)
    requires G.Closed(eg) && G.Closed(pg) && eg.Keys == pg.Keys
    requires forall i | 0 <= i < |pops| :: pops[i] in pg
    requires pops != []
    ensures pops[0] in taken ==> SccGroups(eg, pg, pops, taken) == SccGroups(eg, pg, pops[1..], taken)
    ensures pops[0] !in taken ==>
      var m := (set v | v in G.Reach(eg, pops[0]) && v in G.Reach(pg, pops[0])) - taken;
      SccGroups(eg, pg, pops, taken) == [Component(pops[0], m)] + SccGroups(eg, pg, pops[1..], taken + m)
  {
  }

  lemma SccGroupsNil(eg: G.Graph, pg: G.Graph, taken: set<nat>)
    requires G.Closed(eg) && G.Closed(pg) && eg.Keys == pg.Keys
    ensures SccGroups(eg, pg, [], taken) == []
  {
  }

  lemma LoopComponents()
    ensures Valid(Loop) && 0 in Loop.states
    ensures SourceComponents(Loop, 0) == [Component(0, {0, 1})]
    ensures Components(Loop, 0) == [Component(0, {0, 1})]
  {
    LoopPops();
    LoopReachable();
    LoopEpsGraph();
    LoopParentGraph();
    hide Pops, Reachable, G.Dfs, Discovered, EpsGraph, IsLoop;
    var eg, pg := EpsGraph(Loop, {0, 1}), ParentGraph(Loop, {0, 1});
    LoopSourceGroups(pg);
    LoopSccGroups(eg, pg);
  }

  lemma LoopPops()
    ensures Valid(Loop) && 0 in Loop.states && Pops(Loop, 0) == [0, 1]
  {
    LoopReachable();
    LoopEpsGraph();
    LoopGraph();
    LoopDfs(ToGraph(Loop, {}));
    assert Discovered(Loop, 0) == [0, 1];
    LoopPopOrder(EpsGraph(Loop, {0, 1}));
  }

  /** As written, the removal loses the loop's acceptance: its root does not accept, although
      the accepting state 1 is epsilon-reachable from it. */
  lemma LoopAsWrittenRejects()
    ensures Valid(Loop) && 0 in Loop.states && 1 in G.Reach(EpsGraph(Loop, {0, 1}), 0) && Loop.states[1].accepting
    ensures 0 in RemoveEpsilonAsWritten(Loop, 0).states && !RemoveEpsilonAsWritten(Loop, 0).states[0].accepting
  {
    hide *;
    LoopValid();
    LoopComponents();
    LoopReachable();
    LoopEpsGraph();
    LoopClosed(EpsGraph(Loop, {0, 1}));
    var K, comps := Reachable(Loop, 0), SourceComponents(Loop, 0);
    RemoveEpsilonAsWrittenIs(Loop, 0);
    RemoveEpsilonWithAccepting(Loop, K, comps, false, 0, 0);
    ContractAccepting(Loop, K, comps, false, 0);
    var M := Contract(Loop, K, comps, false);
    assert M.states.Keys == {0} by {
      SingleGroup(comps);
    }
  }

  lemma SingleGroup(comps: seq<Component>)
    requires comps == [Component(0, {0, 1})]
    ensures GroupOf(comps).Keys == {0}
  {
    assert GroupOf(comps) == GroupOf([])[0 := {0, 1}];
  }

  /** Corrected, the loop's root accepts. */
  lemma LoopCorrectedAccepts()
    ensures Valid(Loop) && 0 in Loop.states
    ensures 0 in RemoveEpsilon(Loop, 0).states && RemoveEpsilon(Loop, 0).states[0].accepting
  {
    LoopComponents();
    RemoveEpsilonKeepsAccepting(Loop, 0, 0, 1);
  }

  /** The fork 0 -> {1, 2}, 1 -> 2 of epsilon edges, with only 1 accepting. State 2 does not reach
      state 1, so the two are not strongly connected. */
  const Fork: Arena := Arena(map[0 := EpsTo({1, 2}, false), 1 := EpsTo({2}, true), 2 := Stop(false)], 3)

  /** g is the fork 0 -> [1, 2], 1 -> [2]. */
  predicate IsFork(g: G.Graph) {
    g.Keys == {0, 1, 2} && g[0] == [1, 2] && g[1] == [2] && g[2] == []
  }

  lemma SortedPair()
    ensures SortedNats({1, 2}) == [1, 2] && SortedNats({0, 1}) == [0, 1]
  {
    SortedTwo(1, 2);
    SortedTwo(0, 1);
  }

  lemma SortedTwo(a: nat, b: nat)
    requires a < b
    ensures SortedNats({a, b}) == [a, b]
  {
    var r := SortedNats({a, b});
    assert |{a, b}| == 2;
    assert r[0] in {a, b} && r[1] in {a, b} && NatKey(r[0]) < NatKey(r[1]);
  }

  lemma SortedEmpty()
    ensures SortedNats({}) == [] && SortedChars({}) == []
  {
  }

  lemma ForkValid()
    ensures Valid(Fork) && 0 in Fork.states && Fork.states.Keys == {0, 1, 2}
    ensures EpsTargets(Fork.states[0]) == {1, 2} && EpsTargets(Fork.states[1]) == {2} && EpsTargets(Fork.states[2]) == {}
  {
  }

  lemma ForkGraph()
    ensures IsFork(ToGraph(Fork, {}))
  {
    ForkValid();
    hide ToGraph, Succ, SuccList, SortedNats, SortedChars, Valid, EpsTargets;
    ToGraphAt(Fork, 0);
    ToGraphAt(Fork, 1);
    ToGraphAt(Fork, 2);
    SuccEpsTo({1, 2}, false);
    SuccEpsTo({2}, true);
    SuccStop(false);
    SortedPair();
    SortedSingletons(2, Eps);
  }

  lemma ToGraphAt(a: Arena, u: nat)
    requires u in a.states
    ensures ToGraph(a, {}).Keys == a.states.Keys && ToGraph(a, {})[u] == Succ(a.states[u].trans)
  {
  }

  /** Everything the fork reaches from 0, and that 2 reaches only itself. */
  lemma ForkReach(g: G.Graph)
    requires IsFork(g)
    ensures G.Closed(g) && G.Reach(g, 0) == {0, 1, 2} && G.Reach(g, 2) == {2}
  {
    G.ReachIsLeast(g, 0);
    G.ReachSucc(g, 0, 0);
    G.ReachSucc(g, 0, 1);
    G.ReachIsLeast(g, 2);
    assert G.ClosedSet(g, {2});
  }

  lemma ForkReachable()
    ensures Valid(Fork) && 0 in Fork.states && Reachable(Fork, 0) == {0, 1, 2}
  {
    ForkValid();
    ForkGraph();
    ForkReach(ToGraph(Fork, {}));
  }

  lemma ForkEpsGraph()
    ensures Valid(Fork) && TransClosed(Fork, {0, 1, 2}) && IsFork(EpsGraph(Fork, {0, 1, 2}))
  {
    ForkValid();
    SortedPair();
    SortedEmpty();
    SortedSingletons(2, Eps);
  }

  /** The epsilon parents of the fork: none for 0, 0 for 1, 0 and 1 for 2. */
  lemma ForkParents()
    ensures Parents(Fork, {0, 1, 2}, 0) == {} && Parents(Fork, {0, 1, 2}, 1) == {0} && Parents(Fork, {0, 1, 2}, 2) == {0, 1}
  {
    ForkValid();
    var P0, P1, P2 := Parents(Fork, {0, 1, 2}, 0), Parents(Fork, {0, 1, 2}, 1), Parents(Fork, {0, 1, 2}, 2);
    forall q | q in P0 ensures false {}
    assert 0 in P1;
    forall q | q in P1 ensures q == 0 {}
    assert 0 in P2 && 1 in P2;
    forall q | q in P2 ensures q in {0, 1} {}
  }

  /** The reversed fork: 1 -> [0], 2 -> [0, 1]. */
  predicate IsReversedFork(g: G.Graph) {
    g.Keys == {0, 1, 2} && g[0] == [] && g[1] == [0] && g[2] == [0, 1]
  }

  lemma ForkParentGraph()
    ensures Valid(Fork) && TransClosed(Fork, {0, 1, 2}) && IsReversedFork(ParentGraph(Fork, {0, 1, 2}))
  {
    ForkValid();
    ForkParents();
    SortedPair();
    SortedEmpty();
    SortedSingletons(0, Eps);
    var pg := ParentGraph(Fork, {0, 1, 2});
    assert pg[0] == SortedNats(Parents(Fork, {0, 1, 2}, 0));
    assert pg[1] == SortedNats(Parents(Fork, {0, 1, 2}, 1));
    assert pg[2] == SortedNats(Parents(Fork, {0, 1, 2}, 2));
  }

  /** One step of the traversal that visits the top of the stack. */
  lemma DfsVisit(g: G.Graph, rest: seq<nat>, u: nat, visited: seq<nat>)
    requires G.Closed(g) && u in g && u !in visited
    requires (forall i | 0 <= i < |rest| :: rest[i] in g) && (forall i | 0 <= i < |visited| :: visited[i] in g)
    ensures G.Dfs(g, rest + [u], visited) == G.Dfs(g, rest + g[u], visited + [u])
  {
    assert (rest + [u])[|rest|] == u && (rest + [u])[..|rest|] == rest;
  }

  /** One step of the traversal that drops an already visited top of the stack. */
  lemma DfsSkip(g: G.Graph, rest: seq<nat>, u: nat, visited: seq<nat>)
    requires G.Closed(g) && u in g && u in visited
    requires (forall i | 0 <= i < |rest| :: rest[i] in g) && (forall i | 0 <= i < |visited| :: visited[i] in g)
    ensures G.Dfs(g, rest + [u], visited) == G.Dfs(g, rest, visited)
  {
    assert (rest + [u])[|rest|] == u && (rest + [u])[..|rest|] == rest;
  }

  /** The traversal of the fork from 0 visits 0, 2 and then 1. */
  lemma ForkDfs(g: G.Graph)
    requires IsFork(g)
    ensures G.Closed(g) && G.Dfs(g, [0], []) == [0, 2, 1]
  {
    ForkReach(g);
    assert [0] == [] + [0] && [] + g[0] == [1] + [2] && [] + [0] == [0];
    DfsVisit(g, [], 0, []);
    DfsVisit(g, [1], 2, [0]);
    assert [1] + g[2] == [] + [1] && [0] + [2] == [0, 2];
    DfsVisit(g, [], 1, [0, 2]);
    assert [] + g[1] == [] + [2] && [0, 2] + [1] == [0, 2, 1];
    DfsSkip(g, [], 2, [0, 2, 1]);
  }

  /** Traversals from already visited states of the fork add nothing. */
  lemma ForkDfsVisited(g: G.Graph, u: nat)
    requires IsFork(g) && u in {1, 2}
    ensures G.Closed(g) && G.Dfs(g, [u], [0, 2, 1]) == [0, 2, 1]
  {
    ForkReach(g);
    assert [u] == [] + [u];
    DfsSkip(g, [], u, [0, 2, 1]);
  }

  lemma ForkPopOrder(g: G.Graph)
    requires IsFork(g)
    ensures G.Closed(g) && PopOrder(g, [0, 2, 1], []) == [0, 2, 1]
  {
    ForkDfs(g);
    ForkDfsVisited(g, 1);
    ForkDfsVisited(g, 2);
    hide G.Dfs, IsFork;
    var D := [0, 2, 1];
    assert [0, 2, 1][1..] == [2, 1] && [2, 1][1..] == [1] && [1][1..] == [];
    assert PopOrder(g, [1], D) == PopOrder(g, [], D) + D[3..];
    assert PopOrder(g, [2, 1], D) == PopOrder(g, [1], D) + D[3..];
    assert PopOrder(g, [0, 2, 1], []) == PopOrder(g, [2, 1], D) + D[0..];
  }

  /** The traversals of the reversed fork that form the source's groups. */
  lemma ReversedForkDfs(pg: G.Graph)
    requires IsReversedFork(pg)
    ensures G.Closed(pg) && G.Dfs(pg, [0], []) == [0] && G.Dfs(pg, [2], [0]) == [0, 2, 1]
  {
    assert G.Closed(pg) by {
      forall u, i | u in pg && 0 <= i < |pg[u]| ensures pg[u][i] in pg {}
    }
    assert [0] == [] + [0] && [] + pg[0] == [] && [] + [0] == [0];
    DfsVisit(pg, [], 0, []);
    assert [2] == [] + [2] && [] + pg[2] == [0] + [1] && [0] + [2] == [0, 2];
    DfsVisit(pg, [], 2, [0]);
    DfsVisit(pg, [0], 1, [0, 2]);
    assert [0] + pg[1] == [0] + [0] && [0, 2] + [1] == [0, 2, 1];
    DfsSkip(pg, [0], 0, [0, 2, 1]);
    assert [0] == [] + [0];
    DfsSkip(pg, [], 0, [0, 2, 1]);
  }

  lemma ForkSourceGroups(pg: G.Graph)
    requires IsReversedFork(pg)
    ensures G.Closed(pg) && Groups(pg, [0, 2, 1], []) == [Component(0, {0}), Component(2, {1, 2})]
  {
    ReversedForkDfs(pg);
    hide G.Dfs, IsReversedFork;
    assert G.NewlyVisited(pg, 0, []) == {0} by {
      assert G.Elems([0]) == {0};
    }
    assert G.NewlyVisited(pg, 2, [0]) == {1, 2} by {
      assert G.Elems([0, 2, 1]) == {0, 1, 2};
    }
    assert Groups(pg, [1], [0, 2, 1]) == [];
    assert Groups(pg, [2, 1], [0]) == [Component(2, {1, 2})] + Groups(pg, [1], [0, 2, 1]);
  }

  lemma ForkDiscovered()
    ensures Valid(Fork) && 0 in Fork.states && Discovered(Fork, 0) == [0, 2, 1]
  {
    ForkValid();
    ForkGraph();
    ForkDfs(ToGraph(Fork, {}));
  }

  lemma ForkPops()
    ensures Valid(Fork) && 0 in Fork.states && Pops(Fork, 0) == [0, 2, 1]
  {
    ForkReachable();
    ForkEpsGraph();
    ForkDiscovered();
    ForkPopOrder(EpsGraph(Fork, {0, 1, 2}));
  }

  lemma ForkSourceComponents()
    ensures Valid(Fork) && 0 in Fork.states
    ensures SourceComponents(Fork, 0) == [Component(0, {0}), Component(2, {1, 2})]
  {
    ForkReachable();
    ForkParentGraph();
    ForkPops();
    ForkSourceGroups(ParentGraph(Fork, {0, 1, 2}));
  }

  /** As written, the grouping of the fork puts 1 into the component of 2 although 2 does not
      reach 1 along epsilon edges: the components are not strongly connected. */
  lemma ForkAsWrittenNotConnected()
    ensures Valid(Fork) && 0 in Fork.states && Reachable(Fork, 0) == {0, 1, 2}
    ensures SourceComponents(Fork, 0) == [Component(0, {0}), Component(2, {1, 2})]
    ensures 1 !in G.Reach(EpsGraph(Fork, {0, 1, 2}), 2)
    ensures !StronglyConnected(Fork, {0, 1, 2}, SourceComponents(Fork, 0))
  {
    ForkReachable();
    ForkSourceComponents();
    ForkEpsGraph();
    ForkReach(EpsGraph(Fork, {0, 1, 2}));
    var comps := SourceComponents(Fork, 0);
    assert comps[1].head == 2 && 1 in comps[1].members;
  }
}
