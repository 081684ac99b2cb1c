/** Directed graphs over state ids, shared by the NFA and DFA traversals. A graph maps each state
    to its successors in the order the source pushes them onto its work list. */
module Graphs {

  type Graph = map<nat, seq<nat>>

  /** No edge leaves the arena: every successor is itself a state. */
  predicate Closed(g: Graph) {
    forall u, i {:trigger g[u][i]} | u in g && 0 <= i < |g[u]| :: g[u][i] in g
  }

  /** S contains the successors of each of its members. */
  ghost predicate ClosedSet(g: Graph, S: set<nat>) {
    forall u, i {:trigger g[u][i]} | u in S && u in g && 0 <= i < |g[u]| :: g[u][i] in S
  }

  /** The successors of the members of S. */
  function Succs(g: Graph, S: set<nat>): set<nat> {
    set u, v | u in S && u in g && v in g[u] :: v
  }

  lemma SuccsHas(g: Graph, S: set<nat>, u: nat, i: nat)
    requires u in S && u in g && i < |g[u]|
    ensures g[u][i] in Succs(g, S)
  {
    assert g[u][i] in g[u];
  }

  /** The states reachable from root in at most k steps. */
  function Layer(g: Graph, root: nat, k: nat): set<nat> {
    if k == 0 then {root} else Layer(g, root, k - 1) + Succs(g, Layer(g, root, k - 1))
  }

  /** The states reachable from root. */
  function Reach(g: Graph, root: nat): set<nat> {
    Layer(g, root, |g|)
  }

  lemma LayerInArena(g: Graph, root: nat, k: nat)
    requires Closed(g) && root in g
    ensures Layer(g, root, k) <= g.Keys
  {
    if k > 0 {
      LayerInArena(g, root, k - 1);
    }
  }

  lemma {:induction false} LayerMonotone(g: Graph, root: nat, j: nat, k: nat)
    requires j <= k
    ensures Layer(g, root, j) <= Layer(g, root, k)
    decreases k
  {
    if j < k {
      LayerMonotone(g, root, j, k - 1);
    }
  }

  /** Once two consecutive layers agree, every later layer is the same. */
  lemma {:induction false} LayerStable(g: Graph, root: nat, j: nat, k: nat)
    requires j <= k && Layer(g, root, j + 1) == Layer(g, root, j)
    ensures Layer(g, root, k) == Layer(g, root, j)
    decreases k
  {
    if j < k {
      LayerStable(g, root, j, k - 1);
    }
  }

  /** Step j adds at least one state. */
  predicate Grows(g: Graph, root: nat, j: nat) {
    Layer(g, root, j + 1) != Layer(g, root, j)
  }

  /** While the layers keep growing, layer k has more than k members. */
  lemma {:induction false} LayerGrows(g: Graph, root: nat, k: nat)
    requires forall j: nat | j < k :: Grows(g, root, j)
    ensures |Layer(g, root, k)| > k
  {
    assert Layer(g, root, 0) == {root};
    hide *;
    var i := 0;
    while i < k
      invariant i <= k && |Layer(g, root, i)| > i
    {
      LayerGrowsStep(g, root, i + 1);
      i := i + 1;
    }
  }

  lemma LayerGrowsStep(g: Graph, root: nat, k: nat)
    requires k > 0 && Grows(g, root, k - 1)
    ensures |Layer(g, root, k - 1)| < |Layer(g, root, k)|
  {
    var a := Layer(g, root, k - 1);
    var b := Layer(g, root, k);
    assert b == a + Succs(g, a);
    hide Layer, Succs;
    assert a < b;
    SubsetCard(a, b);
  }

  lemma SubsetCard(a: set<nat>, b: set<nat>)
    requires a < b
    ensures |a| < |b|
  {
    var x :| x in b && x !in a;
    CardMono(a, b - {x});
  }

  lemma {:induction false} LayerWithin(g: Graph, root: nat, T: set<nat>, k: nat)
    requires ClosedSet(g, T) && root in T
    ensures Layer(g, root, k) <= T
  {
    if k > 0 {
      LayerWithin(g, root, T, k - 1);
    }
  }

  /** Reach(g, root) is the least set that contains root and is closed under successors. */
  lemma ReachIsLeast(g: Graph, root: nat)
    requires Closed(g) && root in g
    ensures root in Reach(g, root) && Reach(g, root) <= g.Keys
    ensures ClosedSet(g, Reach(g, root))
    ensures forall T | ClosedSet(g, T) && root in T :: Reach(g, root) <= T
  {
    var n := |g|;
    LayerMonotone(g, root, 0, n);
    LayerInArena(g, root, n);
    LayerInArena(g, root, n + 1);
    if Layer(g, root, n + 1) != Layer(g, root, n) {
      forall j: nat | j < n + 1 ensures Grows(g, root, j) {
        if Layer(g, root, j + 1) == Layer(g, root, j) {
          LayerStable(g, root, j, n);
          LayerStable(g, root, j, n + 1);
        }
      }
      CardMono(Layer(g, root, n + 1), g.Keys);
      LayerGrows(g, root, n + 1);
      assert false;
    }
    var L := Layer(g, root, n);
    assert Layer(g, root, n + 1) == L + Succs(g, L);
    forall u, i | u in L && u in g && 0 <= i < |g[u]| ensures g[u][i] in L {
      SuccsHas(g, L, u, i);
    }
    forall T | ClosedSet(g, T) && root in T ensures Reach(g, root) <= T {
      LayerWithin(g, root, T, n);
    }
  }

  lemma {:induction false} CardMono(a: set<nat>, b: set<nat>)
    requires a <= b
    ensures |a| <= |b|
    decreases |a|
  {
    if a != {} {
      var x :| x in a;
      CardMono(a - {x}, b - {x});
    }
  }

  /** The work-list count of `getNumberOfStates` (src/NFA.cpp and src/DFA.cpp): a FIFO queue,
      each state counted the first time it leaves the queue. */
  method CountReachable(g: Graph, root: nat) returns (n: nat)
    requires Closed(g) && root in g
    ensures n == |Reach(g, root)|
  {
    ghost var R := Reach(g, root);
    ReachIsLeast(g, root);
    var queue := [root];
    var explored: set<nat> := {};
    n := 0;
    FrontierStart(g, R, root);
    hide *;
    while queue != []
      invariant Frontier(g, R, root, queue, explored) && n == |explored|
      decreases |g.Keys - explored|, |queue|
    {
      var u := queue[0];
      FrontierPop(g, R, root, queue, explored);
      if u !in explored {
        FrontierGrows(g, explored, u);
        explored := explored + {u};
        n := n + 1;
        queue := queue[1..] + g[u];
      } else {
        queue := queue[1..];
      }
    }
    FrontierDone(g, R, root, explored);
  }

  /** The queue traversal's invariant: the explored states and the queue lie in R, root is one
      of them, and every successor of an explored state is explored or queued. */
  ghost predicate Frontier(g: Graph, R: set<nat>, root: nat, queue: seq<nat>, explored: set<nat>) {
    explored <= R && (forall i | 0 <= i < |queue| :: queue[i] in R) && (root in explored || root in queue) &&
    forall u, i {:trigger g[u][i]} | u in explored && u in g && 0 <= i < |g[u]| :: g[u][i] in explored || g[u][i] in queue
  }

  lemma FrontierStart(g: Graph, R: set<nat>, root: nat)
    requires root in R
    ensures Frontier(g, R, root, [root], {})
  {
  }

  /** Taking the head of the queue keeps the invariant, exploring it when it is new. */
  lemma FrontierPop(g: Graph, R: set<nat>, root: nat, queue: seq<nat>, explored: set<nat>)
    requires ClosedSet(g, R) && R <= g.Keys && queue != [] && Frontier(g, R, root, queue, explored)
    ensures queue[0] in explored ==> Frontier(g, R, root, queue[1..], explored)
    ensures queue[0] !in explored ==> queue[0] in g && Frontier(g, R, root, queue[1..] + g[queue[0]], explored + {queue[0]})
  {
    var u := queue[0];
    assert forall i | 0 <= i < |queue[1..]| :: queue[1..][i] == queue[i + 1];
    if u !in explored {
      var q' := queue[1..] + g[u];
      forall v, i | v in explored + {u} && v in g && 0 <= i < |g[v]| ensures g[v][i] in explored + {u} || g[v][i] in q' {
        if v == u {
          assert q'[|queue[1..]| + i] == g[u][i];
        } else if g[v][i] !in explored && g[v][i] != u {
          var k :| 0 <= k < |queue| && queue[k] == g[v][i];
          assert q'[k - 1] == queue[k];
        }
      }
      forall i | 0 <= i < |q'| ensures q'[i] in R {
        if i >= |queue[1..]| {
          assert q'[i] == g[u][i - |queue[1..]|];
        }
      }
    } else {
      forall v, i | v in explored && v in g && 0 <= i < |g[v]| ensures g[v][i] in explored || g[v][i] in queue[1..] {
        if g[v][i] !in explored {
          var k :| 0 <= k < |queue| && queue[k] == g[v][i];
          assert k > 0;
          assert queue[1..][k - 1] == queue[k];
        }
      }
    }
  }

  lemma FrontierGrows(g: Graph, explored: set<nat>, u: nat)
    requires u in g && u !in explored
    ensures |g.Keys - (explored + {u})| < |g.Keys - explored| && |explored + {u}| == |explored| + 1
  {
    assert u in g.Keys - explored;
    assert (g.Keys - (explored + {u})) < g.Keys - explored;
    SubsetCard(g.Keys - (explored + {u}), g.Keys - explored);
  }

  /** With the queue empty the explored states are closed, so they are everything reachable. */
  lemma FrontierDone(g: Graph, R: set<nat>, root: nat, explored: set<nat>)
    requires Closed(g) && root in g && R == Reach(g, root) && Frontier(g, R, root, [], explored)
    ensures |explored| == |Reach(g, root)|
  {
    ReachIsLeast(g, root);
    assert ClosedSet(g, explored);
    assert explored == R;
  }

  /** The stack traversal of `minimize`, `getGeneratingFunction`, `removeEpsilonTransitions`
      and `toDFA`: pop the top; if unseen, record it and push its successors in order. The
      result lists the recorded states in discovery order. */
  function Dfs(g: Graph, stack: seq<nat>, visited: seq<nat>): (r: seq<nat>)
    requires Closed(g)
    requires forall i | 0 <= i < |stack| :: stack[i] in g
    requires forall i | 0 <= i < |visited| :: visited[i] in g
    decreases |g.Keys - Elems(visited)|, |stack|
  {
    if stack == [] then visited
    else
      var u := stack[|stack| - 1];
      var rest := stack[..|stack| - 1];
      if u in visited then Dfs(g, rest, visited)
      else
        ElemsSnoc(visited, u);
        assert g.Keys - Elems(visited + [u]) < g.Keys - Elems(visited);
        Dfs(g, rest + g[u], visited + [u])
  }

  function Elems(s: seq<nat>): set<nat> {
    set x | x in s
  }

  lemma ElemsSnoc(s: seq<nat>, u: nat)
    ensures Elems(s + [u]) == Elems(s) + {u}
  {
  }

  predicate Distinct(s: seq<nat>) {
    forall i, j | 0 <= i < j < |s| :: s[i] != s[j]
  }

  /** The traversal keeps what was visited as a prefix and stays in the arena. */
  lemma {:induction false} DfsExtends(g: Graph, stack: seq<nat>, visited: seq<nat>)
    requires Closed(g)
    requires forall i | 0 <= i < |stack| :: stack[i] in g
    requires forall i | 0 <= i < |visited| :: visited[i] in g
    ensures visited <= Dfs(g, stack, visited)
    ensures forall u | u in Dfs(g, stack, visited) :: u in g
    decreases |g.Keys - Elems(visited)|, |stack|
  {
    if stack != [] {
      hide *;
      var u := stack[|stack| - 1];
      var rest := stack[..|stack| - 1];
      if u in visited {
        DfsSkipStep(g, stack, visited, rest);
        DfsExtends(g, rest, visited);
      } else {
        DfsVisitStep(g, stack, visited);
        DfsExtends(g, rest + g[u], visited + [u]);
      }
    }
  }

  /** The traversal records nothing twice and records everything it was asked to visit. */
  lemma DfsDistinct(g: Graph, stack: seq<nat>, visited: seq<nat>)
    requires Closed(g)
    requires forall i | 0 <= i < |stack| :: stack[i] in g
    requires forall i | 0 <= i < |visited| :: visited[i] in g
    requires Distinct(visited)
    ensures Distinct(Dfs(g, stack, visited))
    ensures forall u | u in stack :: u in Dfs(g, stack, visited)
  {
    DfsNoRepeat(g, stack, visited);
    DfsHasStack(g, stack, visited);
  }

  lemma {:induction false} DfsNoRepeat(g: Graph, stack: seq<nat>, visited: seq<nat>)
    requires Closed(g)
    requires forall i | 0 <= i < |stack| :: stack[i] in g
    requires forall i | 0 <= i < |visited| :: visited[i] in g
    requires Distinct(visited)
    ensures Distinct(Dfs(g, stack, visited))
    decreases |g.Keys - Elems(visited)|, |stack|
  {
    if stack != [] {
      hide *;
      var u := stack[|stack| - 1];
      var rest := stack[..|stack| - 1];
      if u in visited {
        DfsSkipStep(g, stack, visited, rest);
        DfsNoRepeat(g, rest, visited);
      } else {
        DfsVisitStep(g, stack, visited);
        DistinctSnoc(visited, u);
        DfsNoRepeat(g, rest + g[u], visited + [u]);
      }
    }
  }

  /** One step of the traversal that drops an already visited top. */
  lemma DfsSkipStep(g: Graph, stack: seq<nat>, visited: seq<nat>, rest: seq<nat>)
    requires Closed(g)
    requires forall i | 0 <= i < |stack| :: stack[i] in g
    requires forall i | 0 <= i < |visited| :: visited[i] in g
    requires stack != [] && stack[|stack| - 1] in visited && rest == stack[..|stack| - 1]
    ensures forall i | 0 <= i < |rest| :: rest[i] in g
    ensures Dfs(g, stack, visited) == Dfs(g, rest, visited)
  {
  }

  /** One step of the traversal that records the top and pushes its successors. */
  lemma DfsVisitStep(g: Graph, stack: seq<nat>, visited: seq<nat>)
    requires Closed(g)
    requires forall i | 0 <= i < |stack| :: stack[i] in g
    requires forall i | 0 <= i < |visited| :: visited[i] in g
    requires stack != [] && stack[|stack| - 1] !in visited
    ensures var u, rest := stack[|stack| - 1], stack[..|stack| - 1];
      (forall i | 0 <= i < |rest + g[u]| :: (rest + g[u])[i] in g) &&
      (forall i | 0 <= i < |visited + [u]| :: (visited + [u])[i] in g) &&
      |g.Keys - Elems(visited + [u])| < |g.Keys - Elems(visited)| &&
      Dfs(g, stack, visited) == Dfs(g, rest + g[u], visited + [u])
  {
    var u := stack[|stack| - 1];
    ElemsSnoc(visited, u);
    assert g.Keys - Elems(visited + [u]) < g.Keys - Elems(visited);
  }

  /** Appending a new element keeps a sequence without repetition. */
  lemma DistinctSnoc(s: seq<nat>, u: nat)
    requires Distinct(s) && u !in s
    ensures Distinct(s + [u])
  {
  }

  lemma {:induction false} DfsHasStack(g: Graph, stack: seq<nat>, visited: seq<nat>)
    requires Closed(g)
    requires forall i | 0 <= i < |stack| :: stack[i] in g
    requires forall i | 0 <= i < |visited| :: visited[i] in g
    ensures forall u | u in stack :: u in Dfs(g, stack, visited)
    decreases |g.Keys - Elems(visited)|, |stack|
  {
    if stack != [] {
      var u := stack[|stack| - 1];
      var rest := stack[..|stack| - 1];
      assert stack == rest + [u];
      if u in visited {
        DfsHasStack(g, rest, visited);
        DfsExtends(g, rest, visited);
      } else {
        ElemsSnoc(visited, u);
        assert g.Keys - Elems(visited + [u]) < g.Keys - Elems(visited);
        var r := Dfs(g, rest + g[u], visited + [u]);
        assert Dfs(g, stack, visited) == r;
        DfsHasStack(g, rest + g[u], visited + [u]);
        DfsExtends(g, rest + g[u], visited + [u]);
        assert forall w | w in stack :: w in rest + g[u] || w in visited + [u];
      }
    }
  }

  /** When every visited state's successors are visited or pending, the result is closed under
      successors. */
  lemma {:induction false} DfsClosed(g: Graph, stack: seq<nat>, visited: seq<nat>)
    requires Closed(g)
    requires forall i | 0 <= i < |stack| :: stack[i] in g
    requires forall i | 0 <= i < |visited| :: visited[i] in g
    requires forall u, i {:trigger g[u][i]} | u in visited && 0 <= i < |g[u]| :: g[u][i] in visited || g[u][i] in stack
    ensures forall u, i {:trigger g[u][i]} | u in Dfs(g, stack, visited) && u in g && 0 <= i < |g[u]| :: g[u][i] in Dfs(g, stack, visited)
    decreases |g.Keys - Elems(visited)|, |stack|
  {
    if stack != [] {
      var u := stack[|stack| - 1];
      var rest := stack[..|stack| - 1];
      assert stack == rest + [u];
      hide *;
      if u in visited {
        DfsSkipStep(g, stack, visited, rest);
        DfsClosed(g, rest, visited);
      } else {
        DfsVisitStep(g, stack, visited);
        DfsClosed(g, rest + g[u], visited + [u]);
      }
    }
  }

  /** Nothing outside a closed set that holds the start is ever visited. */
  lemma {:induction false} DfsWithin(g: Graph, stack: seq<nat>, visited: seq<nat>, R: set<nat>)
    requires Closed(g)
    requires forall i | 0 <= i < |stack| :: stack[i] in g
    requires forall i | 0 <= i < |visited| :: visited[i] in g
    requires ClosedSet(g, R)
    requires forall u | u in stack :: u in R
    requires forall u | u in visited :: u in R
    ensures forall u | u in Dfs(g, stack, visited) :: u in R
    decreases |g.Keys - Elems(visited)|, |stack|
  {
    if stack != [] {
      var u := stack[|stack| - 1];
      var rest := stack[..|stack| - 1];
      if u in visited {
        DfsSkipStep(g, stack, visited, rest);
        DfsWithin(g, rest, visited, R);
      } else {
        DfsVisitStep(g, stack, visited);
        DfsWithin(g, rest + g[u], visited + [u], R);
      }
    }
  }

  /** The states a traversal from root adds to those already visited. */
  function NewlyVisited(g: Graph, root: nat, visited: seq<nat>): (r: set<nat>)
    requires Closed(g) && root in g
    requires forall i | 0 <= i < |visited| :: visited[i] in g
    requires Distinct(visited)
    ensures r <= g.Keys && r !! Elems(visited)
    ensures root !in visited ==> root in r
  {
    DfsExtends(g, [root], visited);
    DfsDistinct(g, [root], visited);
    Elems(Dfs(g, [root], visited)) - Elems(visited)
  }

  /** A traversal that starts inside a set closed under successors stays inside it. */
  lemma NewlyVisitedWithin(g: Graph, root: nat, visited: seq<nat>, R: set<nat>)
    requires Closed(g) && root in g
    requires forall i | 0 <= i < |visited| :: visited[i] in g
    requires Distinct(visited)
    requires ClosedSet(g, R) && root in R && Elems(visited) <= R
    ensures NewlyVisited(g, root, visited) <= R
  {
    DfsWithin(g, [root], visited, R);
  }

  /** The discovery order from root: root first, each reachable state exactly once. */
  function DiscoveryOrder(g: Graph, root: nat): (r: seq<nat>)
    requires Closed(g) && root in g
    ensures |r| > 0 && r[0] == root
    ensures Distinct(r)
    ensures forall u :: u in r <==> u in Reach(g, root)
  {
    DiscoveryFacts(g, root);
    Dfs(g, [root], [])
  }

  /** The first step of a traversal from root alone visits root and stacks its successors. */
  lemma DfsFirstStep(g: Graph, root: nat)
    requires Closed(g) && root in g
    ensures Dfs(g, [root], []) == Dfs(g, g[root], [root])
  {
    assert [] + g[root] == g[root] && [] + [root] == [root];
  }

  lemma DiscoveryFacts(g: Graph, root: nat)
    requires Closed(g) && root in g
    ensures |Dfs(g, [root], [])| > 0 && Dfs(g, [root], [])[0] == root
    ensures Distinct(Dfs(g, [root], []))
    ensures forall u :: u in Dfs(g, [root], []) <==> u in Reach(g, root)
  {
    DfsFirstStep(g, root);
    hide Dfs, Reach;
    var r := Dfs(g, [root], []);
    DfsExtends(g, g[root], [root]);
    DfsExtends(g, [root], []);
    DfsDistinct(g, [root], []);
    DfsClosed(g, [root], []);
    ReachIsLeast(g, root);
    DfsWithin(g, [root], [], Reach(g, root));
    assert ClosedSet(g, set u | u in r);
  }

  /** Reach is transitive: what a reachable state reaches is reachable. */
  lemma ReachTrans(g: Graph, v: nat, x: nat)
    requires Closed(g) && v in g && x in Reach(g, v)
    ensures x in g && Reach(g, x) <= Reach(g, v)
  {
    ReachIsLeast(g, v);
    ReachIsLeast(g, x);
  }

  /** A state reachable from root is root itself or reachable from a successor of root other
      than root. */
  lemma ReachUnfold(g: Graph, root: nat, x: nat)
    requires Closed(g) && root in g && x in Reach(g, root)
    ensures x == root || exists i | 0 <= i < |g[root]| :: g[root][i] != root && x in Reach(g, g[root][i])
  {
    var T := {root} + set i, y | 0 <= i < |g[root]| && g[root][i] != root && y in Reach(g, g[root][i]) :: y;
    forall u, j | u in T && u in g && 0 <= j < |g[u]| ensures g[u][j] in T {
      if u == root {
        if g[u][j] != root {
          ReachIsLeast(g, g[root][j]);
        }
      } else {
        var i :| 0 <= i < |g[root]| && g[root][i] != root && u in Reach(g, g[root][i]);
        ReachIsLeast(g, g[root][i]);
      }
    }
    ReachIsLeast(g, root);
  }

  /** Every successor of a state is reachable from it. */
  lemma ReachSucc(g: Graph, v: nat, i: nat)
    requires Closed(g) && v in g && i < |g[v]|
    ensures g[v][i] in Reach(g, v)
  {
    ReachIsLeast(g, v);
  }

  /** A traversal only expands unvisited states, so it stays inside R and the states it was
      given as visited when R holds the successors of its own members. */
  lemma {:induction false} DfsWithinVisited(g: Graph, stack: seq<nat>, visited: seq<nat>, R: set<nat>, V: set<nat>)
    requires Closed(g)
    requires forall i | 0 <= i < |stack| :: stack[i] in g
    requires forall i | 0 <= i < |visited| :: visited[i] in g
    requires ClosedSet(g, R) && V <= Elems(visited)
    requires forall u | u in stack :: u in R || u in V
    requires forall u | u in visited :: u in R || u in V
    ensures forall u | u in Dfs(g, stack, visited) :: u in R || u in V
    decreases |g.Keys - Elems(visited)|, |stack|
  {
    if stack != [] {
      var u := stack[|stack| - 1];
      var rest := stack[..|stack| - 1];
      if u in visited {
        DfsWithinVisited(g, rest, visited, R, V);
      } else {
        ElemsSnoc(visited, u);
        assert g.Keys - Elems(visited + [u]) < g.Keys - Elems(visited);
        DfsWithinVisited(g, rest + g[u], visited + [u], R, V);
      }
    }
  }

  /** The states a traversal from root adds are reachable from root. */
  lemma NewlyVisitedReach(g: Graph, root: nat, visited: seq<nat>)
    requires Closed(g) && root in g
    requires forall i | 0 <= i < |visited| :: visited[i] in g
    requires Distinct(visited)
    ensures NewlyVisited(g, root, visited) <= Reach(g, root)
  {
    ReachIsLeast(g, root);
    DfsWithinVisited(g, [root], visited, Reach(g, root), Elems(visited));
  }

  /** h has the edges of g reversed. */
  ghost predicate Reverses(h: Graph, g: Graph) {
    h.Keys == g.Keys && forall x, y | x in h && y in g :: (y in h[x] <==> x in g[y])
  }

  /** A path in the reversed graph is a path of g read backwards. */
  lemma {:induction false} LayerReverse(h: Graph, g: Graph, u: nat, k: nat)
    requires Closed(h) && Closed(g) && Reverses(h, g) && u in g
    ensures forall v | v in Layer(h, u, k) :: v in g && u in Reach(g, v)
  {
    ReachIsLeast(g, u);
    assert Layer(h, u, 0) == {u};
    hide *;
    var i := 0;
    while i < k
      invariant i <= k && forall v | v in Layer(h, u, i) :: v in g && u in Reach(g, v)
    {
      LayerReverseStep(h, g, u, Layer(h, u, i));
      LayerNext(h, u, i);
      i := i + 1;
    }
  }

  /** Layer k + 1 adds the successors of layer k. */
  lemma LayerNext(g: Graph, root: nat, k: nat)
    ensures Layer(g, root, k + 1) == Layer(g, root, k) + Succs(g, Layer(g, root, k))
  {
  }

  /** One more reversed step keeps the states within those that reach u. */
  lemma LayerReverseStep(h: Graph, g: Graph, u: nat, L: set<nat>)
    requires Closed(h) && Closed(g) && Reverses(h, g) && u in g
    requires forall x | x in L :: x in g && u in Reach(g, x)
    ensures forall v | v in Succs(h, L) :: v in g && u in Reach(g, v)
  {
    hide Reach;
    forall v | v in Succs(h, L) ensures v in g && u in Reach(g, v) {
      var x :| x in L && x in h && v in h[x];
      ReverseStep(h, g, u, x, v);
    }
  }

  /** A reversed edge x -> v is an edge v -> x of g, so what x reaches, v reaches. */
  lemma ReverseStep(h: Graph, g: Graph, u: nat, x: nat, v: nat)
    requires Closed(h) && Closed(g) && Reverses(h, g) && x in h && v in h[x] && x in g && u in Reach(g, x)
    ensures v in g && u in Reach(g, v)
  {
    var j :| 0 <= j < |h[x]| && h[x][j] == v;
    assert v in g;
    var i :| 0 <= i < |g[v]| && g[v][i] == x;
    ReachSucc(g, v, i);
    ReachTrans(g, v, x);
  }

  lemma ReachReverse(h: Graph, g: Graph, u: nat, v: nat)
    requires Closed(h) && Closed(g) && Reverses(h, g) && u in g && v in Reach(h, u)
    ensures v in g && u in Reach(g, v)
  {
    LayerReverse(h, g, u, |h|);
  }

  /** Pointwise form of the discovery facts: whatever root reaches, its traversal records. */
  lemma DfsReach(g: Graph, root: nat, u: nat)
    requires Closed(g) && root in g && u in Reach(g, root)
    ensures u in Dfs(g, [root], [])
  {
    DiscoveryFacts(g, root);
  }

  /** The traversal from root alone, element by element: root first, nothing twice, all in g. */
  lemma DfsRoot(g: Graph, root: nat)
    requires Closed(g) && root in g
    ensures |Dfs(g, [root], [])| > 0 && Dfs(g, [root], [])[0] == root && Distinct(Dfs(g, [root], []))
    ensures forall i | 0 <= i < |Dfs(g, [root], [])| :: Dfs(g, [root], [])[i] in g
  {
    DiscoveryFacts(g, root);
    DfsExtends(g, [root], []);
    var r := Dfs(g, [root], []);
    forall i | 0 <= i < |r| ensures r[i] in g {
      assert r[i] in r;
    }
  }

  /** Everything the traversal from root records, root reaches. */
  lemma DfsInReach(g: Graph, root: nat)
    requires Closed(g) && root in g
    ensures forall i | 0 <= i < |Dfs(g, [root], [])| :: Dfs(g, [root], [])[i] in Reach(g, root)
  {
    DiscoveryFacts(g, root);
    var r := Dfs(g, [root], []);
    forall i | 0 <= i < |r| ensures r[i] in Reach(g, root) {
      assert r[i] in r;
    }
  }
}
