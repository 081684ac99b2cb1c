/** `NFA::removeEpsilonTransitions` (src/NFA.cpp:182-312) and `NFA::findEpsilonClosures`
    (src/NFA.cpp:73-91) on the arena model. The transient `explored` flags become the `seen` and
    `taken` sequences and the `pending` set; `epsilonParents` becomes the graph of reversed epsilon
    edges; deleting a merged state and rewriting its parents' sets becomes relabelling. */
module EpsilonRemoval {
  import opened Ordering
  import G = Graphs
  import opened Nfas

  /** The epsilon targets of a state; none without an epsilon key. */
  function EpsTargets(s: NState): set<nat> {
    if Eps in s.trans then s.trans[Eps] else {}
  }

  lemma EpsTargetsHas(s: NState, v: nat)
    requires Eps in s.trans && v in s.trans[Eps]
    ensures v in EpsTargets(s)
  {
  }

  lemma EpsTargetsFrom(s: NState, v: nat)
    requires v in EpsTargets(s)
    ensures Eps in s.trans && v in s.trans[Eps]
  {
  }

  /** Every transition of a member of K stays in K. */
  ghost predicate TransClosed(a: Arena, K: set<nat>) {
    K <= a.states.Keys &&
    forall u, c {:trigger a.states[u].trans[c]} | u in K && c in a.states[u].trans :: a.states[u].trans[c] <= K
  }

  lemma ReachClosed(a: Arena, root: nat)
    requires Valid(a) && root in a.states
    ensures root in G.Reach(ToGraph(a, {}), root)
    ensures TransClosed(a, G.Reach(ToGraph(a, {}), root))
  {
    var g := ToGraph(a, {});
    ToGraphClosed(a, {});
    G.ReachIsLeast(g, root);
    var K := G.Reach(g, root);
    forall u, c | u in K && c in a.states[u].trans ensures a.states[u].trans[c] <= K {
      forall v | v in a.states[u].trans[c] ensures v in K {
        TargetsHas(a.states[u].trans, c, v);
        SuccHas(a.states[u].trans, v);
        assert v in g[u];
        var i :| 0 <= i < |g[u]| && g[u][i] == v;
      }
    }
  }

  /** The first traversal (src/NFA.cpp:183-200): the states reachable from root, in the order
      a stack traversal over all labels discovers them. */
  function Discovered(a: Arena, root: nat): (r: seq<nat>)
    requires Valid(a) && root in a.states
    ensures |r| > 0 && r[0] == root && G.Distinct(r)
    ensures forall i | 0 <= i < |r| :: r[i] in Reachable(a, root)
  {
    DiscoveredFacts(a, root);
    G.Dfs(ToGraph(a, {}), [root], [])
  }

  lemma DiscoveredFacts(a: Arena, root: nat)
    requires Valid(a) && root in a.states
    ensures G.Closed(ToGraph(a, {}))
    ensures |G.Dfs(ToGraph(a, {}), [root], [])| > 0 && G.Dfs(ToGraph(a, {}), [root], [])[0] == root
    ensures G.Distinct(G.Dfs(ToGraph(a, {}), [root], []))
    ensures forall i | 0 <= i < |G.Dfs(ToGraph(a, {}), [root], [])| :: G.Dfs(ToGraph(a, {}), [root], [])[i] in Reachable(a, root)
  {
    ToGraphClosed(a, {});
    G.DfsRoot(ToGraph(a, {}), root);
    G.DfsInReach(ToGraph(a, {}), root);
    assert Reachable(a, root) == G.Reach(ToGraph(a, {}), root);
  }

  /** The first traversal finds every reachable state. */
  lemma DiscoveredCovers(a: Arena, root: nat, u: nat)
    requires Valid(a) && root in a.states && u in Reachable(a, root)
    ensures u in Discovered(a, root)
  {
    ToGraphClosed(a, {});
    G.DfsReach(ToGraph(a, {}), root, u);
  }

  /** Epsilon edges among the states K, targets in increasing id order as `std::set<NFA*>`
      visits them. */
  function EpsGraph(a: Arena, K: set<nat>): (g: G.Graph)
    requires K <= a.states.Keys
    ensures g.Keys == K
  {
    map u | u in K :: SortedNats(EpsTargets(a.states[u]))
  }

  lemma EpsGraphClosed(a: Arena, K: set<nat>)
    requires TransClosed(a, K)
    ensures G.Closed(EpsGraph(a, K))
  {
    var g := EpsGraph(a, K);
    forall u, i | u in g && 0 <= i < |g[u]| ensures g[u][i] in g {
      assert g[u][i] in EpsTargets(a.states[u]);
    }
  }

  /** The states of K with an epsilon edge to u. */
  function Parents(a: Arena, K: set<nat>, u: nat): set<nat>
    requires K <= a.states.Keys
  {
    set q | q in K && u in EpsTargets(a.states[q])
  }

  /** Reversed epsilon edges among K: the successors of u are the states of K with an epsilon
      edge to u (`epsilonParents`, filled in src/NFA.cpp:215-218). Their order only decides the
      order inside a component list, not its members, so they are listed by id. */
  function ParentGraph(a: Arena, K: set<nat>): (g: G.Graph)
    requires K <= a.states.Keys
    ensures G.Closed(g) && g.Keys == K
  {
    var g := map u | u in K :: SortedNats(Parents(a, K, u));
    assert G.Closed(g) by {
      forall u, i | u in g && 0 <= i < |g[u]| ensures g[u][i] in g {
        assert g[u][i] in g[u];
      }
    }
    g
  }

  /** The pop order of the `ordered` stack (src/NFA.cpp:202-231): each state of `todo` not yet
      seen starts an epsilon traversal whose pre-order is pushed reversed onto `orderedHelp` and
      then onto `ordered`; so the last tree pops first and each tree pops in pre-order. */
  function PopOrder(eg: G.Graph, todo: seq<nat>, seen: seq<nat>): (r: seq<nat>)
    requires G.Closed(eg) && (forall i | 0 <= i < |todo| :: todo[i] in eg)
    requires (forall i | 0 <= i < |seen| :: seen[i] in eg) && G.Distinct(seen)
    decreases |todo|
  {
    if todo == [] then []
    else
      G.DfsExtends(eg, [todo[0]], seen);
      G.DfsDistinct(eg, [todo[0]], seen);
      var seen' := G.Dfs(eg, [todo[0]], seen);
      PopOrder(eg, todo[1..], seen') + seen'[|seen|..]
  }

  /** One contracted group: its head and all its members, the head included. */
  datatype Component = Component(head: nat, members: set<nat>)

  /** The components as the source forms them (src/NFA.cpp:233-253): each popped state not yet
      taken heads a component of the untaken states that reach it along epsilon edges, found by
      a traversal of the reversed edges that stops at taken states. */
  function Groups(pg: G.Graph, pops: seq<nat>, taken: seq<nat>): (r: seq<Component>)
    requires G.Closed(pg) && (forall i | 0 <= i < |pops| :: pops[i] in pg)
    requires (forall i | 0 <= i < |taken| :: taken[i] in pg) && G.Distinct(taken)
    decreases |pops|
  {
    if pops == [] then []
    else if pops[0] in taken then Groups(pg, pops[1..], taken)
    else
      G.DfsExtends(pg, [pops[0]], taken);
      G.DfsDistinct(pg, [pops[0]], taken);
      [Component(pops[0], G.NewlyVisited(pg, pops[0], taken))] + Groups(pg, pops[1..], G.Dfs(pg, [pops[0]], taken))
  }

  lemma ParentReverses(a: Arena, K: set<nat>)
    requires TransClosed(a, K)
    ensures G.Closed(EpsGraph(a, K)) && G.Reverses(ParentGraph(a, K), EpsGraph(a, K))
  {
    EpsGraphClosed(a, K);
  }

  lemma {:induction false} PopOrderFacts(eg: G.Graph, todo: seq<nat>, seen: seq<nat>)
    requires G.Closed(eg) && (forall i | 0 <= i < |todo| :: todo[i] in eg)
    requires (forall i | 0 <= i < |seen| :: seen[i] in eg) && G.Distinct(seen)
    ensures forall i | 0 <= i < |PopOrder(eg, todo, seen)| :: PopOrder(eg, todo, seen)[i] in eg && PopOrder(eg, todo, seen)[i] !in seen
    ensures forall i | 0 <= i < |todo| && todo[i] !in seen :: todo[i] in PopOrder(eg, todo, seen)
    decreases |todo|
  {
    if todo != [] {
      G.DfsExtends(eg, [todo[0]], seen);
      G.DfsDistinct(eg, [todo[0]], seen);
      var seen' := G.Dfs(eg, [todo[0]], seen);
      var tree := seen'[|seen|..];
      PopOrderFacts(eg, todo[1..], seen');
      var front := PopOrder(eg, todo[1..], seen');
      assert PopOrder(eg, todo, seen) == front + tree;
      hide *;
      assert forall i | 0 <= i < |seen| :: seen'[i] == seen[i];
      forall k | 0 <= k < |tree| ensures tree[k] in eg && tree[k] !in seen {
        assert tree[k] == seen'[|seen| + k];
        assert seen'[|seen| + k] in seen';
        assert forall m | 0 <= m < |seen| :: seen[m] == seen'[m] && seen'[m] != seen'[|seen| + k];
      }
      forall x | x in seen ensures x in seen' {
        var j :| 0 <= j < |seen| && seen[j] == x;
        assert seen'[j] == x;
      }
      var P := front + tree;
      forall i | 0 <= i < |P| ensures P[i] in eg && P[i] !in seen {
        if i >= |front| {
          assert P[i] == tree[i - |front|];
        }
      }
      assert todo[0] in [todo[0]];
      forall i | 0 <= i < |todo| && todo[i] !in seen ensures todo[i] in P {
        if i == 0 {
          var j :| 0 <= j < |seen'| && seen'[j] == todo[0];
          assert j >= |seen| by {
            assert forall m | 0 <= m < |seen| :: seen[m] in seen && seen'[m] == seen[m];
          }
          assert tree[j - |seen|] == todo[0];
          assert P[|front| + j - |seen|] == todo[0];
        } else {
          assert todo[1..][i - 1] == todo[i];
          if todo[i] in seen' {
            var j :| 0 <= j < |seen'| && seen'[j] == todo[i];
            assert j >= |seen| by {
              assert forall m | 0 <= m < |seen| :: seen[m] in seen && seen'[m] == seen[m];
            }
            assert tree[j - |seen|] == todo[i];
            assert P[|front| + j - |seen|] == todo[i];
          } else {
            var j :| 0 <= j < |front| && front[j] == todo[i];
            assert P[j] == todo[i];
          }
        }
      }
    }
  }

  /** Each component holds its head, lies in `keys` and avoids T; no two share a state. */
  ghost predicate Disjoint(comps: seq<Component>, T: set<nat>, keys: set<nat>) {
    (forall i | 0 <= i < |comps| :: comps[i].head in comps[i].members && comps[i].members <= keys && comps[i].members !! T) &&
    (forall i, j | 0 <= i < j < |comps| :: comps[i].members !! comps[j].members)
  }

  /** Every state of X is in some component. */
  ghost predicate Covers(comps: seq<Component>, X: set<nat>) {
    forall v | v in X :: exists i :: 0 <= i < |comps| && v in comps[i].members
  }

  /** Every member is reachable from its head in g. */
  ghost predicate HeadsReach(comps: seq<Component>, g: G.Graph) {
    forall i | 0 <= i < |comps| :: comps[i].members <= G.Reach(g, comps[i].head)
  }

  /** The components split K: each holds its head, and each state of K is in exactly one. */
  ghost predicate Partition(comps: seq<Component>, K: set<nat>) {
    Disjoint(comps, {}, K) && Covers(comps, K)
  }

  lemma PrependDisjoint(c: Component, rest: seq<Component>, T: set<nat>, keys: set<nat>)
    requires c.head in c.members && c.members <= keys && c.members !! T
    requires Disjoint(rest, T + c.members, keys)
    ensures Disjoint([c] + rest, T, keys)
  {
    var r := [c] + rest;
    forall i, j | 0 <= i < j < |r| ensures r[i].members !! r[j].members {
      assert r[j] == rest[j - 1];
      if i > 0 {
        assert r[i] == rest[i - 1];
      }
    }
    forall i | 0 <= i < |r| ensures r[i].head in r[i].members && r[i].members <= keys && r[i].members !! T {
      if i > 0 {
        assert r[i] == rest[i - 1];
      }
    }
  }

  lemma PrependReach(c: Component, rest: seq<Component>, g: G.Graph)
    requires c.members <= G.Reach(g, c.head) && HeadsReach(rest, g)
    ensures HeadsReach([c] + rest, g)
  {
    var r := [c] + rest;
    forall i | 0 < i < |r| ensures r[i].members <= G.Reach(g, r[i].head) {
      assert r[i] == rest[i - 1];
    }
  }

  /** A state in c, or covered by rest, is covered by [c] + rest. */
  lemma PrependCovers(c: Component, rest: seq<Component>, v: nat)
    requires v in c.members || exists i :: 0 <= i < |rest| && v in rest[i].members
    ensures exists i :: 0 <= i < |[c] + rest| && v in ([c] + rest)[i].members
  {
    if v in c.members {
      assert ([c] + rest)[0] == c;
    } else {
      var i :| 0 <= i < |rest| && v in rest[i].members;
      assert ([c] + rest)[i + 1] == rest[i];
    }
  }

  lemma {:induction false} GroupsFacts(pg: G.Graph, pops: seq<nat>, taken: seq<nat>)
    requires G.Closed(pg) && (forall i | 0 <= i < |pops| :: pops[i] in pg)
    requires (forall i | 0 <= i < |taken| :: taken[i] in pg) && G.Distinct(taken)
    ensures Disjoint(Groups(pg, pops, taken), G.Elems(taken), pg.Keys)
    ensures HeadsReach(Groups(pg, pops, taken), pg)
    ensures forall v | v in pops && v !in taken :: exists i :: 0 <= i < |Groups(pg, pops, taken)| && v in Groups(pg, pops, taken)[i].members
    decreases |pops|
  {
    if pops != [] {
      var u := pops[0];
      if u in taken {
        GroupsFacts(pg, pops[1..], taken);
        assert Groups(pg, pops, taken) == Groups(pg, pops[1..], taken);
        forall v | v in pops && v !in taken ensures v in pops[1..] {
        }
      } else {
        G.DfsExtends(pg, [u], taken);
        G.DfsDistinct(pg, [u], taken);
        var taken' := G.Dfs(pg, [u], taken);
        var c := Component(u, G.NewlyVisited(pg, u, taken));
        G.NewlyVisitedReach(pg, u, taken);
        var rest := Groups(pg, pops[1..], taken');
        assert Groups(pg, pops, taken) == [c] + rest;
        assert G.Elems(taken') == G.Elems(taken) + c.members by {
          forall v | v in taken ensures v in taken' {
            var j :| 0 <= j < |taken| && taken[j] == v;
            assert taken'[j] == v;
          }
        }
        hide G.Dfs, G.NewlyVisited, Groups, G.Reach, Disjoint, HeadsReach;
        GroupsFacts(pg, pops[1..], taken');
        PrependDisjoint(c, rest, G.Elems(taken), pg.Keys);
        PrependReach(c, rest, pg);
        forall v | v in pops && v !in taken ensures exists i :: 0 <= i < |[c] + rest| && v in ([c] + rest)[i].members {
          if v !in c.members {
            assert v in pops[1..] && v !in taken';
          }
          PrependCovers(c, rest, v);
        }
      }
    }
  }

  /** The corrected grouping: each popped state not yet taken heads the untaken part of its
      strongly connected component, the states it reaches along epsilon edges and that reach it. */
  function SccGroups(eg: G.Graph, pg: G.Graph, pops: seq<nat>, taken: set<nat>): (r: seq<Component>)
    requires G.Closed(eg) && G.Closed(pg) && eg.Keys == pg.Keys
    requires forall i | 0 <= i < |pops| :: pops[i] in pg
    decreases |pops|
  {
    if pops == [] then []
    else if pops[0] in taken then SccGroups(eg, pg, pops[1..], taken)
    else
      var u := pops[0];
      var m := (set v | v in G.Reach(eg, u) && v in G.Reach(pg, u)) - taken;
      [Component(u, m)] + SccGroups(eg, pg, pops[1..], taken + m)
  }

  lemma {:induction false} SccGroupsFacts(eg: G.Graph, pg: G.Graph, pops: seq<nat>, taken: set<nat>)
    requires G.Closed(eg) && G.Closed(pg) && eg.Keys == pg.Keys
    requires forall i | 0 <= i < |pops| :: pops[i] in pg
    ensures Disjoint(SccGroups(eg, pg, pops, taken), taken, pg.Keys)
    ensures HeadsReach(SccGroups(eg, pg, pops, taken), pg) && HeadsReach(SccGroups(eg, pg, pops, taken), eg)
    ensures forall v | v in pops && v !in taken :: exists i :: 0 <= i < |SccGroups(eg, pg, pops, taken)| && v in SccGroups(eg, pg, pops, taken)[i].members
    decreases |pops|
  {
    if pops != [] {
      var u := pops[0];
      if u in taken {
        SccGroupsFacts(eg, pg, pops[1..], taken);
        assert SccGroups(eg, pg, pops, taken) == SccGroups(eg, pg, pops[1..], taken);
        forall v | v in pops && v !in taken ensures v in pops[1..] {
        }
      } else {
        var m := (set v | v in G.Reach(eg, u) && v in G.Reach(pg, u)) - taken;
        var c := Component(u, m);
        var rest := SccGroups(eg, pg, pops[1..], taken + m);
        assert SccGroups(eg, pg, pops, taken) == [c] + rest;
        G.ReachIsLeast(eg, u);
        G.ReachIsLeast(pg, u);
        assert u in m && m <= G.Reach(pg, u) && m <= G.Reach(eg, u) && m !! taken && m <= pg.Keys;
        hide SccGroups, G.Reach, Disjoint, HeadsReach;
        SccGroupsFacts(eg, pg, pops[1..], taken + m);
        PrependDisjoint(c, rest, taken, pg.Keys);
        PrependReach(c, rest, pg);
        PrependReach(c, rest, eg);
        forall v | v in pops && v !in taken ensures exists i :: 0 <= i < |[c] + rest| && v in ([c] + rest)[i].members {
          if v !in m {
            assert v in pops[1..] && v !in taken + m;
          }
          PrependCovers(c, rest, v);
        }
      }
    }
  }

  /** The head of each member's component. */
  function HeadOf(comps: seq<Component>): map<nat, nat> {
    if comps == [] then map[]
    else HeadOf(comps[1..]) + map v | v in comps[0].members :: comps[0].head
  }

  /** The members of each head's component. */
  function GroupOf(comps: seq<Component>): map<nat, set<nat>> {
    if comps == [] then map[]
    else GroupOf(comps[1..])[comps[0].head := comps[0].members]
  }

  /** In disjoint components, the i-th one is its head's group and its members' head. */
  lemma {:induction false} ComponentAt(comps: seq<Component>, T: set<nat>, keys: set<nat>, i: nat)
    requires Disjoint(comps, T, keys) && i < |comps|
    ensures comps[i].head in GroupOf(comps) && GroupOf(comps)[comps[i].head] == comps[i].members
    ensures forall v | v in comps[i].members :: v in HeadOf(comps) && HeadOf(comps)[v] == comps[i].head
  {
    if i > 0 {
      assert comps[1..][i - 1] == comps[i];
      assert comps[i].head != comps[0].head by {
        assert comps[i].head in comps[i].members;
      }
      assert comps[i].members !! comps[0].members;
      ComponentAt(comps[1..], T, keys, i - 1);
    }
  }

  /** Every entry of HeadOf comes from some component. */
  lemma {:induction false} HeadOfFrom(comps: seq<Component>)
    ensures forall v | v in HeadOf(comps) :: exists i :: 0 <= i < |comps| && HeadOf(comps)[v] == comps[i].head
  {
    if comps != [] {
      var rest := comps[1..];
      HeadOfFrom(rest);
      forall v | v in HeadOf(comps) ensures exists i :: 0 <= i < |comps| && HeadOf(comps)[v] == comps[i].head {
        if v !in comps[0].members {
          assert v in HeadOf(rest);
          var i :| 0 <= i < |rest| && HeadOf(rest)[v] == rest[i].head;
          assert comps[i + 1] == rest[i];
        }
      }
    }
  }

  /** Every entry of GroupOf comes from some component. */
  lemma {:induction false} GroupOfFrom(comps: seq<Component>)
    ensures forall h | h in GroupOf(comps) :: exists i :: 0 <= i < |comps| && h == comps[i].head && GroupOf(comps)[h] == comps[i].members
  {
    if comps != [] {
      var rest := comps[1..];
      GroupOfFrom(rest);
      forall h | h in GroupOf(comps) ensures exists i :: 0 <= i < |comps| && h == comps[i].head && GroupOf(comps)[h] == comps[i].members {
        if h != comps[0].head {
          assert h in GroupOf(rest);
          var i :| 0 <= i < |rest| && h == rest[i].head && GroupOf(rest)[h] == rest[i].members;
          assert comps[i + 1] == rest[i];
        }
      }
    }
  }

  /** What the merge needs: K is closed under transitions, the groups lie in K, every state of K
      has a head, and every head heads a group. */
  ghost predicate Grouping(a: Arena, K: set<nat>, head: map<nat, nat>, group: map<nat, set<nat>>) {
    Valid(a) && TransClosed(a, K) && group.Keys <= K && (forall h | h in group :: group[h] <= K) &&
    K <= head.Keys && (forall v | v in head :: head[v] in group)
  }

  /** The groups and their heads are states of the arena. */
  lemma GroupingWithin(a: Arena, K: set<nat>, head: map<nat, nat>, group: map<nat, set<nat>>)
    requires Grouping(a, K, head, group)
    ensures Valid(a) && TransClosed(a, K) && K <= a.states.Keys && K <= head.Keys
    ensures group.Keys <= a.states.Keys && forall h | h in group :: group[h] <= K && group[h] <= a.states.Keys
  {
  }

  lemma PartitionGrouping(a: Arena, K: set<nat>, comps: seq<Component>)
    requires Valid(a) && TransClosed(a, K) && Partition(comps, K)
    ensures Grouping(a, K, HeadOf(comps), GroupOf(comps))
  {
    PartitionHeads(K, comps);
    PartitionGroups(K, comps);
  }

  lemma PartitionHeads(K: set<nat>, comps: seq<Component>)
    requires Partition(comps, K)
    ensures K <= HeadOf(comps).Keys && forall v | v in HeadOf(comps) :: HeadOf(comps)[v] in GroupOf(comps)
  {
    hide HeadOf, GroupOf, Disjoint;
    forall v | v in K ensures v in HeadOf(comps) {
      var i :| 0 <= i < |comps| && v in comps[i].members;
      ComponentAt(comps, {}, K, i);
    }
    HeadOfFrom(comps);
    forall v | v in HeadOf(comps) ensures HeadOf(comps)[v] in GroupOf(comps) {
      var i :| 0 <= i < |comps| && HeadOf(comps)[v] == comps[i].head;
      ComponentAt(comps, {}, K, i);
    }
  }

  lemma PartitionGroups(K: set<nat>, comps: seq<Component>)
    requires Partition(comps, K)
    ensures GroupOf(comps).Keys <= K && forall h | h in GroupOf(comps) :: GroupOf(comps)[h] <= K
  {
    hide HeadOf, GroupOf;
    GroupOfFrom(comps);
  }

  /** The labels used by the members of C. */
  function GroupLabels(a: Arena, C: set<nat>): set<char>
    requires C <= a.states.Keys
  {
    set m, c | m in C && c in a.states[m].trans :: c
  }

  /** The targets under c of the members of C. */
  function MemberTargets(a: Arena, K: set<nat>, C: set<nat>, c: char): (r: set<nat>)
    requires TransClosed(a, K) && C <= K
    ensures r <= K
    ensures forall m, v | m in C && c in a.states[m].trans && v in a.states[m].trans[c] :: v in r
    ensures forall v | v in r :: exists m | m in C :: c in a.states[m].trans && v in a.states[m].trans[c]
  {
    set m, v | m in C && c in a.states[m].trans && v in a.states[m].trans[c] :: v
  }

  /** The heads of the states T. */
  function HeadsOf(head: map<nat, nat>, group: map<nat, set<nat>>, T: set<nat>): (r: set<nat>)
    requires T <= head.Keys && forall v | v in head :: head[v] in group
    ensures r <= group.Keys
    ensures forall v | v in T :: head[v] in r
    ensures forall x | x in r :: exists v | v in T :: head[v] == x
  {
    set v | v in T :: head[v]
  }

  /** The transitions of the merged group of h: under each label, the heads of all members'
      targets. */
  function GroupTrans(a: Arena, K: set<nat>, head: map<nat, nat>, group: map<nat, set<nat>>, h: nat): (r: map<char, set<nat>>)
    requires Grouping(a, K, head, group) && h in group
    ensures forall c | c in r :: r[c] <= group.Keys
  {
    map c | c in GroupLabels(a, group[h]) :: HeadsOf(head, group, MemberTargets(a, K, group[h], c))
  }

  /** The merge loop (src/NFA.cpp:255-274): every member is replaced by its head in every target
      set and the head collects its members' transitions; `acc` gives each head's acceptance. */
  function Merge(a: Arena, K: set<nat>, head: map<nat, nat>, group: map<nat, set<nat>>, acc: map<nat, bool>): (r: Arena)
    requires Grouping(a, K, head, group) && group.Keys <= acc.Keys
    ensures Valid(r) && r.states.Keys == group.Keys
  {
    Arena(map h | h in group :: NState(GroupTrans(a, K, head, group, h), acc[h]), a.top)
  }

  /** As written, a head keeps its own acceptance. */
  function KeepAcceptance(a: Arena, group: map<nat, set<nat>>): (acc: map<nat, bool>)
    requires group.Keys <= a.states.Keys
    ensures acc.Keys == group.Keys
  {
    map h | h in group :: a.states[h].accepting
  }

  /** Corrected, a head accepts when some member of its group does. */
  function JoinAcceptance(a: Arena, group: map<nat, set<nat>>): (acc: map<nat, bool>)
    requires forall h | h in group :: group[h] <= a.states.Keys
    ensures acc.Keys == group.Keys
  {
    map h | h in group :: exists m | m in group[h] :: a.states[m].accepting
  }

  /** Each head's acceptance: joined when `join`, kept otherwise. */
  function Acceptance(a: Arena, group: map<nat, set<nat>>, join: bool): (acc: map<nat, bool>)
    requires group.Keys <= a.states.Keys && forall h | h in group :: group[h] <= a.states.Keys
    ensures acc.Keys == group.Keys
  {
    if join then JoinAcceptance(a, group) else KeepAcceptance(a, group)
  }

  lemma AcceptanceAt(a: Arena, group: map<nat, set<nat>>, join: bool, h: nat)
    requires group.Keys <= a.states.Keys && (forall h | h in group :: group[h] <= a.states.Keys) && h in group
    ensures Acceptance(a, group, join)[h] ==
      if join then exists m | m in group[h] :: a.states[m].accepting else a.states[h].accepting
  {
  }

  /** Every set of E lies within E's keys. */
  predicate SetsWithin(E: map<nat, set<nat>>) {
    forall v | v in E :: E[v] <= E.Keys
  }

  /** The union of the sets of the states S. */
  function UnionOf(E: map<nat, set<nat>>, S: set<nat>): (r: set<nat>)
    requires S <= E.Keys && SetsWithin(E)
    ensures r <= E.Keys
    ensures forall w, x | w in S && x in E[w] :: x in r
    ensures forall x | x in r :: exists w | w in S :: x in E[w]
  {
    set w, x | w in S && x in E[w] :: x
  }

  /** `findEpsilonClosures` on u (src/NFA.cpp:73-91), over the epsilon sets E (the source's
      `transitions['\0']`, created empty when absent) and the states still `pending` (`explored`).
      A pending u leaves `pending`, closes each of its epsilon targets in increasing id order, then
      adds every target's current set and itself to its own set. */
  function Close(E: map<nat, set<nat>>, u: nat, pending: set<nat>): (r: (set<nat>, map<nat, set<nat>>))
    requires u in E && SetsWithin(E) && pending <= E.Keys
    ensures r.0 <= pending && r.1.Keys == E.Keys && SetsWithin(r.1)
    decreases |pending|, 0, 0
  {
    if u !in pending then (pending, E)
    else
      var (p, E') := CloseAll(E, SortedNats(E[u]), pending - {u});
      var S := E'[u] + UnionOf(E', E[u]) + {u};
      SetsWithinSet(E', u, S);
      (p, E'[u := S])
  }

  lemma SetsWithinSet(E: map<nat, set<nat>>, u: nat, S: set<nat>)
    requires SetsWithin(E) && u in E && S <= E.Keys
    ensures SetsWithin(E[u := S])
  {
  }

  /** `findEpsilonClosures` on each state of `list` in turn. */
  function CloseAll(E: map<nat, set<nat>>, list: seq<nat>, pending: set<nat>): (r: (set<nat>, map<nat, set<nat>>))
    requires (forall i | 0 <= i < |list| :: list[i] in E) && SetsWithin(E) && pending <= E.Keys
    ensures r.0 <= pending && r.1.Keys == E.Keys && SetsWithin(r.1)
    decreases |pending|, 1, |list|
  {
    if list == [] then (pending, E)
    else
      var (p, E') := Close(E, list[0], pending);
      G.CardMono(p, pending);
      CloseAll(E', list[1..], p)
  }

  lemma CloseUnfold(E: map<nat, set<nat>>, u: nat, pending: set<nat>)
    requires u in E && SetsWithin(E) && pending <= E.Keys
    ensures u !in pending ==> Close(E, u, pending) == (pending, E)
    ensures u in pending ==>
      var r := CloseAll(E, SortedNats(E[u]), pending - {u});
      Close(E, u, pending) == (r.0, r.1[u := r.1[u] + UnionOf(r.1, E[u]) + {u}])
  {
  }

  lemma CloseAllUnfold(E: map<nat, set<nat>>, list: seq<nat>, pending: set<nat>)
    requires (forall i | 0 <= i < |list| :: list[i] in E) && SetsWithin(E) && pending <= E.Keys
    ensures list == [] ==> CloseAll(E, list, pending) == (pending, E)
    ensures list != [] ==>
      var r := Close(E, list[0], pending);
      CloseAll(E, list, pending) == CloseAll(r.1, list[1..], r.0)
  {
  }

  /** A closed state is no longer pending, and neither is any state of a closed list. */
  lemma CloseDone(E: map<nat, set<nat>>, u: nat, pending: set<nat>)
    requires u in E && SetsWithin(E) && pending <= E.Keys
    ensures u !in Close(E, u, pending).0
  {
    CloseUnfold(E, u, pending);
  }

  lemma {:induction false} CloseAllDone(E: map<nat, set<nat>>, list: seq<nat>, pending: set<nat>)
    requires (forall i | 0 <= i < |list| :: list[i] in E) && SetsWithin(E) && pending <= E.Keys
    ensures forall i | 0 <= i < |list| :: list[i] !in CloseAll(E, list, pending).0
    decreases |list|
  {
    if list != [] {
      CloseAllUnfold(E, list, pending);
      var (p, E') := Close(E, list[0], pending);
      CloseDone(E, list[0], pending);
      CloseAllDone(E', list[1..], p);
      forall i | 0 <= i < |list| ensures list[i] !in CloseAll(E, list, pending).0 {
        if i > 0 {
          assert list[i] == list[1..][i - 1];
        }
      }
    }
  }

  /** Closing changes only the states it takes out of `pending`, and each of those ends holding
      itself and its former set. */
  lemma {:induction false} CloseFacts(E: map<nat, set<nat>>, u: nat, pending: set<nat>)
    requires u in E && SetsWithin(E) && pending <= E.Keys
    ensures Settles(E, Close(E, u, pending), pending)
    decreases |pending|, 0, 0
  {
    if u in pending {
      SortedWithin(E, u);
      CloseAllFacts(E, SortedNats(E[u]), pending - {u});
      CloseStep(E, u, pending);
    } else {
      CloseUnfold(E, u, pending);
      SettlesRefl(E, pending);
    }
  }

  lemma {:induction false} CloseAllFacts(E: map<nat, set<nat>>, list: seq<nat>, pending: set<nat>)
    requires (forall i | 0 <= i < |list| :: list[i] in E) && SetsWithin(E) && pending <= E.Keys
    ensures Settles(E, CloseAll(E, list, pending), pending)
    decreases |pending|, 1, |list|
  {
    if list != [] {
      var r := Close(E, list[0], pending);
      CloseFacts(E, list[0], pending);
      G.CardMono(r.0, pending);
      CloseAllFacts(r.1, list[1..], r.0);
      CloseAllStep(E, list, pending, r, CloseAll(r.1, list[1..], r.0));
    } else {
      SettlesRefl(E, pending);
    }
  }

  /** One step of each induction, given its recursive calls' facts. */
  lemma CloseStep(E: map<nat, set<nat>>, u: nat, pending: set<nat>)
    requires u in E && SetsWithin(E) && pending <= E.Keys && u in pending
    requires Settles(E, CloseAll(E, SortedNats(E[u]), pending - {u}), pending - {u})
    ensures Settles(E, Close(E, u, pending), pending)
  {
    CloseUnfold(E, u, pending);
    var r := CloseAll(E, SortedNats(E[u]), pending - {u});
    assert E[u] <= r.1.Keys;
    hide *;
    SettlesSet(E, r, pending, u, r.1[u] + UnionOf(r.1, E[u]) + {u});
  }

  lemma CloseAllStep(E: map<nat, set<nat>>, list: seq<nat>, pending: set<nat>, r1: (set<nat>, map<nat, set<nat>>), r2: (set<nat>, map<nat, set<nat>>))
    requires (forall i | 0 <= i < |list| :: list[i] in E) && SetsWithin(E) && pending <= E.Keys && list != []
    requires r1 == Close(E, list[0], pending) && r2 == CloseAll(r1.1, list[1..], r1.0)
    requires Settles(E, r1, pending) && Settles(r1.1, r2, r1.0)
    ensures Settles(E, CloseAll(E, list, pending), pending)
  {
    CloseAllUnfold(E, list, pending);
    hide *;
    SettlesTrans(E, r1, r2, pending);
  }

  /** E' agrees with E outside X. */
  ghost predicate Frame(E: map<nat, set<nat>>, E': map<nat, set<nat>>, X: set<nat>) {
    E'.Keys == E.Keys && forall v | v in E && v !in X :: E'[v] == E[v]
  }

  /** On X, E' holds each state itself and all it held in E. */
  ghost predicate Grown(E: map<nat, set<nat>>, E': map<nat, set<nat>>, X: set<nat>) {
    forall v | v in X :: v in E && v in E' && v in E'[v] && E[v] <= E'[v]
  }

  /** r changes only the states it settled, those of `pending` no longer pending, and each of
      those holds itself and its former set. */
  ghost predicate Settles(E: map<nat, set<nat>>, r: (set<nat>, map<nat, set<nat>>), pending: set<nat>) {
    r.0 <= pending && Frame(E, r.1, pending - r.0) && Grown(E, r.1, pending - r.0)
  }

  lemma SettlesRefl(E: map<nat, set<nat>>, pending: set<nat>)
    ensures Settles(E, (pending, E), pending)
  {
    assert pending - pending == {};
  }

  lemma SettlesSet(E: map<nat, set<nat>>, r: (set<nat>, map<nat, set<nat>>), pending: set<nat>, u: nat, S: set<nat>)
    requires Settles(E, r, pending - {u}) && u in pending && u in E && r.1[u] <= S && u in S
    ensures Settles(E, (r.0, r.1[u := S]), pending)
  {
    assert (pending - {u}) - r.0 + {u} == pending - r.0;
  }

  lemma SettlesTrans(E: map<nat, set<nat>>, r1: (set<nat>, map<nat, set<nat>>), r2: (set<nat>, map<nat, set<nat>>), pending: set<nat>)
    requires Settles(E, r1, pending) && Settles(r1.1, r2, r1.0)
    ensures Settles(E, r2, pending)
  {
    assert (pending - r1.0) + (r1.0 - r2.0) == pending - r2.0;
  }

  lemma SortedWithin(E: map<nat, set<nat>>, u: nat)
    requires u in E && SetsWithin(E)
    ensures forall i | 0 <= i < |SortedNats(E[u])| :: SortedNats(E[u])[i] in E
  {
  }

  /** The graph of the sets E: the successors of v are the members of E[v], by increasing id. */
  function SetGraph(E: map<nat, set<nat>>): (g: G.Graph)
    requires SetsWithin(E)
    ensures g.Keys == E.Keys && G.Closed(g)
  {
    var g := map v | v in E :: SortedNats(E[v]);
    assert G.Closed(g) by {
      forall u, i | u in g && 0 <= i < |g[u]| ensures g[u][i] in g {
        assert g[u][i] in E[u];
      }
    }
    g
  }

  /** A member of E[v] is reachable from v in the graph of E. */
  lemma SetGraphStep(E: map<nat, set<nat>>, v: nat, w: nat)
    requires SetsWithin(E) && v in E && w in E[v]
    ensures w in G.Reach(SetGraph(E), v)
  {
    var g := SetGraph(E);
    assert w in g[v];
    var i :| 0 <= i < |g[v]| && g[v][i] == w;
    G.ReachSucc(g, v, i);
  }

  /** Every set of E holds only states reachable in g from its key. */
  ghost predicate Sound(g: G.Graph, E: map<nat, set<nat>>) {
    E.Keys <= g.Keys && forall v | v in E :: E[v] <= G.Reach(g, v)
  }

  /** The new set of a closed state is sound when the sets it is built from are. */
  lemma SoundSet(g: G.Graph, E: map<nat, set<nat>>, E': map<nat, set<nat>>, u: nat)
    requires G.Closed(g) && Sound(g, E) && Sound(g, E') && u in E && E'.Keys == E.Keys
    requires SetsWithin(E) && SetsWithin(E')
    ensures Sound(g, E'[u := E'[u] + UnionOf(E', E[u]) + {u}])
  {
    var U := UnionOf(E', E[u]);
    SoundUnion(g, E, E', u);
    G.ReachIsLeast(g, u);
    SoundUpdate(g, E', u, E'[u] + U + {u});
  }

  /** What the targets of u reach, u reaches. */
  lemma SoundUnion(g: G.Graph, E: map<nat, set<nat>>, E': map<nat, set<nat>>, u: nat)
    requires G.Closed(g) && Sound(g, E) && Sound(g, E') && u in E && E'.Keys == E.Keys
    requires SetsWithin(E) && SetsWithin(E')
    ensures UnionOf(E', E[u]) <= G.Reach(g, u)
  {
    forall x | x in UnionOf(E', E[u]) ensures x in G.Reach(g, u) {
      var w :| w in E[u] && x in E'[w];
      G.ReachTrans(g, u, w);
    }
  }

  lemma SoundUpdate(g: G.Graph, E: map<nat, set<nat>>, u: nat, S: set<nat>)
    requires Sound(g, E) && u in E && S <= G.Reach(g, u)
    ensures Sound(g, E[u := S])
  {
  }

  /** Closing keeps every set within what its state reaches in g. */
  lemma {:induction false} CloseSound(g: G.Graph, E: map<nat, set<nat>>, u: nat, pending: set<nat>)
    requires u in E && SetsWithin(E) && pending <= E.Keys && G.Closed(g) && Sound(g, E)
    ensures Sound(g, Close(E, u, pending).1)
    decreases |pending|, 0, 0
  {
    if u in pending {
      SortedWithin(E, u);
      CloseAllSound(g, E, SortedNats(E[u]), pending - {u});
      CloseSoundStep(g, E, u, pending);
    } else {
      CloseUnfold(E, u, pending);
    }
  }

  lemma CloseSoundStep(g: G.Graph, E: map<nat, set<nat>>, u: nat, pending: set<nat>)
    requires u in E && SetsWithin(E) && pending <= E.Keys && u in pending && G.Closed(g) && Sound(g, E)
    requires Sound(g, CloseAll(E, SortedNats(E[u]), pending - {u}).1)
    ensures Sound(g, Close(E, u, pending).1)
  {
    CloseUnfold(E, u, pending);
    var r := CloseAll(E, SortedNats(E[u]), pending - {u});
    hide *;
    SoundSet(g, E, r.1, u);
  }

  lemma {:induction false} CloseAllSound(g: G.Graph, E: map<nat, set<nat>>, list: seq<nat>, pending: set<nat>)
    requires (forall i | 0 <= i < |list| :: list[i] in E) && SetsWithin(E) && pending <= E.Keys
    requires G.Closed(g) && Sound(g, E)
    ensures Sound(g, CloseAll(E, list, pending).1)
    decreases |pending|, 1, |list|
  {
    CloseAllUnfold(E, list, pending);
    if list != [] {
      var r := Close(E, list[0], pending);
      CloseSound(g, E, list[0], pending);
      G.CardMono(r.0, pending);
      CloseAllSound(g, r.1, list[1..], r.0);
    }
  }

  /** The epsilon set of every state, empty when it has none. */
  function EpsSets(M: Arena): (E: map<nat, set<nat>>)
    requires Valid(M)
    ensures E.Keys == M.states.Keys && SetsWithin(E)
  {
    map q | q in M.states :: EpsTargets(M.states[q])
  }

  /** The closure loop (src/NFA.cpp:275-279): `findEpsilonClosures` on every head in turn. */
  function Closures(M: Arena, heads: seq<nat>): (Cl: map<nat, set<nat>>)
    requires Valid(M) && forall i | 0 <= i < |heads| :: heads[i] in M.states
    ensures Cl.Keys == M.states.Keys && SetsWithin(Cl)
  {
    CloseAll(EpsSets(M), heads, M.states.Keys).1
  }

  /** The epsilon graph of M, over all its states. */
  function EpsGraphOf(M: Arena): (g: G.Graph)
    requires Valid(M)
    ensures g.Keys == M.states.Keys && G.Closed(g)
  {
    SetGraph(EpsSets(M))
  }

  /** After the closure loop every head holds itself and its epsilon targets, and every set
      holds only states epsilon-reachable from its key. */
  lemma ClosuresFacts(M: Arena, heads: seq<nat>)
    requires Valid(M) && forall i | 0 <= i < |heads| :: heads[i] in M.states
    ensures forall i | 0 <= i < |heads| ::
      heads[i] in Closures(M, heads)[heads[i]] && EpsTargets(M.states[heads[i]]) <= Closures(M, heads)[heads[i]]
    ensures forall q | q in M.states :: Closures(M, heads)[q] <= G.Reach(EpsGraphOf(M), q)
  {
    var E := EpsSets(M);
    var g := EpsGraphOf(M);
    var r := CloseAll(E, heads, M.states.Keys);
    assert Closures(M, heads) == r.1;
    forall v | v in E ensures E[v] <= G.Reach(g, v) {
      forall w | w in E[v] ensures w in G.Reach(g, v) {
        SetGraphStep(E, v, w);
      }
    }
    CloseAllSound(g, E, heads, M.states.Keys);
    CloseAllFacts(E, heads, M.states.Keys);
    CloseAllDone(E, heads, M.states.Keys);
    hide *;
    forall i | 0 <= i < |heads| ensures heads[i] in r.1[heads[i]] && E[heads[i]] <= r.1[heads[i]] {
      assert heads[i] in M.states.Keys - r.0;
    }
  }

  /** The labels q has after absorbing its closure, epsilon excluded: its own and those of
      closure members with a nonempty target set under them. */
  function AbsorbedLabels(M: Arena, Cl: map<nat, set<nat>>, q: nat): (r: set<char>)
    requires Valid(M) && Cl.Keys == M.states.Keys && SetsWithin(Cl) && q in M.states
    ensures Eps !in r
  {
    (set c | c in M.states[q].trans && c != Eps) +
    (set p, c, r | p in Cl[q] && c in M.states[p].trans && c != Eps && r in M.states[p].trans[c] :: c)
  }

  /** The targets of q under c after absorption: its own, and the closure of every c-target of
      every member of its closure. */
  function AbsorbedTargets(M: Arena, Cl: map<nat, set<nat>>, q: nat, c: char): (r: set<nat>)
    requires Valid(M) && Cl.Keys == M.states.Keys && SetsWithin(Cl) && q in M.states
    ensures r <= M.states.Keys
  {
    (if c in M.states[q].trans then M.states[q].trans[c] else {}) +
    (set p, r, t | p in Cl[q] && c in M.states[p].trans && r in M.states[p].trans[c] && t in Cl[r] :: t)
  }

  /** The absorption loop and the erasure of epsilon keys (src/NFA.cpp:280-309), as one
      simultaneous update: q accepts when a member of its closure does, and under each other
      label it gains the closures of its closure members' targets. */
  function Absorb(M: Arena, Cl: map<nat, set<nat>>): (r: Arena)
    requires Valid(M) && Cl.Keys == M.states.Keys && SetsWithin(Cl)
    ensures Valid(r) && r.states.Keys == M.states.Keys
    ensures forall q | q in r.states :: Eps !in r.states[q].trans
  {
    Arena(map q | q in M.states ::
      NState(map c | c in AbsorbedLabels(M, Cl, q) :: AbsorbedTargets(M, Cl, q, c),
             M.states[q].accepting || exists p | p in Cl[q] :: M.states[p].accepting),
      M.top)
  }

  /** After the closure loop and absorption, a head accepts when it or one of its epsilon targets
      accepted, and only when some state epsilon-reachable from it accepted. */
  lemma AbsorbAccepting(M: Arena, heads: seq<nat>, i: nat)
    requires Valid(M) && (forall k | 0 <= k < |heads| :: heads[k] in M.states) && i < |heads|
    ensures M.states[heads[i]].accepting ==> Absorb(M, Closures(M, heads)).states[heads[i]].accepting
    ensures forall p | p in EpsTargets(M.states[heads[i]]) && M.states[p].accepting ::
      Absorb(M, Closures(M, heads)).states[heads[i]].accepting
    ensures Absorb(M, Closures(M, heads)).states[heads[i]].accepting ==>
      exists p :: p in G.Reach(EpsGraphOf(M), heads[i]) && p in M.states && M.states[p].accepting
  {
    var q := heads[i];
    var Cl := Closures(M, heads);
    ClosuresFacts(M, heads);
    var g := EpsGraphOf(M);
    G.ReachIsLeast(g, q);
    assert Absorb(M, Cl).states[q].accepting == (M.states[q].accepting || exists p | p in Cl[q] :: M.states[p].accepting);
    hide *;
    forall p | p in EpsTargets(M.states[q]) && M.states[p].accepting ensures Absorb(M, Cl).states[q].accepting {
      assert p in Cl[q];
    }
    if Absorb(M, Cl).states[q].accepting {
      if M.states[q].accepting {
        assert q in G.Reach(g, q);
      } else {
        var p :| p in Cl[q] && M.states[p].accepting;
        assert p in G.Reach(g, q);
      }
    }
  }

  function Heads(comps: seq<Component>): (r: seq<nat>)
    ensures |r| == |comps| && forall i | 0 <= i < |comps| :: r[i] == comps[i].head
  {
    seq(|comps|, i requires 0 <= i < |comps| => comps[i].head)
  }

  /** The states reachable from root. */
  function Reachable(a: Arena, root: nat): (K: set<nat>)
    requires Valid(a) && root in a.states
    ensures root in K && K <= a.states.Keys && TransClosed(a, K)
  {
    ReachClosed(a, root);
    G.Reach(ToGraph(a, {}), root)
  }

  lemma GraphsOver(a: Arena, K: set<nat>)
    requires TransClosed(a, K)
    ensures G.Closed(EpsGraph(a, K)) && G.Closed(ParentGraph(a, K))
  {
    EpsGraphClosed(a, K);
  }

  /** A path along reversed epsilon edges is an epsilon path read backwards. */
  lemma ParentPath(a: Arena, K: set<nat>, u: nat, v: nat)
    requires TransClosed(a, K) && u in K && v in G.Reach(ParentGraph(a, K), u)
    ensures u in G.Reach(EpsGraph(a, K), v)
  {
    ParentReverses(a, K);
    G.ReachReverse(ParentGraph(a, K), EpsGraph(a, K), u, v);
  }

  /** The order in which the `ordered` stack pops the reachable states (src/NFA.cpp:202-231),
      over the discovery order of the first traversal. */
  function Pops(a: Arena, root: nat): (r: seq<nat>)
    requires Valid(a) && root in a.states
    ensures forall i | 0 <= i < |r| :: r[i] in Reachable(a, root)
  {
    var K := Reachable(a, root);
    GraphsOver(a, K);
    PopOrderFacts(EpsGraph(a, K), Discovered(a, root), []);
    PopOrder(EpsGraph(a, K), Discovered(a, root), [])
  }

  /** Every reachable state is popped. */
  lemma PopsCover(a: Arena, root: nat, v: nat)
    requires Valid(a) && root in a.states && v in Reachable(a, root)
    ensures v in Pops(a, root)
  {
    var K := Reachable(a, root);
    GraphsOver(a, K);
    var D := Discovered(a, root);
    PopOrderFacts(EpsGraph(a, K), D, []);
    assert Pops(a, root) == PopOrder(EpsGraph(a, K), D, []);
    DiscoveredCovers(a, root, v);
    hide *;
    var i :| 0 <= i < |D| && D[i] == v;
  }

  /** The components exactly as the source forms them. */
  function SourceComponents(a: Arena, root: nat): seq<Component>
    requires Valid(a) && root in a.states
  {
    GraphsOver(a, Reachable(a, root));
    Groups(ParentGraph(a, Reachable(a, root)), Pops(a, root), [])
  }

  /** The strongly connected components, in the order the source would head them. */
  function Components(a: Arena, root: nat): seq<Component>
    requires Valid(a) && root in a.states
  {
    var K := Reachable(a, root);
    GraphsOver(a, K);
    SccGroups(EpsGraph(a, K), ParentGraph(a, K), Pops(a, root), {})
  }

  /** Every state popped before the first state of todo is one it does not reach: its tree is
      the first one built and the last one popped. */
  lemma PopOrderFirst(eg: G.Graph, todo: seq<nat>) returns (k: nat)
    requires G.Closed(eg) && |todo| > 0 && forall i | 0 <= i < |todo| :: todo[i] in eg
    ensures k < |PopOrder(eg, todo, [])| && PopOrder(eg, todo, [])[k] == todo[0]
    ensures forall j | 0 <= j < k :: PopOrder(eg, todo, [])[j] !in G.Reach(eg, todo[0])
  {
    var root := todo[0];
    G.DfsRoot(eg, root);
    var T := G.Dfs(eg, [root], []);
    forall i | 0 <= i < |todo[1..]| ensures todo[1..][i] in eg {
      assert todo[1..][i] == todo[i + 1];
    }
    PopOrderFacts(eg, todo[1..], T);
    var F := PopOrder(eg, todo[1..], T);
    assert PopOrder(eg, todo, []) == F + T by {
      assert G.Distinct([]);
      assert T[0..] == T;
    }
    hide *;
    k := |F|;
    forall j | 0 <= j < k ensures (F + T)[j] !in G.Reach(eg, root) {
      assert (F + T)[j] == F[j] && F[j] !in T;
      if F[j] in G.Reach(eg, root) {
        G.DfsReach(eg, root, F[j]);
        assert false;
      }
    }
  }

  /** Root's epsilon tree is popped last: every state popped before root is outside it, so
      root does not reach it along reversed edges. */
  lemma RootPosition(a: Arena, root: nat) returns (k: nat)
    requires Valid(a) && root in a.states
    ensures k < |Pops(a, root)| && Pops(a, root)[k] == root
    ensures forall j | 0 <= j < k :: root !in G.Reach(ParentGraph(a, Reachable(a, root)), Pops(a, root)[j])
  {
    var K := Reachable(a, root);
    GraphsOver(a, K);
    var eg, pg := EpsGraph(a, K), ParentGraph(a, K);
    var D := Discovered(a, root);
    k := PopOrderFirst(eg, D);
    var P := Pops(a, root);
    assert P == PopOrder(eg, D, []);
    hide *;
    forall j | 0 <= j < k ensures root !in G.Reach(pg, P[j]) {
      if root in G.Reach(pg, P[j]) {
        ParentPath(a, K, P[j], root);
        assert false;
      }
    }
  }

  /** A popped state that no earlier pop reaches along reversed edges, and that is not taken
      yet, heads a component of the source's grouping. */
  lemma {:induction false} GroupsHead(pg: G.Graph, pops: seq<nat>, taken: seq<nat>, k: nat)
    requires G.Closed(pg) && (forall i | 0 <= i < |pops| :: pops[i] in pg)
    requires (forall i | 0 <= i < |taken| :: taken[i] in pg) && G.Distinct(taken)
    requires k < |pops| && pops[k] !in taken
    requires forall j | 0 <= j < k :: pops[k] !in G.Reach(pg, pops[j])
    ensures exists i :: 0 <= i < |Groups(pg, pops, taken)| && Groups(pg, pops, taken)[i].head == pops[k]
    decreases |pops|
  {
    var x := pops[k];
    if k == 0 {
      assert Groups(pg, pops, taken)[0].head == x;
    } else {
      assert pops[1..][k - 1] == x;
      if pops[0] in taken {
        assert Groups(pg, pops, taken) == Groups(pg, pops[1..], taken);
        GroupsHead(pg, pops[1..], taken, k - 1);
      } else {
        G.DfsExtends(pg, [pops[0]], taken);
        G.DfsDistinct(pg, [pops[0]], taken);
        var taken' := G.Dfs(pg, [pops[0]], taken);
        G.NewlyVisitedReach(pg, pops[0], taken);
        assert x !in taken' by {
          assert x !in G.NewlyVisited(pg, pops[0], taken);
          assert x !in G.Elems(taken);
        }
        GroupsHead(pg, pops[1..], taken', k - 1);
        var rest := Groups(pg, pops[1..], taken');
        var i :| 0 <= i < |rest| && rest[i].head == x;
        assert Groups(pg, pops, taken)[i + 1] == rest[i];
      }
    }
  }

  /** The same for the strongly connected grouping. */
  lemma {:induction false} SccGroupsHead(eg: G.Graph, pg: G.Graph, pops: seq<nat>, taken: set<nat>, k: nat)
    requires G.Closed(eg) && G.Closed(pg) && eg.Keys == pg.Keys
    requires forall i | 0 <= i < |pops| :: pops[i] in pg
    requires k < |pops| && pops[k] !in taken
    requires forall j | 0 <= j < k :: pops[k] !in G.Reach(pg, pops[j])
    ensures exists i :: 0 <= i < |SccGroups(eg, pg, pops, taken)| && SccGroups(eg, pg, pops, taken)[i].head == pops[k]
    decreases |pops|
  {
    var x := pops[k];
    if k == 0 {
      assert SccGroups(eg, pg, pops, taken)[0].head == x;
    } else {
      assert pops[1..][k - 1] == x;
      if pops[0] in taken {
        assert SccGroups(eg, pg, pops, taken) == SccGroups(eg, pg, pops[1..], taken);
        SccGroupsHead(eg, pg, pops[1..], taken, k - 1);
      } else {
        var u := pops[0];
        var m := (set v | v in G.Reach(eg, u) && v in G.Reach(pg, u)) - taken;
        SccGroupsHead(eg, pg, pops[1..], taken + m, k - 1);
        var rest := SccGroups(eg, pg, pops[1..], taken + m);
        var i :| 0 <= i < |rest| && rest[i].head == x;
        assert SccGroups(eg, pg, pops, taken)[i + 1] == rest[i];
      }
    }
  }

  /** The source's components partition the reachable states. */
  lemma SourceComponentsPartition(a: Arena, root: nat)
    requires Valid(a) && root in a.states
    ensures Partition(SourceComponents(a, root), Reachable(a, root))
  {
    var K := Reachable(a, root);
    GraphsOver(a, K);
    var eg, pg := EpsGraph(a, K), ParentGraph(a, K);
    var P := Pops(a, root);
    var comps := SourceComponents(a, root);
    assert comps == Groups(pg, P, []);
    assert G.Elems([]) == {} && G.Distinct([]);
    GroupsFacts(pg, P, []);
    assert Disjoint(comps, {}, K);
    hide Groups, Pops, SourceComponents, Reachable, EpsGraph, ParentGraph, G.Reach, PopOrder, Discovered, Disjoint, HeadsReach, G.Elems;
    forall v | v in K ensures exists i :: 0 <= i < |comps| && v in comps[i].members {
      PopsCover(a, root, v);
      assert v in P && v !in [];
    }
  }

  /** Root heads one of the source's components. */
  lemma SourceComponentsRoot(a: Arena, root: nat)
    requires Valid(a) && root in a.states
    ensures exists i :: 0 <= i < |SourceComponents(a, root)| && SourceComponents(a, root)[i].head == root
  {
    var K := Reachable(a, root);
    GraphsOver(a, K);
    var eg, pg := EpsGraph(a, K), ParentGraph(a, K);
    var P := Pops(a, root);
    var comps := SourceComponents(a, root);
    assert comps == Groups(pg, P, []);
    assert G.Elems([]) == {} && G.Distinct([]);
    var k := RootPosition(a, root);
    GroupsHead(pg, P, [], k);
  }

  /** The strongly connected components partition the reachable states. */
  lemma ComponentsPartition(a: Arena, root: nat)
    requires Valid(a) && root in a.states
    ensures Partition(Components(a, root), Reachable(a, root))
  {
    var K := Reachable(a, root);
    GraphsOver(a, K);
    var eg, pg := EpsGraph(a, K), ParentGraph(a, K);
    var P := Pops(a, root);
    var comps := Components(a, root);
    assert comps == SccGroups(eg, pg, P, {});
    SccGroupsFacts(eg, pg, P, {});
    assert Disjoint(comps, {}, K);
    hide SccGroups, Pops, Components, Reachable, EpsGraph, ParentGraph, G.Reach, PopOrder, Discovered, Disjoint, HeadsReach;
    forall v | v in K ensures exists i :: 0 <= i < |comps| && v in comps[i].members {
      PopsCover(a, root, v);
      assert v in P && v !in {};
    }
  }

  /** Root heads one of the strongly connected components. */
  lemma ComponentsRoot(a: Arena, root: nat)
    requires Valid(a) && root in a.states
    ensures exists i :: 0 <= i < |Components(a, root)| && Components(a, root)[i].head == root
  {
    var K := Reachable(a, root);
    GraphsOver(a, K);
    var eg, pg := EpsGraph(a, K), ParentGraph(a, K);
    var P := Pops(a, root);
    var comps := Components(a, root);
    assert comps == SccGroups(eg, pg, P, {});
    var k := RootPosition(a, root);
    SccGroupsHead(eg, pg, P, {}, k);
  }

  /** Every member of a source component reaches its head along epsilon edges. */
  lemma SourceComponentsReach(a: Arena, root: nat, i: nat, v: nat)
    requires Valid(a) && root in a.states
    requires i < |SourceComponents(a, root)| && v in SourceComponents(a, root)[i].members
    ensures SourceComponents(a, root)[i].head in G.Reach(EpsGraph(a, Reachable(a, root)), v)
  {
    var K := Reachable(a, root);
    GraphsOver(a, K);
    var eg, pg := EpsGraph(a, K), ParentGraph(a, K);
    var P := Pops(a, root);
    var comps := SourceComponents(a, root);
    assert comps == Groups(pg, P, []);
    assert G.Elems([]) == {} && G.Distinct([]);
    GroupsFacts(pg, P, []);
    hide Groups, Pops, SourceComponents, Reachable, EpsGraph, ParentGraph, PopOrder, Discovered;
    assert v in G.Reach(pg, comps[i].head);
    assert comps[i].head in K;
    ParentPath(a, K, comps[i].head, v);
  }

  /** The members of a strongly connected component and its head reach each other along
      epsilon edges. */
  lemma ComponentsReach(a: Arena, root: nat, i: nat, v: nat)
    requires Valid(a) && root in a.states
    requires i < |Components(a, root)| && v in Components(a, root)[i].members
    ensures v in G.Reach(EpsGraph(a, Reachable(a, root)), Components(a, root)[i].head)
    ensures Components(a, root)[i].head in G.Reach(EpsGraph(a, Reachable(a, root)), v)
  {
    var K := Reachable(a, root);
    GraphsOver(a, K);
    var eg, pg := EpsGraph(a, K), ParentGraph(a, K);
    var P := Pops(a, root);
    var comps := Components(a, root);
    assert comps == SccGroups(eg, pg, P, {});
    SccGroupsFacts(eg, pg, P, {});
    hide SccGroups, Pops, Components, Reachable, EpsGraph, ParentGraph, PopOrder, Discovered;
    assert v in G.Reach(pg, comps[i].head) && v in G.Reach(eg, comps[i].head);
    assert comps[i].head in K;
    ParentPath(a, K, comps[i].head, v);
  }

  /** The i-th component of a partition is its head's group, and the head lies in K. */
  lemma PartitionAt(comps: seq<Component>, K: set<nat>, i: nat)
    requires Partition(comps, K) && i < |comps|
    ensures comps[i].head in GroupOf(comps) && GroupOf(comps)[comps[i].head] == comps[i].members
    ensures comps[i].members <= K && comps[i].head in comps[i].members
    ensures forall v | v in comps[i].members :: v in HeadOf(comps) && HeadOf(comps)[v] == comps[i].head
  {
    ComponentAt(comps, {}, K, i);
  }

  /** A head of a partition is a key of GroupOf. */
  lemma HeadsGrouped(comps: seq<Component>, K: set<nat>)
    requires Partition(comps, K)
    ensures forall i | 0 <= i < |comps| :: comps[i].head in GroupOf(comps)
  {
    forall i | 0 <= i < |comps| ensures comps[i].head in GroupOf(comps) {
      ComponentAt(comps, {}, K, i);
    }
  }

  /** Merging, closing and absorbing, given the components and each head's acceptance. */
  function Contract(a: Arena, K: set<nat>, comps: seq<Component>, join: bool): (M: Arena)
    requires Valid(a) && TransClosed(a, K) && Partition(comps, K)
    ensures Valid(M) && M.states.Keys == GroupOf(comps).Keys
    ensures forall i | 0 <= i < |comps| :: comps[i].head in M.states
  {
    PartitionGrouping(a, K, comps);
    HeadsGrouped(comps, K);
    var group := GroupOf(comps);
    Merge(a, K, HeadOf(comps), group, Acceptance(a, group, join))
  }

  /** A merged head accepts exactly when `acc` says it does. */
  lemma MergeAccepting(a: Arena, K: set<nat>, head: map<nat, nat>, group: map<nat, set<nat>>, acc: map<nat, bool>, h: nat)
    requires Grouping(a, K, head, group) && group.Keys <= acc.Keys && h in group
    ensures h in Merge(a, K, head, group, acc).states && Merge(a, K, head, group, acc).states[h].accepting == acc[h]
  {
  }

  /** A merged head has its group's transitions. */
  lemma MergeTrans(a: Arena, K: set<nat>, head: map<nat, nat>, group: map<nat, set<nat>>, acc: map<nat, bool>, u: nat)
    requires Grouping(a, K, head, group) && group.Keys <= acc.Keys && u in group
    ensures u in Merge(a, K, head, group, acc).states && u in K && group[u] <= K
    ensures Merge(a, K, head, group, acc).states[u].trans == GroupTrans(a, K, head, group, u)
  {
  }

  /** Under a label of the group, the merged targets are the heads of the members' targets. */
  lemma GroupTransAt(a: Arena, K: set<nat>, head: map<nat, nat>, group: map<nat, set<nat>>, u: nat, c: char)
    requires Grouping(a, K, head, group) && u in group && c in GroupTrans(a, K, head, group, u)
    ensures group[u] <= K && K <= head.Keys
    ensures GroupTrans(a, K, head, group, u)[c] == HeadsOf(head, group, MemberTargets(a, K, group[u], c))
  {
  }

  /** The contraction is the merge over the partition's heads and groups. */
  lemma ContractIs(a: Arena, K: set<nat>, comps: seq<Component>, join: bool)
    requires Valid(a) && TransClosed(a, K) && Partition(comps, K)
    ensures Grouping(a, K, HeadOf(comps), GroupOf(comps))
    ensures Contract(a, K, comps, join) == Merge(a, K, HeadOf(comps), GroupOf(comps), Acceptance(a, GroupOf(comps), join))
  {
    PartitionGrouping(a, K, comps);
  }

  /** The contracted head accepts, as written, when it accepted itself; corrected, when some
      member of its component did. */
  lemma ContractAccepting(a: Arena, K: set<nat>, comps: seq<Component>, join: bool, i: nat)
    requires Valid(a) && TransClosed(a, K) && Partition(comps, K) && i < |comps|
    ensures comps[i].head in Contract(a, K, comps, join).states && comps[i].members <= a.states.Keys
    ensures Contract(a, K, comps, join).states[comps[i].head].accepting <==>
      if join then exists m | m in comps[i].members :: a.states[m].accepting
      else a.states[comps[i].head].accepting
  {
    hide *;
    var h := comps[i].head;
    PartitionAt(comps, K, i);
    ContractIs(a, K, comps, join);
    GroupingWithin(a, K, HeadOf(comps), GroupOf(comps));
    MergeAccepting(a, K, HeadOf(comps), GroupOf(comps), Acceptance(a, GroupOf(comps), join), h);
    AcceptanceAt(a, GroupOf(comps), join, h);
  }

  /** Contraction over a given partition, then closing and absorbing in the order of the heads.
      A state heading a component stays in the result. */
  function RemoveEpsilonWith(a: Arena, K: set<nat>, comps: seq<Component>, join: bool, root: nat): (r: Arena)
    requires Valid(a) && TransClosed(a, K) && Partition(comps, K)
    requires exists i :: 0 <= i < |comps| && comps[i].head == root
    ensures Valid(r) && root in r.states
    ensures forall q | q in r.states :: Eps !in r.states[q].trans
  {
    ContractHeads(a, K, comps, join);
    var M := Contract(a, K, comps, join);
    Absorb(M, Closures(M, Heads(comps)))
  }

  lemma ContractHeads(a: Arena, K: set<nat>, comps: seq<Component>, join: bool)
    requires Valid(a) && TransClosed(a, K) && Partition(comps, K)
    ensures |Heads(comps)| == |comps|
    ensures forall k | 0 <= k < |comps| :: Heads(comps)[k] == comps[k].head && Heads(comps)[k] in Contract(a, K, comps, join).states
  {
  }

  /** A head of the result accepts when its contracted state did, and only when some state
      epsilon-reachable from it in the contraction did. */
  lemma RemoveEpsilonWithAccepting(a: Arena, K: set<nat>, comps: seq<Component>, join: bool, root: nat, i: nat)
    requires Valid(a) && TransClosed(a, K) && Partition(comps, K)
    requires (exists j :: 0 <= j < |comps| && comps[j].head == root) && i < |comps|
    ensures comps[i].head in RemoveEpsilonWith(a, K, comps, join, root).states
    ensures comps[i].head in Contract(a, K, comps, join).states
    ensures Contract(a, K, comps, join).states[comps[i].head].accepting ==>
      RemoveEpsilonWith(a, K, comps, join, root).states[comps[i].head].accepting
    ensures RemoveEpsilonWith(a, K, comps, join, root).states[comps[i].head].accepting ==>
      exists p :: p in G.Reach(EpsGraphOf(Contract(a, K, comps, join)), comps[i].head) &&
        p in Contract(a, K, comps, join).states && Contract(a, K, comps, join).states[p].accepting
  {
    ContractHeads(a, K, comps, join);
    hide Partition, Disjoint, Covers, TransClosed, Contract, Heads;
    assert RemoveEpsilonWith(a, K, comps, join, root) ==
      Absorb(Contract(a, K, comps, join), Closures(Contract(a, K, comps, join), Heads(comps)));
    AbsorbAccepting(Contract(a, K, comps, join), Heads(comps), i);
    hide *;
    assert Heads(comps)[i] == comps[i].head;
  }

  /** An epsilon edge of a merged head comes from an epsilon edge of one of its members, and
      leads to the head of that edge's target. */
  lemma MergeEpsEdge(a: Arena, K: set<nat>, head: map<nat, nat>, group: map<nat, set<nat>>, acc: map<nat, bool>, u: nat, x: nat)
    returns (m: nat, v: nat)
    requires Grouping(a, K, head, group) && group.Keys <= acc.Keys && u in group
    requires x in EpsTargets(Merge(a, K, head, group, acc).states[u])
    ensures m in group[u] && m in a.states && v in EpsTargets(a.states[m]) && v in head && head[v] == x
  {
    hide *;
    MergeTrans(a, K, head, group, acc, u);
    GroupingWithin(a, K, head, group);
    var tr := GroupTrans(a, K, head, group, u);
    EpsTargetsFrom(Merge(a, K, head, group, acc).states[u], x);
    GroupTransAt(a, K, head, group, u, Eps);
    var T := MemberTargets(a, K, group[u], Eps);
    v :| v in T && head[v] == x;
    m :| m in group[u] && Eps in a.states[m].trans && v in a.states[m].trans[Eps];
    EpsTargetsHas(a.states[m], v);
  }

  /** An epsilon target of a member of K is epsilon-reachable from it. */
  lemma EpsGraphStep(a: Arena, K: set<nat>, m: nat, v: nat)
    requires TransClosed(a, K) && m in K && v in EpsTargets(a.states[m])
    ensures v in G.Reach(EpsGraph(a, K), m)
  {
    var g := EpsGraph(a, K);
    EpsGraphClosed(a, K);
    assert v in g[m];
    var i :| 0 <= i < |g[m]| && g[m][i] == v;
    G.ReachSucc(g, m, i);
  }

  /** Each member of a component and its head reach each other along epsilon edges in K. */
  ghost predicate StronglyConnected(a: Arena, K: set<nat>, comps: seq<Component>)
    requires K <= a.states.Keys
  {
    forall i, v | 0 <= i < |comps| && v in comps[i].members ::
      v in G.Reach(EpsGraph(a, K), comps[i].head) && comps[i].head in G.Reach(EpsGraph(a, K), v)
  }

  /** Over strongly connected components, an epsilon edge of the contraction follows an epsilon
      path of the original automaton. */
  lemma ContractEdge(a: Arena, K: set<nat>, comps: seq<Component>, join: bool, u: nat, x: nat)
    requires Valid(a) && TransClosed(a, K) && Partition(comps, K) && StronglyConnected(a, K, comps)
    requires u in Contract(a, K, comps, join).states && x in EpsTargets(Contract(a, K, comps, join).states[u])
    ensures u in K && x in G.Reach(EpsGraph(a, K), u)
  {
    hide *;
    ContractIs(a, K, comps, join);
    GroupingWithin(a, K, HeadOf(comps), GroupOf(comps));
    var m, v := MergeEpsEdge(a, K, HeadOf(comps), GroupOf(comps), Acceptance(a, GroupOf(comps), join), u, x);
    var j := GroupComponent(comps, u);
    PartitionAt(comps, K, j);
    EpsTargetsWithin(a, K, m);
    var l := PartitionCovers(comps, K, v);
    PartitionAt(comps, K, l);
    var eg := EpsGraph(a, K);
    EpsGraphClosed(a, K);
    StronglyConnectedAt(a, K, comps, j, m);
    EpsGraphStep(a, K, m, v);
    StronglyConnectedAt(a, K, comps, l, v);
    G.ReachTrans(eg, u, m);
    G.ReachTrans(eg, u, v);
  }

  lemma StronglyConnectedAt(a: Arena, K: set<nat>, comps: seq<Component>, i: nat, v: nat)
    requires K <= a.states.Keys && StronglyConnected(a, K, comps) && i < |comps| && v in comps[i].members
    ensures v in G.Reach(EpsGraph(a, K), comps[i].head) && comps[i].head in G.Reach(EpsGraph(a, K), v)
  {
  }

  lemma EpsTargetsWithin(a: Arena, K: set<nat>, m: nat)
    requires TransClosed(a, K) && m in K
    ensures m in a.states && EpsTargets(a.states[m]) <= K
  {
  }

  /** The component of a state of K. */
  lemma PartitionCovers(comps: seq<Component>, K: set<nat>, v: nat) returns (l: nat)
    requires Partition(comps, K) && v in K
    ensures l < |comps| && v in comps[l].members
  {
    l :| 0 <= l < |comps| && v in comps[l].members;
  }

  /** The component a group comes from. */
  lemma GroupComponent(comps: seq<Component>, u: nat) returns (j: nat)
    requires u in GroupOf(comps)
    ensures j < |comps| && u == comps[j].head && GroupOf(comps)[u] == comps[j].members
  {
    GroupOfFrom(comps);
    j :| 0 <= j < |comps| && u == comps[j].head && GroupOf(comps)[u] == comps[j].members;
  }

  /** Over strongly connected components, what a head epsilon-reaches in the contraction it
      epsilon-reaches in the original automaton. */
  lemma ContractReach(a: Arena, K: set<nat>, comps: seq<Component>, join: bool, h: nat, p: nat)
    requires Valid(a) && TransClosed(a, K) && Partition(comps, K) && StronglyConnected(a, K, comps)
    requires h in Contract(a, K, comps, join).states
    requires p in G.Reach(EpsGraphOf(Contract(a, K, comps, join)), h)
    ensures h in K && p in G.Reach(EpsGraph(a, K), h)
  {
    hide Contract, Merge, Partition, Disjoint, Covers, TransClosed, StronglyConnected, Valid;
    hide EpsGraph, EpsGraphOf, SetGraph, EpsSets, Acceptance, GroupOf, HeadOf, G.Reach;
    var M := Contract(a, K, comps, join);
    ContractWithin(a, K, comps, join);
    var gM := EpsGraphOf(M);
    var eg := EpsGraph(a, K);
    EpsGraphClosed(a, K);
    G.ReachIsLeast(eg, h);
    G.ReachIsLeast(gM, h);
    var T := set x | x in M.states && x in G.Reach(eg, h);
    forall u, i | u in T && u in gM && 0 <= i < |gM[u]| ensures gM[u][i] in T {
      EpsGraphOfEdge(M, u, i);
      ContractEdge(a, K, comps, join, u, gM[u][i]);
      G.ReachTrans(eg, h, u);
    }
    assert G.ClosedSet(gM, T);
  }

  /** The contraction's states are heads in K. */
  lemma ContractWithin(a: Arena, K: set<nat>, comps: seq<Component>, join: bool)
    requires Valid(a) && TransClosed(a, K) && Partition(comps, K)
    ensures Contract(a, K, comps, join).states.Keys <= K && K <= a.states.Keys
  {
    PartitionGroups(K, comps);
  }

  /** The successors of u in the epsilon graph of M are its epsilon targets. */
  lemma EpsGraphOfEdge(M: Arena, u: nat, i: nat)
    requires Valid(M) && u in M.states && i < |EpsGraphOf(M)[u]|
    ensures EpsGraphOf(M)[u][i] in M.states && EpsGraphOf(M)[u][i] in EpsTargets(M.states[u])
  {
    assert EpsGraphOf(M)[u] == SortedNats(EpsSets(M)[u]);
  }


  /** `removeEpsilonTransitions` as written: the source's grouping, heads keeping their own
      acceptance. The result is the new arena; root is still its root. */
  function RemoveEpsilonAsWritten(a: Arena, root: nat): (r: Arena)
    requires Valid(a) && root in a.states
    ensures Valid(r) && root in r.states
    ensures forall q | q in r.states :: Eps !in r.states[q].trans
  {
    SourceComponentsPartition(a, root);
    SourceComponentsRoot(a, root);
    RemoveEpsilonWith(a, Reachable(a, root), SourceComponents(a, root), false, root)
  }

  /** `removeEpsilonTransitions` corrected: strongly connected components, and a head accepts
      when a member does. */
  function RemoveEpsilon(a: Arena, root: nat): (r: Arena)
    requires Valid(a) && root in a.states
    ensures Valid(r) && root in r.states
    ensures forall q | q in r.states :: Eps !in r.states[q].trans
  {
    ComponentsPartition(a, root);
    ComponentsRoot(a, root);
    RemoveEpsilonWith(a, Reachable(a, root), Components(a, root), true, root)
  }

  /** The corrected removal works on a partition of the reachable states headed by root. */
  lemma RemoveEpsilonIs(a: Arena, root: nat)
    requires Valid(a) && root in a.states
    ensures TransClosed(a, Reachable(a, root)) && Partition(Components(a, root), Reachable(a, root))
    ensures exists i :: 0 <= i < |Components(a, root)| && Components(a, root)[i].head == root
    ensures RemoveEpsilon(a, root) == RemoveEpsilonWith(a, Reachable(a, root), Components(a, root), true, root)
  {
    ComponentsPartition(a, root);
    ComponentsRoot(a, root);
  }

  /** The removal as written works on a partition of the reachable states headed by root. */
  lemma RemoveEpsilonAsWrittenIs(a: Arena, root: nat)
    requires Valid(a) && root in a.states
    ensures TransClosed(a, Reachable(a, root)) && Partition(SourceComponents(a, root), Reachable(a, root))
    ensures exists i :: 0 <= i < |SourceComponents(a, root)| && SourceComponents(a, root)[i].head == root
    ensures RemoveEpsilonAsWritten(a, root) == RemoveEpsilonWith(a, Reachable(a, root), SourceComponents(a, root), false, root)
  {
    SourceComponentsPartition(a, root);
    SourceComponentsRoot(a, root);
  }

  /** The corrected components are strongly connected. */
  lemma ComponentsConnected(a: Arena, root: nat)
    requires Valid(a) && root in a.states
    ensures StronglyConnected(a, Reachable(a, root), Components(a, root))
  {
    forall i, v | 0 <= i < |Components(a, root)| && v in Components(a, root)[i].members
      ensures v in G.Reach(EpsGraph(a, Reachable(a, root)), Components(a, root)[i].head)
      ensures Components(a, root)[i].head in G.Reach(EpsGraph(a, Reachable(a, root)), v)
    {
      ComponentsReach(a, root, i, v);
    }
  }

  /** A state accepting in the original makes the head of its component accept after the
      corrected removal. */
  lemma RemoveEpsilonKeepsAccepting(a: Arena, root: nat, i: nat, m: nat)
    requires Valid(a) && root in a.states && i < |Components(a, root)|
    requires m in Components(a, root)[i].members && m in a.states && a.states[m].accepting
    ensures Components(a, root)[i].head in RemoveEpsilon(a, root).states
    ensures RemoveEpsilon(a, root).states[Components(a, root)[i].head].accepting
  {
    hide *;
    var K, comps := Reachable(a, root), Components(a, root);
    RemoveEpsilonIs(a, root);
    ContractAccepting(a, K, comps, true, i);
    RemoveEpsilonWithAccepting(a, K, comps, true, root, i);
  }

  /** After the corrected removal a head accepts only when some state epsilon-reachable from it
      in the original accepts. */
  lemma RemoveEpsilonSound(a: Arena, root: nat, i: nat)
    requires Valid(a) && root in a.states && i < |Components(a, root)|
    ensures Components(a, root)[i].head in RemoveEpsilon(a, root).states
    ensures RemoveEpsilon(a, root).states[Components(a, root)[i].head].accepting ==>
      exists q :: q in G.Reach(EpsGraph(a, Reachable(a, root)), Components(a, root)[i].head) &&
        q in a.states && a.states[q].accepting
  {
    hide *;
    var K, comps := Reachable(a, root), Components(a, root);
    var h := comps[i].head;
    RemoveEpsilonIs(a, root);
    ComponentsConnected(a, root);
    RemoveEpsilonWithAccepting(a, K, comps, true, root, i);
    var M := Contract(a, K, comps, true);
    if RemoveEpsilon(a, root).states[h].accepting {
      var p := ReachingAccepting(M, h);
      ContractReach(a, K, comps, true, h, p);
      var j := GroupComponent(comps, p);
      ContractAccepting(a, K, comps, true, j);
      var m := AcceptingMember(a, comps[j].members);
      StronglyConnectedAt(a, K, comps, j, m);
      EpsGraphClosed(a, K);
      G.ReachTrans(EpsGraph(a, K), h, p);
    }
  }

  /** A witness for an accepting state epsilon-reachable from h. */
  lemma ReachingAccepting(M: Arena, h: nat) returns (p: nat)
    requires Valid(M) && exists p :: p in G.Reach(EpsGraphOf(M), h) && p in M.states && M.states[p].accepting
    ensures p in G.Reach(EpsGraphOf(M), h) && p in M.states && M.states[p].accepting
  {
    p :| p in G.Reach(EpsGraphOf(M), h) && p in M.states && M.states[p].accepting;
  }

  /** A witness for an accepting member of C. */
  lemma AcceptingMember(a: Arena, C: set<nat>) returns (m: nat)
    requires C <= a.states.Keys && exists m | m in C :: a.states[m].accepting
    ensures m in C && a.states[m].accepting
  {
    m :| m in C && a.states[m].accepting;
  }

  /** As written, a head that accepted in the original still accepts. */
  lemma RemoveEpsilonAsWrittenKeepsHead(a: Arena, root: nat, i: nat)
    requires Valid(a) && root in a.states && i < |SourceComponents(a, root)|
    requires SourceComponents(a, root)[i].head in a.states && a.states[SourceComponents(a, root)[i].head].accepting
    ensures SourceComponents(a, root)[i].head in RemoveEpsilonAsWritten(a, root).states
    ensures RemoveEpsilonAsWritten(a, root).states[SourceComponents(a, root)[i].head].accepting
  {
    hide *;
    var K, comps := Reachable(a, root), SourceComponents(a, root);
    RemoveEpsilonAsWrittenIs(a, root);
    ContractAccepting(a, K, comps, false, i);
    RemoveEpsilonWithAccepting(a, K, comps, false, root, i);
  }
}
