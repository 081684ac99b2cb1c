/** Completeness of `NFA::findEpsilonClosures` (src/NFA.cpp:73-91) on the contracted automaton
    of `NFA::removeEpsilonTransitions`. The recursion marks a state explored before it closes
    its targets, so on an epsilon cycle through several states one of them can copy a set that
    is not finished yet. After the contraction no such cycle is left: every epsilon edge between
    two different states lowers a rank. Under that condition every closed state ends holding
    exactly the states epsilon-reachable from it. */
module EpsilonClosure {
  import opened Ordering
  import G = Graphs
  import opened Nfas
  import opened EpsilonRemoval

  /** Along every edge of E0 other than a self-loop the rank decreases. */
  ghost predicate Ranked(E0: map<nat, set<nat>>, rank: map<nat, nat>) {
    E0.Keys <= rank.Keys &&
    forall u, w | u in E0 && w in E0[u] && w != u :: w in rank && rank[w] < rank[u]
  }

  /** q is closed for good: it holds itself, and every other state of its original set is
      closed for good too and passed its whole set on to q. */
  ghost predicate Finished(E0: map<nat, set<nat>>, E: map<nat, set<nat>>, open: set<nat>, q: nat) {
    q in E0 && q in E && q in E[q] &&
    forall w | w in E0[q] && w != q :: w in E && w !in open && E[w] <= E[q]
  }

  /** The invariant of the recursion: `open` holds the states still pending and those whose
      closing is in progress; they keep their original sets, and every other state is finished. */
  ghost predicate Progress(E0: map<nat, set<nat>>, E: map<nat, set<nat>>, open: set<nat>) {
    E.Keys == E0.Keys &&
    (forall q | q in open && q in E :: E[q] == E0[q]) &&
    (forall q | q in E && q !in open :: Finished(E0, E, open, q))
  }

  /** The states being closed outrank every pending state the recursion still has to visit. */
  ghost predicate Below(rank: map<nat, nat>, u: nat, A: set<nat>) {
    u in rank && forall x | x in A :: x in rank && rank[u] < rank[x]
  }

  lemma RankStep(E0: map<nat, set<nat>>, rank: map<nat, nat>, u: nat, w: nat, A: set<nat>)
    requires Ranked(E0, rank) && u in E0 && w in E0[u] && w != u && Below(rank, u, A)
    ensures Below(rank, w, A + {u})
  {
  }

  lemma {:induction false} CloseProgress(E0: map<nat, set<nat>>, rank: map<nat, nat>, E: map<nat, set<nat>>,
                                         u: nat, pending: set<nat>, A: set<nat>)
    requires SetsWithin(E0) && Ranked(E0, rank)
    requires u in E && SetsWithin(E) && pending <= E.Keys && pending !! A && A <= E.Keys
    requires Progress(E0, E, pending + A)
    requires u in pending ==> Below(rank, u, A)
    ensures Progress(E0, Close(E, u, pending).1, Close(E, u, pending).0 + A)
    decreases |pending|, 0, 0
  {
    hide *;
    CloseUnfold(E, u, pending);
    if u in pending {
      var list := SortedNats(E[u]);
      SortedWithin(E, u);
      OpenKeeps(E0, E, pending + A, u);
      MoveToOpen(pending, A, u);
      ListBelow(E0, rank, E, u, list, pending, A);
      CloseAllProgress(E0, rank, E, list, pending - {u}, A + {u});
      var r := CloseAll(E, list, pending - {u});
      CloseAllDone(E, list, pending - {u});
      ListDone(E[u], list, r.0);
      FinishProgress(E0, rank, E, u, pending, A, r);
    }
  }

  lemma OpenKeeps(E0: map<nat, set<nat>>, E: map<nat, set<nat>>, open: set<nat>, u: nat)
    requires Progress(E0, E, open) && u in open && u in E
    ensures E.Keys == E0.Keys && u in E0 && E[u] == E0[u]
  {
  }

  lemma MoveToOpen(pending: set<nat>, A: set<nat>, u: nat)
    requires u in pending
    ensures (pending - {u}) + (A + {u}) == pending + A
  {
  }

  lemma ListBelow(E0: map<nat, set<nat>>, rank: map<nat, nat>, E: map<nat, set<nat>>, u: nat, list: seq<nat>,
                  pending: set<nat>, A: set<nat>)
    requires Ranked(E0, rank) && u in E && u in E0 && E[u] == E0[u] && list == SortedNats(E[u]) && Below(rank, u, A)
    ensures forall i | 0 <= i < |list| && list[i] in pending - {u} :: Below(rank, list[i], A + {u})
  {
    forall i | 0 <= i < |list| && list[i] in pending - {u} ensures Below(rank, list[i], A + {u}) {
      RankStep(E0, rank, u, list[i], A);
    }
  }

  lemma ListDone(S: set<nat>, list: seq<nat>, p: set<nat>)
    requires list == SortedNats(S) && forall i | 0 <= i < |list| :: list[i] !in p
    ensures forall w | w in S :: w !in p
  {
    forall w | w in S ensures w !in p {
      assert w in list;
    }
  }

  lemma {:induction false} CloseAllProgress(E0: map<nat, set<nat>>, rank: map<nat, nat>, E: map<nat, set<nat>>,
                                            list: seq<nat>, pending: set<nat>, A: set<nat>)
    requires SetsWithin(E0) && Ranked(E0, rank)
    requires (forall i | 0 <= i < |list| :: list[i] in E) && SetsWithin(E) && pending <= E.Keys
    requires pending !! A && A <= E.Keys && Progress(E0, E, pending + A)
    requires forall i | 0 <= i < |list| && list[i] in pending :: Below(rank, list[i], A)
    ensures Progress(E0, CloseAll(E, list, pending).1, CloseAll(E, list, pending).0 + A)
    decreases |pending|, 1, |list|
  {
    CloseAllUnfold(E, list, pending);
    if list != [] {
      var r := Close(E, list[0], pending);
      CloseProgress(E0, rank, E, list[0], pending, A);
      G.CardMono(r.0, pending);
      forall i | 0 <= i < |list[1..]| && list[1..][i] in r.0 ensures Below(rank, list[1..][i], A) {
        assert list[1..][i] == list[i + 1];
      }
      CloseAllProgress(E0, rank, r.1, list[1..], r.0, A);
    }
  }

  /** The last step of closing u: its set becomes its own, its targets' sets and itself. */
  lemma FinishProgress(E0: map<nat, set<nat>>, rank: map<nat, nat>, E: map<nat, set<nat>>, u: nat,
                       pending: set<nat>, A: set<nat>, r: (set<nat>, map<nat, set<nat>>))
    requires SetsWithin(E0) && Ranked(E0, rank)
    requires u in E && SetsWithin(E) && pending <= E.Keys && pending !! A && u in pending
    requires E.Keys == E0.Keys && E[u] == E0[u] && Below(rank, u, A)
    requires r.0 <= pending - {u} && r.1.Keys == E.Keys && SetsWithin(r.1)
    requires forall w | w in E[u] :: w !in r.0
    requires Progress(E0, r.1, r.0 + (A + {u}))
    ensures Progress(E0, r.1[u := r.1[u] + UnionOf(r.1, E[u]) + {u}], r.0 + A)
  {
    var E1 := r.1;
    var S: set<nat> := E1[u] + UnionOf(E1, E[u]) + {u};
    var E2: map<nat, set<nat>> := E1[u := S];
    var open := r.0 + A;
    assert UnionOf(E1, E[u]) <= S;
    hide *;
    FinishOpen(E0, E1, u, S, r.0, A);
    forall q | q in E2 && q !in open ensures Finished(E0, E2, open, q) {
      if q == u {
        FinishHead(E0, rank, E1, u, S, r.0, A, E[u]);
      } else {
        FinishOther(E0, E1, u, S, r.0, A, q);
      }
    }
    ProgressIntro(E0, E2, open);
  }

  lemma ProgressIntro(E0: map<nat, set<nat>>, E: map<nat, set<nat>>, open: set<nat>)
    requires E.Keys == E0.Keys
    requires forall q | q in open && q in E :: E[q] == E0[q]
    requires forall q | q in E && q !in open :: Finished(E0, E, open, q)
    ensures Progress(E0, E, open)
  {
  }

  /** The pending and in-progress states other than u keep their sets. */
  lemma FinishOpen(E0: map<nat, set<nat>>, E1: map<nat, set<nat>>, u: nat, S: set<nat>, p: set<nat>, A: set<nat>)
    requires Progress(E0, E1, p + (A + {u})) && u in E1 && u !in p && u !in A
    ensures E1[u := S].Keys == E0.Keys
    ensures forall q | q in p + A && q in E1[u := S] :: E1[u := S][q] == E0[q]
  {
    forall q | q in p + A && q in E1[u := S] ensures E1[u := S][q] == E0[q] {
      assert q != u;
    }
  }

  /** u itself is finished once it took in its targets' sets. */
  lemma FinishHead(E0: map<nat, set<nat>>, rank: map<nat, nat>, E1: map<nat, set<nat>>, u: nat, S: set<nat>,
                   p: set<nat>, A: set<nat>, Eu: set<nat>)
    requires SetsWithin(E0) && Ranked(E0, rank) && Below(rank, u, A) && u in E0 && Eu == E0[u]
    requires Progress(E0, E1, p + (A + {u})) && u in E1 && SetsWithin(E1)
    requires forall w | w in Eu :: w !in p
    requires S == E1[u] + UnionOf(E1, Eu) + {u}
    ensures Finished(E0, E1[u := S], p + A, u)
  {
    var E2 := E1[u := S];
    forall w | w in E0[u] && w != u ensures w in E2 && w !in p + A && E2[w] <= E2[u] {
      assert w !in A;
      assert E2[w] == E1[w];
    }
  }

  /** A state finished before stays finished: neither it nor its targets changed. */
  lemma FinishOther(E0: map<nat, set<nat>>, E1: map<nat, set<nat>>, u: nat, S: set<nat>, p: set<nat>, A: set<nat>, q: nat)
    requires Progress(E0, E1, p + (A + {u})) && q in E1 && q !in p + A && q != u
    ensures Finished(E0, E1[u := S], p + A, q)
  {
    assert Finished(E0, E1, p + (A + {u}), q);
  }

  /** With nothing left open, each state holds everything it reaches: what q reaches is q or
      is reached from one of its other targets, and those have a lower rank. */
  lemma {:induction false} FinishedReach(E0: map<nat, set<nat>>, rank: map<nat, nat>, Cl: map<nat, set<nat>>, q: nat)
    requires SetsWithin(E0) && Ranked(E0, rank) && Progress(E0, Cl, {}) && q in E0
    ensures G.Reach(SetGraph(E0), q) <= Cl[q]
    decreases rank[q]
  {
    var g := SetGraph(E0);
    assert Finished(E0, Cl, {}, q);
    forall x | x in G.Reach(g, q) ensures x in Cl[q] {
      G.ReachUnfold(g, q, x);
      if x != q {
        var i :| 0 <= i < |g[q]| && g[q][i] != q && x in G.Reach(g, g[q][i]);
        var w := g[q][i];
        assert w in E0[q];
        FinishedReach(E0, rank, Cl, w);
      }
    }
  }

  /** Closing every state of M in turn, over an epsilon graph ranked apart from self-loops,
      leaves each state with exactly the states epsilon-reachable from it. */
  lemma ClosuresExact(M: Arena, heads: seq<nat>, rank: map<nat, nat>)
    requires Valid(M) && (forall i | 0 <= i < |heads| :: heads[i] in M.states)
    requires M.states.Keys <= G.Elems(heads) && Ranked(EpsSets(M), rank)
    ensures forall q | q in M.states :: Closures(M, heads)[q] == G.Reach(EpsGraphOf(M), q)
  {
    hide *;
    var E0 := EpsSets(M);
    var Cl := Closures(M, heads);
    var g := EpsGraphOf(M);
    ClosuresUnfold(M, heads);
    ClosuresFacts(M, heads);
    CloseAllExact(E0, rank, heads);
    forall q | q in M.states ensures Cl[q] == G.Reach(g, q) {
      SubsetBoth(Cl[q], G.Reach(g, q));
    }
  }

  lemma ClosuresUnfold(M: Arena, heads: seq<nat>)
    requires Valid(M) && forall i | 0 <= i < |heads| :: heads[i] in M.states
    ensures Closures(M, heads) == CloseAll(EpsSets(M), heads, EpsSets(M).Keys).1
    ensures EpsGraphOf(M) == SetGraph(EpsSets(M))
  {
  }

  lemma SubsetBoth(A: set<nat>, B: set<nat>)
    requires A <= B && B <= A
    ensures A == B
  {
  }

  /** The same over plain epsilon sets: once every state has been handed to the loop, each
      holds at least what it reaches. */
  lemma CloseAllExact(E0: map<nat, set<nat>>, rank: map<nat, nat>, heads: seq<nat>)
    requires SetsWithin(E0) && Ranked(E0, rank) && (forall i | 0 <= i < |heads| :: heads[i] in E0)
    requires E0.Keys <= G.Elems(heads)
    ensures forall q | q in E0 :: G.Reach(SetGraph(E0), q) <= CloseAll(E0, heads, E0.Keys).1[q]
  {
    var keys := E0.Keys;
    var r := CloseAll(E0, heads, keys);
    assert forall i | 0 <= i < |heads| && heads[i] in keys :: Below(rank, heads[i], {});
    hide *;
    ProgressStart(E0, keys);
    CloseAllProgress(E0, rank, E0, heads, keys, {});
    CloseAllDone(E0, heads, keys);
    NothingLeft(heads, keys, r.0);
    forall q | q in keys ensures G.Reach(SetGraph(E0), q) <= r.1[q] {
      FinishedReach(E0, rank, r.1, q);
    }
  }

  lemma ProgressStart(E0: map<nat, set<nat>>, keys: set<nat>)
    requires E0.Keys == keys
    ensures Progress(E0, E0, keys + {}) && keys !! {}
  {
  }

  lemma NothingLeft(heads: seq<nat>, keys: set<nat>, p: set<nat>)
    requires keys <= G.Elems(heads) && p <= keys && forall i | 0 <= i < |heads| :: heads[i] !in p
    ensures p + {} == {}
  {
  }

  /** eg and pg are closed graphs, each the other reversed. */
  ghost predicate Mirror(eg: G.Graph, pg: G.Graph) {
    G.Closed(eg) && G.Closed(pg) && G.Reverses(pg, eg)
  }

  /** u and v lie on a common epsilon cycle: v is reachable from u, and u from v, the second
      read on the reversed graph as the source's second traversal does. */
  ghost predicate Mutual(eg: G.Graph, pg: G.Graph, u: nat, v: nat) {
    v in G.Reach(eg, u) && v in G.Reach(pg, u)
  }

  lemma ReversesSym(h: G.Graph, g: G.Graph)
    requires G.Reverses(h, g)
    ensures G.Reverses(g, h)
  {
  }

  /** Lying on a common cycle is symmetric. */
  lemma MutualSym(eg: G.Graph, pg: G.Graph, u: nat, v: nat)
    requires Mirror(eg, pg) && u in eg && Mutual(eg, pg, u, v)
    ensures v in eg && Mutual(eg, pg, v, u)
  {
    ReversesSym(pg, eg);
    G.ReachReverse(pg, eg, u, v);
    G.ReachReverse(eg, pg, u, v);
  }

  /** ... and transitive. */
  lemma MutualTrans(eg: G.Graph, pg: G.Graph, u: nat, t: nat, v: nat)
    requires Mirror(eg, pg) && u in eg && Mutual(eg, pg, u, t) && Mutual(eg, pg, t, v)
    ensures Mutual(eg, pg, u, v)
  {
    G.ReachTrans(eg, u, t);
    G.ReachTrans(pg, u, t);
  }

  /** Whatever lies on a common cycle with a member of `taken` is in `taken`. */
  ghost predicate MutualClosed(eg: G.Graph, pg: G.Graph, taken: set<nat>) {
    forall t, v | t in taken && t in eg && Mutual(eg, pg, t, v) :: v in taken
  }

  /** Each component holds every state on a common cycle with its head. */
  ghost predicate Full(eg: G.Graph, pg: G.Graph, comps: seq<Component>) {
    forall i, v | 0 <= i < |comps| && comps[i].head in eg && Mutual(eg, pg, comps[i].head, v) :: v in comps[i].members
  }

  /** A head not yet taken collects its whole cycle class, and `taken` stays closed. */
  lemma ClassTaken(eg: G.Graph, pg: G.Graph, u: nat, taken: set<nat>, m: set<nat>)
    requires Mirror(eg, pg) && u in eg && u !in taken && MutualClosed(eg, pg, taken)
    requires m == (set v | v in G.Reach(eg, u) && v in G.Reach(pg, u)) - taken
    ensures forall v | Mutual(eg, pg, u, v) :: v in m
    ensures MutualClosed(eg, pg, taken + m)
  {
    forall v | Mutual(eg, pg, u, v) ensures v in m {
      if v in taken {
        MutualSym(eg, pg, u, v);
      }
    }
    forall t, v | t in taken + m && t in eg && Mutual(eg, pg, t, v) ensures v in taken + m {
      if t in m {
        MutualTrans(eg, pg, u, t, v);
      }
    }
  }

  /** The strongly connected grouping misses no member: started from a closed `taken`, every
      component it forms holds its head's whole cycle class. */
  lemma {:induction false} SccGroupsFull(eg: G.Graph, pg: G.Graph, pops: seq<nat>, taken: set<nat>)
    requires Mirror(eg, pg) && eg.Keys == pg.Keys && forall i | 0 <= i < |pops| :: pops[i] in pg
    requires MutualClosed(eg, pg, taken)
    ensures Full(eg, pg, SccGroups(eg, pg, pops, taken))
    decreases |pops|
  {
    if pops != [] {
      var u := pops[0];
      if u in taken {
        SccGroupsFull(eg, pg, pops[1..], taken);
        assert SccGroups(eg, pg, pops, taken) == SccGroups(eg, pg, pops[1..], taken);
      } else {
        var m := (set v | v in G.Reach(eg, u) && v in G.Reach(pg, u)) - taken;
        var c := Component(u, m);
        var rest := SccGroups(eg, pg, pops[1..], taken + m);
        assert SccGroups(eg, pg, pops, taken) == [c] + rest;
        ClassTaken(eg, pg, u, taken, m);
        hide SccGroups, G.Reach, Mirror, MutualClosed;
        SccGroupsFull(eg, pg, pops[1..], taken + m);
        PrependFull(eg, pg, c, rest);
      }
    }
  }

  lemma PrependFull(eg: G.Graph, pg: G.Graph, c: Component, rest: seq<Component>)
    requires Full(eg, pg, rest) && forall v | Mutual(eg, pg, c.head, v) :: v in c.members
    ensures Full(eg, pg, [c] + rest)
  {
    forall i, v | 0 <= i < |[c] + rest| && ([c] + rest)[i].head in eg && Mutual(eg, pg, ([c] + rest)[i].head, v)
      ensures v in ([c] + rest)[i].members
    {
      if i > 0 {
        assert ([c] + rest)[i] == rest[i - 1];
      }
    }
  }

  /** The corrected components are full strongly connected classes. */
  lemma ComponentsFull(a: Arena, root: nat)
    requires Valid(a) && root in a.states
    ensures Mirror(EpsGraph(a, Reachable(a, root)), ParentGraph(a, Reachable(a, root)))
    ensures Full(EpsGraph(a, Reachable(a, root)), ParentGraph(a, Reachable(a, root)), Components(a, root))
  {
    var K := Reachable(a, root);
    var eg, pg := EpsGraph(a, K), ParentGraph(a, K);
    ParentReverses(a, K);
    assert Components(a, root) == SccGroups(eg, pg, Pops(a, root), {});
    hide *;
    SccGroupsFull(eg, pg, Pops(a, root), {});
  }

  /** The contraction the corrected removal closes. */
  function Contracted(a: Arena, root: nat): (M: Arena)
    requires Valid(a) && root in a.states
    ensures Valid(M) && M.states.Keys == GroupOf(Components(a, root)).Keys
  {
    RemoveEpsilonIs(a, root);
    Contract(a, Reachable(a, root), Components(a, root), true)
  }

  /** Each head ranked by how many states it epsilon-reaches in the original. */
  ghost function ReachRank(eg: G.Graph, S: set<nat>): (rank: map<nat, nat>)
    ensures rank.Keys == S
  {
    map h | h in S :: |G.Reach(eg, h)|
  }

  /** An epsilon edge of the contraction between two different heads leads to a head that reaches
      strictly fewer states: the two heads cannot reach each other, or they would share a
      component. */
  lemma EdgeLowers(a: Arena, root: nat, u: nat, w: nat)
    requires Valid(a) && root in a.states
    requires u in Contracted(a, root).states && w in EpsTargets(Contracted(a, root).states[u]) && w != u
    ensures w in Contracted(a, root).states
    ensures |G.Reach(EpsGraph(a, Reachable(a, root)), w)| < |G.Reach(EpsGraph(a, Reachable(a, root)), u)|
  {
    hide *;
    var K, comps := Reachable(a, root), Components(a, root);
    var M := Contracted(a, root);
    var eg, pg := EpsGraph(a, K), ParentGraph(a, K);
    ContractedIs(a, root);
    RemoveEpsilonIs(a, root);
    ComponentsConnected(a, root);
    ComponentsFull(a, root);
    EpsTargetsFrom(M.states[u], w);
    ValidTarget(M, u, Eps, w);
    ContractEdge(a, K, comps, true, u, w);
    MirrorKeys(eg, pg, u);
    G.ReachTrans(eg, u, w);
    G.ReachIsLeast(eg, u);
    var j := GroupComponent(comps, u);
    var l := GroupComponent(comps, w);
    if u in G.Reach(eg, w) {
      ReversesSym(pg, eg);
      G.ReachReverse(eg, pg, w, u);
      FullAt(eg, pg, comps, j, w);
      PartitionAt(comps, K, j);
      PartitionAt(comps, K, l);
      assert false;
    }
    G.SubsetCard(G.Reach(eg, w), G.Reach(eg, u));
  }

  lemma ContractedIs(a: Arena, root: nat)
    requires Valid(a) && root in a.states
    ensures TransClosed(a, Reachable(a, root)) && Partition(Components(a, root), Reachable(a, root)) &&
      Contracted(a, root) == Contract(a, Reachable(a, root), Components(a, root), true)
  {
    RemoveEpsilonIs(a, root);
  }

  lemma ValidTarget(M: Arena, u: nat, c: char, w: nat)
    requires Valid(M) && u in M.states && c in M.states[u].trans && w in M.states[u].trans[c]
    ensures w in M.states
  {
  }

  lemma MirrorKeys(eg: G.Graph, pg: G.Graph, u: nat)
    requires Mirror(eg, pg) && u in eg
    ensures u in pg && G.Closed(eg) && G.Closed(pg) && G.Reverses(pg, eg)
  {
  }

  lemma FullAt(eg: G.Graph, pg: G.Graph, comps: seq<Component>, j: nat, v: nat)
    requires Full(eg, pg, comps) && j < |comps| && comps[j].head in eg && Mutual(eg, pg, comps[j].head, v)
    ensures v in comps[j].members
  {
  }

  /** The epsilon graph of the contraction is ranked apart from self-loops. */
  lemma ContractedRanked(a: Arena, root: nat)
    requires Valid(a) && root in a.states
    ensures Ranked(EpsSets(Contracted(a, root)),
                   ReachRank(EpsGraph(a, Reachable(a, root)), Contracted(a, root).states.Keys))
  {
    var M := Contracted(a, root);
    var E0 := EpsSets(M);
    var eg := EpsGraph(a, Reachable(a, root));
    var rank := ReachRank(eg, M.states.Keys);
    forall u, w | u in E0 && w in E0[u] && w != u ensures w in rank && rank[w] < rank[u] {
      assert E0[u] == EpsTargets(M.states[u]);
      EdgeLowers(a, root, u, w);
    }
  }

  /** An epsilon edge of a member leads, after the merge, from its head to the head of its
      target. */
  lemma MergeHasEdge(a: Arena, K: set<nat>, head: map<nat, nat>, group: map<nat, set<nat>>, acc: map<nat, bool>,
                     u: nat, m: nat, v: nat)
    requires Grouping(a, K, head, group) && group.Keys <= acc.Keys && u in group && m in group[u]
    requires m in a.states && v in EpsTargets(a.states[m])
    ensures v in head && head[v] in EpsTargets(Merge(a, K, head, group, acc).states[u])
  {
    MergeTrans(a, K, head, group, acc, u);
    GroupingWithin(a, K, head, group);
    EpsTargetsFrom(a.states[m], v);
    assert Eps in GroupLabels(a, group[u]);
    var tr := GroupTrans(a, K, head, group, u);
    assert Eps in tr;
    GroupTransAt(a, K, head, group, u, Eps);
    var T := MemberTargets(a, K, group[u], Eps);
    assert v in T;
    assert head[v] in tr[Eps];
  }

  /** One epsilon step of the original, from a state whose head h reaches, leads to a state
      whose head h reaches too. */
  lemma LiftStep(a: Arena, K: set<nat>, comps: seq<Component>, join: bool, h: nat, x: nat, y: nat)
    requires Valid(a) && TransClosed(a, K) && Partition(comps, K)
    requires h in Contract(a, K, comps, join).states && x in K && y in EpsTargets(a.states[x])
    requires x in HeadOf(comps) && HeadOf(comps)[x] in G.Reach(EpsGraphOf(Contract(a, K, comps, join)), h)
    ensures y in K && y in HeadOf(comps)
    ensures HeadOf(comps)[y] in G.Reach(EpsGraphOf(Contract(a, K, comps, join)), h)
  {
    hide *;
    var M := Contract(a, K, comps, join);
    var gM := EpsGraphOf(M);
    ContractIs(a, K, comps, join);
    GroupingWithin(a, K, HeadOf(comps), GroupOf(comps));
    EpsTargetsWithin(a, K, x);
    var l := PartitionCovers(comps, K, x);
    PartitionAt(comps, K, l);
    var hx := comps[l].head;
    MergeHasEdge(a, K, HeadOf(comps), GroupOf(comps), Acceptance(a, GroupOf(comps), join), hx, x, y);
    MergeEdgeReach(M, hx, HeadOf(comps)[y]);
    G.ReachTrans(gM, h, hx);
  }

  lemma EpsGraphEdge(a: Arena, K: set<nat>, x: nat, i: nat)
    requires K <= a.states.Keys && x in K && i < |EpsGraph(a, K)[x]|
    ensures EpsGraph(a, K)[x][i] in EpsTargets(a.states[x])
  {
  }

  /** An epsilon target is epsilon-reachable. */
  lemma MergeEdgeReach(M: Arena, u: nat, w: nat)
    requires Valid(M) && u in M.states && w in EpsTargets(M.states[u])
    ensures w in G.Reach(EpsGraphOf(M), u)
  {
    SetGraphStep(EpsSets(M), u, w);
  }

  /** What a head reaches in the original, the head of it reaches in the contraction. */
  lemma ContractLift(a: Arena, K: set<nat>, comps: seq<Component>, join: bool, h: nat, q: nat)
    requires Valid(a) && TransClosed(a, K) && Partition(comps, K)
    requires h in Contract(a, K, comps, join).states && q in G.Reach(EpsGraph(a, K), h)
    ensures q in K && q in HeadOf(comps) && HeadOf(comps)[q] in G.Reach(EpsGraphOf(Contract(a, K, comps, join)), h)
  {
    hide *;
    var M := Contract(a, K, comps, join);
    var gM := EpsGraphOf(M);
    ContractWithin(a, K, comps, join);
    var eg := EpsGraph(a, K);
    EpsGraphClosed(a, K);
    var j := GroupComponent(comps, h);
    PartitionAt(comps, K, j);
    G.ReachIsLeast(gM, h);
    var T := set x | x in K && x in HeadOf(comps) && HeadOf(comps)[x] in G.Reach(gM, h);
    forall x, i | x in T && x in eg && 0 <= i < |eg[x]| ensures eg[x][i] in T {
      EpsGraphEdge(a, K, x, i);
      LiftStep(a, K, comps, join, h, x, eg[x][i]);
    }
    LiftClosed(eg, T);
    G.ReachIsLeast(eg, h);
  }

  lemma LiftClosed(eg: G.Graph, T: set<nat>)
    requires forall x, i | x in T && x in eg && 0 <= i < |eg[x]| :: eg[x][i] in T
    ensures G.ClosedSet(eg, T)
  {
  }

  /** Every state of the contraction heads some component, so the closure loop visits it. */
  lemma HeadsCover(a: Arena, K: set<nat>, comps: seq<Component>, join: bool)
    requires Valid(a) && TransClosed(a, K) && Partition(comps, K)
    ensures Contract(a, K, comps, join).states.Keys <= G.Elems(Heads(comps))
  {
    forall u | u in Contract(a, K, comps, join).states ensures u in G.Elems(Heads(comps)) {
      var j := GroupComponent(comps, u);
      assert Heads(comps)[j] == u;
    }
  }

  /** A state holding an accepting state in its closure accepts after absorption. */
  lemma AbsorbAcceptsFrom(M: Arena, Cl: map<nat, set<nat>>, h: nat, p: nat)
    requires Valid(M) && Cl.Keys == M.states.Keys && SetsWithin(Cl) && h in M.states
    requires p in Cl[h] && p in M.states && M.states[p].accepting
    ensures Absorb(M, Cl).states[h].accepting
  {
  }

  /** The corrected removal loses no acceptance: a head accepts when some state epsilon-reachable
      from it in the original accepts. */
  lemma RemoveEpsilonComplete(a: Arena, root: nat, i: nat, q: nat)
    requires Valid(a) && root in a.states && i < |Components(a, root)|
    requires q in G.Reach(EpsGraph(a, Reachable(a, root)), Components(a, root)[i].head)
    requires q in a.states && a.states[q].accepting
    ensures Components(a, root)[i].head in RemoveEpsilon(a, root).states
    ensures RemoveEpsilon(a, root).states[Components(a, root)[i].head].accepting
  {
    hide *;
    var K, comps := Reachable(a, root), Components(a, root);
    var h := comps[i].head;
    RemoveEpsilonIs(a, root);
    ContractedIs(a, root);
    var M := Contracted(a, root);
    var heads := Heads(comps);
    ContractHeads(a, K, comps, true);
    RemoveEpsilonWithAccepting(a, K, comps, true, root, i);
    RemoveEpsilonUnfold(a, root);
    ContractLift(a, K, comps, true, h, q);
    var l := PartitionCovers(comps, K, q);
    PartitionAt(comps, K, l);
    ContractAccepting(a, K, comps, true, l);
    var p := comps[l].head;
    ContractedRanked(a, root);
    HeadsCover(a, K, comps, true);
    ClosuresExact(M, heads, ReachRank(EpsGraph(a, K), M.states.Keys));
    AbsorbAcceptsFrom(M, Closures(M, heads), h, p);
  }

  lemma RemoveEpsilonUnfold(a: Arena, root: nat)
    requires Valid(a) && root in a.states
    ensures Valid(Contracted(a, root)) &&
      (forall k | 0 <= k < |Heads(Components(a, root))| :: Heads(Components(a, root))[k] in Contracted(a, root).states) &&
      RemoveEpsilon(a, root) == Absorb(Contracted(a, root), Closures(Contracted(a, root), Heads(Components(a, root))))
  {
    RemoveEpsilonIs(a, root);
    ContractHeads(a, Reachable(a, root), Components(a, root), true);
  }

  /** After the corrected removal a head accepts exactly when some state epsilon-reachable from
      it in the original automaton accepts. */
  lemma RemoveEpsilonExact(a: Arena, root: nat, i: nat)
    requires Valid(a) && root in a.states && i < |Components(a, root)|
    ensures Components(a, root)[i].head in RemoveEpsilon(a, root).states
    ensures RemoveEpsilon(a, root).states[Components(a, root)[i].head].accepting <==>
      exists q :: q in G.Reach(EpsGraph(a, Reachable(a, root)), Components(a, root)[i].head) &&
        q in a.states && a.states[q].accepting
  {
    RemoveEpsilonSound(a, root, i);
    forall q | q in G.Reach(EpsGraph(a, Reachable(a, root)), Components(a, root)[i].head) && q in a.states && a.states[q].accepting
      ensures RemoveEpsilon(a, root).states[Components(a, root)[i].head].accepting
    {
      RemoveEpsilonComplete(a, root, i, q);
    }
  }
}
