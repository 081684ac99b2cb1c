/** Nondeterministic automata (src/NFA.h, src/NFA.cpp). All states live in one arena indexed by
    id; `top` is the next unused id, so `new NFA` is "take `top`, bump it". A state maps each
    label to a set of target ids, and the label '\0' is the empty word (epsilon). The `parents`
    back-references of the source are exactly "the transition sets that contain this id", so a
    redirect through them is a rewrite of every set in the arena; `explored`, `index` and
    `epsilonParents` are per-call scratch data. */
module Nfas {
  import opened Ordering
  import G = Graphs

  /** The epsilon label. */
  const Eps: char := '\0'

  datatype NState = NState(trans: map<char, set<nat>>, accepting: bool)

  datatype Arena = Arena(states: map<nat, NState>, top: nat)

  /** Every id is below `top` and no transition leaves the arena. */
  predicate Valid(a: Arena) {
    (forall u | u in a.states :: u < a.top) &&
    forall u, c {:trigger a.states[u].trans[c]} | u in a.states && c in a.states[u].trans ::
      a.states[u].trans[c] <= a.states.Keys
  }

  /** The targets of a transition map under every label, epsilon included. */
  function Targets(t: map<char, set<nat>>): set<nat> {
    set c, v | c in t && v in t[c] :: v
  }

  lemma TargetsHas(t: map<char, set<nat>>, c: char, v: nat)
    requires c in t && v in t[c]
    ensures v in Targets(t)
  {
  }

  /** The targets label by label in the order the traversals push them: labels ascending
      (`std::map<char, _>`), targets of a label in ascending id (`std::set<NFA*>`). */
  function SuccList(t: map<char, set<nat>>, labels: seq<char>): (r: seq<nat>)
    requires forall i | 0 <= i < |labels| :: labels[i] in t
    ensures forall k | 0 <= k < |r| :: r[k] in Targets(t)
    ensures forall i, v | 0 <= i < |labels| && v in t[labels[i]] :: v in r
  {
    if labels == [] then []
    else
      var rest := SuccList(t, labels[1..]);
      SuccListCons(t, labels, SortedNats(t[labels[0]]), rest, SortedNats(t[labels[0]]) + rest);
      SortedNats(t[labels[0]]) + rest
  }

  /** The facts of SuccList for labels, from those for labels[1..]. */
  lemma SuccListCons(t: map<char, set<nat>>, labels: seq<char>, head: seq<nat>, rest: seq<nat>, r: seq<nat>)
    requires |labels| > 0 && r == head + rest && forall i | 0 <= i < |labels| :: labels[i] in t
    requires forall v :: v in head <==> v in t[labels[0]]
    requires forall k | 0 <= k < |rest| :: rest[k] in Targets(t)
    requires forall i, v | 0 <= i < |labels[1..]| && v in t[labels[1..][i]] :: v in rest
    ensures forall k | 0 <= k < |r| :: r[k] in Targets(t)
    ensures forall i, v | 0 <= i < |labels| && v in t[labels[i]] :: v in r
  {
    forall k | 0 <= k < |r| ensures r[k] in Targets(t) {
      if k < |head| {
        assert head[k] in head;
        TargetsHas(t, labels[0], r[k]);
      } else {
        assert r[k] == rest[k - |head|];
      }
    }
    forall i, v | 0 <= i < |labels| && v in t[labels[i]] ensures v in r {
      if i == 0 {
        assert v in head;
      } else {
        assert labels[i] == labels[1..][i - 1];
        assert v in rest;
      }
    }
  }

  function Succ(t: map<char, set<nat>>): (r: seq<nat>)
    ensures forall k | 0 <= k < |r| :: r[k] in Targets(t)
  {
    SuccList(t, SortedChars(t.Keys))
  }

  /** Every target of t is listed. */
  lemma SuccHas(t: map<char, set<nat>>, v: nat)
    requires v in Targets(t)
    ensures v in Succ(t)
  {
    var ls := SortedChars(t.Keys);
    var c :| c in t && v in t[c];
    assert c in ls;
    var i :| 0 <= i < |ls| && ls[i] == c;
  }

  /** The transition graph; `blocked` (the right operand of a concatenation) has no successors,
      because the traversal treats it as already explored. */
  function ToGraph(a: Arena, blocked: set<nat>): G.Graph {
    map u | u in a.states :: if u in blocked then [] else Succ(a.states[u].trans)
  }

  lemma ToGraphClosed(a: Arena, blocked: set<nat>)
    requires Valid(a)
    ensures G.Closed(ToGraph(a, blocked))
  {
    var g := ToGraph(a, blocked);
    forall u, i | u in g && 0 <= i < |g[u]| ensures g[u][i] in g {
      var v := g[u][i];
      assert v in Targets(a.states[u].trans);
      var c :| c in a.states[u].trans && v in a.states[u].trans[c];
    }
  }

  /** `new NFA(acceptable)` (src/NFA.cpp:170-172): a state without transitions. */
  function NewState(a: Arena, acc: bool): (r: (Arena, nat))
    requires Valid(a)
    ensures Valid(r.0) && r.1 !in a.states && r.0.top > r.1
    ensures r.0.states == a.states[r.1 := NState(map[], acc)]
  {
    (Arena(a.states[a.top := NState(map[], acc)], a.top + 1), a.top)
  }

  /** `new NFA(c)` (src/NFA.cpp:174-180): a non-accepting start with one transition on c to a new
      accepting state without transitions. */
  function CharNfa(a: Arena, c: char): (r: (Arena, nat))
    requires Valid(a)
    ensures Valid(r.0) && r.1 !in a.states && r.1 in r.0.states
    ensures !r.0.states[r.1].accepting && r.0.states[r.1].trans.Keys == {c}
    ensures forall f | f in r.0.states[r.1].trans[c] :: f !in a.states && f != r.1 && r.0.states[f] == NState(map[], true)
    ensures |r.0.states[r.1].trans[c]| == 1
    ensures forall u | u in a.states :: u in r.0.states && r.0.states[u] == a.states[u]
    ensures r.0.states.Keys == a.states.Keys + {r.1} + r.0.states[r.1].trans[c]
  {
    var s := a.top;
    var f := a.top + 1;
    var st := a.states[s := NState(map[c := {f}], false)][f := NState(map[], true)];
    assert |{f}| == 1;
    (Arena(st, a.top + 2), s)
  }

  /** `add` (src/NFA.cpp:7-15): a new non-accepting state whose only transition is an epsilon set
      holding both operands. */
  function Add(a: Arena, x: nat, y: nat): (r: (Arena, nat))
    requires Valid(a) && x in a.states && y in a.states
    ensures Valid(r.0) && r.1 !in a.states && r.1 in r.0.states
    ensures r.0.states[r.1] == NState(map[Eps := {x, y}], false)
    ensures r.0.states == a.states[r.1 := r.0.states[r.1]]
  {
    (Arena(a.states[a.top := NState(map[Eps := {x, y}], false)], a.top + 1), a.top)
  }

  /** The states the traversal of `concatenate` visits: reachable from x without passing
      through tree (which is marked explored beforehand unless it is x itself). */
  function Traversed(a: Arena, x: nat, tree: nat): (r: set<nat>)
    requires Valid(a) && x in a.states && tree in a.states
    ensures x in r && r <= a.states.Keys
    ensures x != tree ==> tree !in r
  {
    var blocked := if x == tree then {} else {tree};
    var g := ToGraph(a, blocked);
    ToGraphClosed(a, blocked);
    G.NewlyVisited(g, x, if x == tree then [] else [tree])
  }

  /** No transition leaves R. */
  ghost predicate ClosedUnder(a: Arena, R: set<nat>) {
    forall u, c {:trigger a.states[u].trans[c]} | u in R && u in a.states && c in a.states[u].trans :: a.states[u].trans[c] <= R
  }

  /** The traversal of `concatenate` stays inside any closed set holding its start. */
  lemma TraversedWithin(a: Arena, x: nat, tree: nat, R: set<nat>)
    requires Valid(a) && x in a.states && tree in a.states
    requires ClosedUnder(a, R) && x in R
    ensures Traversed(a, x, tree) <= R
  {
    hide G.Dfs, G.NewlyVisited, Succ;
    var blocked := if x == tree then {} else {tree};
    var g := ToGraph(a, blocked);
    ToGraphClosed(a, blocked);
    var R' := R + blocked;
    forall u, i | u in R' && u in g && 0 <= i < |g[u]| ensures g[u][i] in R' {
      var v := g[u][i];
      assert v in Targets(a.states[u].trans);
      var c :| c in a.states[u].trans && v in a.states[u].trans[c];
    }
    assert G.ClosedSet(g, R');
    G.NewlyVisitedWithin(g, x, if x == tree then [] else [tree], R');
  }

  /** No transition set of s meets X. */
  predicate Avoids(s: NState, X: set<nat>) {
    forall c | c in s.trans :: s.trans[c] !! X
  }

  /** The accepting states without transitions among the visited states S: they are deleted and
      replaced by tree (src/NFA.cpp:37-47). */
  function Leaves(a: Arena, S: set<nat>): (r: set<nat>)
    requires S <= a.states.Keys
    ensures forall u :: u in r <==> u in S && a.states[u].accepting && a.states[u].trans == map[]
  {
    set u | u in S && a.states[u].accepting && a.states[u].trans == map[]
  }

  lemma LeavesWithin(a: Arena, S: set<nat>)
    requires S <= a.states.Keys
    ensures Leaves(a, S) <= S
  {
  }

  /** The other accepting visited states: they lose acceptance and gain an epsilon edge to tree
      (src/NFA.cpp:48-53). */
  function Inner(a: Arena, S: set<nat>): (r: set<nat>)
    requires S <= a.states.Keys
    ensures forall u :: u in r <==> u in S && a.states[u].accepting && a.states[u].trans != map[]
  {
    set u | u in S && a.states[u].accepting && a.states[u].trans != map[]
  }

  /** A transition set after the deleted states are replaced by tree. */
  function Redirect(X: set<nat>, leaves: set<nat>, tree: nat): (r: set<nat>)
    ensures tree !in leaves ==> r * leaves == {}
    ensures X * leaves != {} ==> tree in r
    ensures r - {tree} == X - leaves - {tree}
  {
    if X * leaves == {} then X else (X - leaves) + {tree}
  }

  function ConcatState(s: NState, inner: bool, leaves: set<nat>, tree: nat): NState {
    var t := map c | c in s.trans :: Redirect(s.trans[c], leaves, tree);
    if inner then NState(t[Eps := (if Eps in t then t[Eps] else {}) + {tree}], false) else NState(t, s.accepting)
  }

  /** The states after the rewrite of `concatenate`, once the visited set S is known. */
  function ConcatStates(a: Arena, S: set<nat>, tree: nat): map<nat, NState>
    requires S <= a.states.Keys
  {
    map u | u in a.states && u !in Leaves(a, S) :: ConcatState(a.states[u], u in Inner(a, S), Leaves(a, S), tree)
  }

  /** Which states survive the rewrite, and what happens to their acceptance and labels. */
  lemma ConcatShape(a: Arena, S: set<nat>, tree: nat)
    requires S <= a.states.Keys
    ensures ConcatStates(a, S, tree).Keys == a.states.Keys - Leaves(a, S)
    ensures forall u | u in S && a.states[u].accepting && u in ConcatStates(a, S, tree) ::
      var s := ConcatStates(a, S, tree)[u]; !s.accepting && Eps in s.trans && tree in s.trans[Eps]
    ensures forall u | u in ConcatStates(a, S, tree) && u !in S ::
      ConcatStates(a, S, tree)[u].accepting == a.states[u].accepting
    ensures forall u | u in ConcatStates(a, S, tree) ::
      ConcatStates(a, S, tree)[u].trans.Keys == a.states[u].trans.Keys + (if u in Inner(a, S) then {Eps} else {})
  {
  }

  /** How the rewrite changes each transition set. */
  lemma ConcatSets(a: Arena, S: set<nat>, tree: nat)
    requires Valid(a) && S <= a.states.Keys && tree in a.states && tree !in Leaves(a, S)
    ensures Valid(Arena(ConcatStates(a, S, tree), a.top))
    ensures forall u, c {:trigger ConcatStates(a, S, tree)[u].trans[c]} |
      u in ConcatStates(a, S, tree) && c in ConcatStates(a, S, tree)[u].trans ::
      ConcatStates(a, S, tree)[u].trans[c] * Leaves(a, S) == {}
    ensures forall u, c {:trigger a.states[u].trans[c]} | u in ConcatStates(a, S, tree) && c in a.states[u].trans ::
      ConcatStates(a, S, tree)[u].trans[c] - {tree} == a.states[u].trans[c] - Leaves(a, S) - {tree} &&
      (a.states[u].trans[c] * Leaves(a, S) != {} ==> tree in ConcatStates(a, S, tree)[u].trans[c])
  {
    var st := ConcatStates(a, S, tree);
    var L := Leaves(a, S);
    forall u, c | u in st && c in st[u].trans ensures st[u].trans[c] <= st.Keys {
      var s := a.states[u];
      var t := map c | c in s.trans :: Redirect(s.trans[c], L, tree);
      assert st[u] == ConcatState(s, u in Inner(a, S), L, tree);
      forall c' | c' in t ensures t[c'] <= a.states.Keys - L {
        RedirectWithin(s.trans[c'], L, tree, a.states.Keys);
      }
    }
  }

  lemma RedirectWithin(X: set<nat>, leaves: set<nat>, tree: nat, K: set<nat>)
    requires X <= K && tree in K && tree !in leaves
    ensures Redirect(X, leaves, tree) <= K - leaves
  {
    var r := Redirect(X, leaves, tree);
    forall v | v in r ensures v in K - leaves {
      if v != tree {
        assert v in r - {tree};
      }
    }
  }

  /** A state that was not visited and has no deleted target keeps its transitions and its
      acceptance; every set grows by at most tree. */
  lemma ConcatUntouched(a: Arena, S: set<nat>, tree: nat)
    requires S <= a.states.Keys
    ensures forall u, c {:trigger ConcatStates(a, S, tree)[u].trans[c]} |
      u in ConcatStates(a, S, tree) && c in ConcatStates(a, S, tree)[u].trans ::
      ConcatStates(a, S, tree)[u].trans[c] <= (if c in a.states[u].trans then a.states[u].trans[c] else {}) + {tree}
    ensures forall u | u in a.states && u !in S && Avoids(a.states[u], Leaves(a, S)) ::
      u in ConcatStates(a, S, tree) && ConcatStates(a, S, tree)[u] == a.states[u]
  {
    var st := ConcatStates(a, S, tree);
    forall u | u in a.states && u !in S && Avoids(a.states[u], Leaves(a, S))
      ensures u in st && st[u] == a.states[u]
    {
      assert u !in Leaves(a, S) && u !in Inner(a, S);
      assert st[u].trans == a.states[u].trans;
    }
  }

  /** b is a without the states L: every transition set grows by at most tree, and a state
      outside S with no transition into L is untouched. */
  predicate Rewrites(a: Arena, b: Arena, S: set<nat>, L: set<nat>, tree: nat) {
    b.states.Keys == a.states.Keys - L &&
    (forall u, c {:trigger b.states[u].trans[c]} | u in b.states && c in b.states[u].trans ::
      b.states[u].trans[c] <= (if c in a.states[u].trans then a.states[u].trans[c] else {}) + {tree}) &&
    forall u | u in a.states && u !in S && Avoids(a.states[u], L) :: u in b.states && b.states[u] == a.states[u]
  }

  /** The rewrite of `concatenate` once the visited set S is known. */
  function ConcatWith(a: Arena, S: set<nat>, x: nat, tree: nat): (r: (Arena, nat))
    requires Valid(a) && S <= a.states.Keys && x in S && tree in a.states && tree !in Leaves(a, S)
    ensures Valid(r.0) && r.0.top == a.top && r.1 in r.0.states
    ensures r.1 == (if x in Leaves(a, S) then tree else x)
    ensures r.0.states.Keys == a.states.Keys - Leaves(a, S)
    ensures forall u | u in S && a.states[u].accepting ::
      u !in r.0.states || (!r.0.states[u].accepting && Eps in r.0.states[u].trans && tree in r.0.states[u].trans[Eps])
    ensures forall u | u in r.0.states && u !in S :: r.0.states[u].accepting == a.states[u].accepting
    ensures forall u | u in r.0.states :: r.0.states[u].trans.Keys == a.states[u].trans.Keys + (if u in Inner(a, S) then {Eps} else {})
    ensures forall u, c {:trigger r.0.states[u].trans[c]} | u in r.0.states && c in r.0.states[u].trans ::
      r.0.states[u].trans[c] * Leaves(a, S) == {}
    ensures forall u, c {:trigger a.states[u].trans[c]} | u in r.0.states && c in a.states[u].trans ::
      r.0.states[u].trans[c] - {tree} == a.states[u].trans[c] - Leaves(a, S) - {tree} &&
      (a.states[u].trans[c] * Leaves(a, S) != {} ==> tree in r.0.states[u].trans[c])
    ensures Rewrites(a, r.0, S, Leaves(a, S), tree)
  {
    ConcatShape(a, S, tree);
    ConcatSets(a, S, tree);
    ConcatUntouched(a, S, tree);
    (Arena(ConcatStates(a, S, tree), a.top), if x in Leaves(a, S) then tree else x)
  }

  /** `concatenate` (src/NFA.cpp:17-64). Every accepting state reachable from x without passing
      through tree stops accepting: one without transitions is deleted and every set holding it
      holds tree instead (and tree becomes the root if it was x); any other gains an epsilon edge
      to tree. The outcome does not depend on the order of the traversal: deleted states have no
      successors, and tree is never expanded. When x is tree (the call from `cycle`), x is not
      accepting; otherwise the source would return a deleted state. */
  function Concatenate(a: Arena, x: nat, tree: nat): (r: (Arena, nat))
    requires Valid(a) && x in a.states && tree in a.states
    requires x == tree ==> !a.states[x].accepting
    ensures Valid(r.0) && r.0.top == a.top && r.1 in r.0.states && (r.1 == x || r.1 == tree)
    ensures Rewrites(a, r.0, Traversed(a, x, tree), Leaves(a, Traversed(a, x, tree)), tree)
  {
    ConcatWith(a, Traversed(a, x, tree), x, tree)
  }

  /** The traversal depends only on the transitions. */
  lemma TraversedSameTrans(a: Arena, b: Arena, x: nat, tree: nat)
    requires Valid(a) && Valid(b) && x in a.states && tree in a.states
    requires a.states.Keys == b.states.Keys && forall u | u in a.states :: a.states[u].trans == b.states[u].trans
    ensures Traversed(a, x, tree) == Traversed(b, x, tree)
  {
    hide G.Dfs, Succ;
    assert ToGraph(a, {}) == ToGraph(b, {});
    assert ToGraph(a, {tree}) == ToGraph(b, {tree});
  }

  /** `cycle` once the visited set S is known: x is made non-accepting, concatenated with itself
      and made accepting again. */
  function CycleWith(a: Arena, S: set<nat>, x: nat): (r: (Arena, nat))
    requires Valid(a) && S <= a.states.Keys && x in S
    ensures Valid(r.0) && r.0.top == a.top && r.1 == x && x in r.0.states && r.0.states[x].accepting
    ensures r.0.states.Keys == a.states.Keys - (Leaves(a, S) - {x})
    ensures forall u | u in S && u != x && a.states[u].accepting ::
      u !in r.0.states || (!r.0.states[u].accepting && Eps in r.0.states[u].trans && x in r.0.states[u].trans[Eps])
    ensures forall u | u in r.0.states && u !in S :: r.0.states[u].accepting == a.states[u].accepting
    ensures forall u, c {:trigger r.0.states[u].trans[c]} | u in r.0.states && c in r.0.states[u].trans ::
      r.0.states[u].trans[c] * (Leaves(a, S) - {x}) == {}
    ensures Rewrites(a, r.0, S, Leaves(a, S) - {x}, x)
  {
    var a1 := Unaccepting(a, x);
    UnacceptingLeaves(a, S, x);
    var r := ConcatWith(a1, S, x, x);
    ReacceptShape(a, a1, S, x, r.0);
    ReacceptAccepting(a, a1, S, x, r.0);
    ReacceptRewrites(a, a1, S, x, r.0);
    (Reaccept(r.0, x), x)
  }

  /** The state x made non-accepting. */
  function Unaccepting(a: Arena, x: nat): (a1: Arena)
    requires Valid(a) && x in a.states
    ensures Valid(a1) && a1.top == a.top && a1.states.Keys == a.states.Keys
    ensures !a1.states[x].accepting
    ensures forall u | u in a.states :: a1.states[u].trans == a.states[u].trans
    ensures forall u | u in a.states && u != x :: a1.states[u] == a.states[u]
  {
    var a1 := Arena(a.states[x := NState(a.states[x].trans, false)], a.top);
    assert Valid(a1) by {
      forall u, c | u in a1.states && c in a1.states[u].trans ensures a1.states[u].trans[c] <= a1.states.Keys {
        assert a1.states[u].trans == a.states[u].trans;
      }
    }
    a1
  }

  lemma UnacceptingLeaves(a: Arena, S: set<nat>, x: nat)
    requires Valid(a) && S <= a.states.Keys && x in S
    ensures Leaves(Unaccepting(a, x), S) == Leaves(a, S) - {x}
  {
  }

  /** The state x made accepting again. */
  function Reaccept(b: Arena, x: nat): (r: Arena)
    requires x in b.states
    ensures r.top == b.top && r.states.Keys == b.states.Keys
    ensures r.states[x] == NState(b.states[x].trans, true)
    ensures forall u | u in b.states && u != x :: r.states[u] == b.states[u]
  {
    Arena(b.states[x := NState(b.states[x].trans, true)], b.top)
  }

  lemma ReacceptShape(a: Arena, a1: Arena, S: set<nat>, x: nat, r0: Arena)
    requires Valid(a) && S <= a.states.Keys && x in S && a1 == Unaccepting(a, x)
    requires Leaves(a1, S) == Leaves(a, S) - {x} && r0 == ConcatWith(a1, S, x, x).0
    ensures x in r0.states
    ensures Valid(Reaccept(r0, x)) && Reaccept(r0, x).top == a.top
    ensures x in Reaccept(r0, x).states && Reaccept(r0, x).states[x].accepting
    ensures Reaccept(r0, x).states.Keys == a.states.Keys - (Leaves(a, S) - {x})
  {
  }

  lemma ReacceptAccepting(a: Arena, a1: Arena, S: set<nat>, x: nat, r0: Arena)
    requires Valid(a) && S <= a.states.Keys && x in S && a1 == Unaccepting(a, x)
    requires Leaves(a1, S) == Leaves(a, S) - {x} && r0 == ConcatWith(a1, S, x, x).0 && x in r0.states
    ensures forall u | u in S && u != x && a.states[u].accepting ::
      u !in Reaccept(r0, x).states ||
      (!Reaccept(r0, x).states[u].accepting && Eps in Reaccept(r0, x).states[u].trans && x in Reaccept(r0, x).states[u].trans[Eps])
    ensures forall u | u in Reaccept(r0, x).states && u !in S :: Reaccept(r0, x).states[u].accepting == a.states[u].accepting
  {
    hide Leaves, ConcatWith, Reaccept, Valid;
    forall u | u in S && u != x && a.states[u].accepting && u in r0.states
      ensures !r0.states[u].accepting && Eps in r0.states[u].trans && x in r0.states[u].trans[Eps]
    {
      assert a1.states[u] == a.states[u];
    }
  }

  lemma ReacceptRewrites(a: Arena, a1: Arena, S: set<nat>, x: nat, r0: Arena)
    requires Valid(a) && S <= a.states.Keys && x in S && a1 == Unaccepting(a, x)
    requires Leaves(a1, S) == Leaves(a, S) - {x} && r0 == ConcatWith(a1, S, x, x).0 && x in r0.states
    ensures forall u, c {:trigger Reaccept(r0, x).states[u].trans[c]} | u in Reaccept(r0, x).states && c in Reaccept(r0, x).states[u].trans ::
      Reaccept(r0, x).states[u].trans[c] * (Leaves(a, S) - {x}) == {}
    ensures Rewrites(a, Reaccept(r0, x), S, Leaves(a, S) - {x}, x)
  {
    hide ConcatWith, Unaccepting, Leaves, Reaccept, Valid, Avoids;
    ReacceptShape(a, a1, S, x, r0);
    ReacceptTrans(a, a1, S, x, r0);
    ReacceptUntouched(a, a1, S, x, r0);
  }

  lemma ReacceptTrans(a: Arena, a1: Arena, S: set<nat>, x: nat, r0: Arena)
    requires Valid(a) && S <= a.states.Keys && x in S && a1 == Unaccepting(a, x)
    requires Leaves(a1, S) == Leaves(a, S) - {x} && r0 == ConcatWith(a1, S, x, x).0 && x in r0.states
    ensures forall u, c {:trigger Reaccept(r0, x).states[u].trans[c]} | u in Reaccept(r0, x).states && c in Reaccept(r0, x).states[u].trans ::
      Reaccept(r0, x).states[u].trans[c] * (Leaves(a, S) - {x}) == {}
    ensures forall u, c {:trigger Reaccept(r0, x).states[u].trans[c]} | u in Reaccept(r0, x).states && c in Reaccept(r0, x).states[u].trans ::
      Reaccept(r0, x).states[u].trans[c] <= (if c in a.states[u].trans then a.states[u].trans[c] else {}) + {x}
  {
    hide ConcatWith, Leaves, Valid;
    var b := Reaccept(r0, x);
    assert forall u | u in b.states :: b.states[u].trans == r0.states[u].trans;
  }

  lemma ReacceptUntouched(a: Arena, a1: Arena, S: set<nat>, x: nat, r0: Arena)
    requires Valid(a) && S <= a.states.Keys && x in S && a1 == Unaccepting(a, x)
    requires Leaves(a1, S) == Leaves(a, S) - {x} && r0 == ConcatWith(a1, S, x, x).0 && x in r0.states
    ensures forall u | u in a.states && u !in S && Avoids(a.states[u], Leaves(a, S) - {x}) ::
      u in Reaccept(r0, x).states && Reaccept(r0, x).states[u] == a.states[u]
  {
    hide ConcatWith, Leaves, Valid;
    forall u | u in a.states && u !in S && Avoids(a.states[u], Leaves(a, S) - {x})
      ensures u in Reaccept(r0, x).states && Reaccept(r0, x).states[u] == a.states[u]
    {
      assert a1.states[u] == a.states[u];
      assert Avoids(a1.states[u], Leaves(a1, S));
    }
  }

  /** `cycle` (src/NFA.cpp:66-71). The traversal runs after x is made non-accepting, which does
      not change the transitions it follows (TraversedSameTrans). */
  function Cycle(a: Arena, x: nat): (r: (Arena, nat))
    requires Valid(a) && x in a.states
    ensures Valid(r.0) && r.0.top == a.top && r.1 == x && x in r.0.states && r.0.states[x].accepting
    ensures Rewrites(a, r.0, Traversed(a, x, x), Leaves(a, Traversed(a, x, x)) - {x}, x)
  {
    CycleWith(a, Traversed(a, x, x), x)
  }

  /** `getNumberOfStates` (src/NFA.cpp:93-116): the number of distinct states reachable from x. */
  method NumberOfStates(a: Arena, x: nat) returns (n: nat)
    requires Valid(a) && x in a.states
    ensures n == |G.Reach(ToGraph(a, {}), x)|
    ensures 1 <= n <= |a.states|
  {
    ToGraphClosed(a, {});
    n := G.CountReachable(ToGraph(a, {}), x);
    G.ReachIsLeast(ToGraph(a, {}), x);
    G.CardMono(G.Reach(ToGraph(a, {}), x), a.states.Keys);
    G.CardMono({x}, G.Reach(ToGraph(a, {}), x));
  }
}
