/** Deterministic automata (src/DFA.h, src/DFA.cpp). A DFA is an arena of states indexed by id:
    each state has a partial transition map from characters to state ids and an accepting flag.
    The `explored` and `index` fields of the source are per-call scratch data and appear only as
    local values of the operations that use them. */
module Dfas {
  import opened Wrappers
  import opened Ordering
  import G = Graphs

  datatype DState = DState(next: map<char, nat>, accepting: bool)

  datatype Dfa = Dfa(states: map<nat, DState>, start: nat)

  /** The start state exists and no transition leaves the arena. */
  predicate Valid(d: Dfa) {
    d.start in d.states &&
    forall u, c {:trigger d.states[u].next[c]} | u in d.states && c in d.states[u].next :: d.states[u].next[c] in d.states
  }

  /** The labels of a state in the order `std::map<char, DFA*>` visits them. */
  function Labels(s: DState): (r: seq<char>)
    ensures forall c :: c in r <==> c in s.next
    ensures Increasing(r, CharKey)
  {
    SortedChars(s.next.Keys)
  }

  /** The targets of a state, label by label. */
  function Targets(s: DState): (r: seq<nat>)
    ensures |r| == |Labels(s)|
    ensures forall i | 0 <= i < |r| :: r[i] == s.next[Labels(s)[i]]
  {
    var ls := Labels(s);
    seq(|ls|, i requires 0 <= i < |ls| => s.next[ls[i]])
  }

  /** The transition graph, successors in label order. */
  function ToGraph(d: Dfa): G.Graph {
    map u | u in d.states :: Targets(d.states[u])
  }

  lemma ToGraphClosed(d: Dfa)
    requires Valid(d)
    ensures G.Closed(ToGraph(d)) && d.start in ToGraph(d)
  {
    var g := ToGraph(d);
    forall u, i | u in g && 0 <= i < |g[u]| ensures g[u][i] in g {
      var c := Labels(d.states[u])[i];
      assert g[u][i] == d.states[u].next[c];
    }
  }

  /** The state reached from q by reading w, or None when some character has no transition. */
  function Run(d: Dfa, q: nat, w: string): (r: Option<nat>)
    requires Valid(d) && q in d.states
    ensures r.Some? ==> r.value in d.states
    decreases |w|
  {
    if w == [] then Some(q)
    else if w[0] !in d.states[q].next then None
    else Run(d, d.states[q].next[w[0]], w[1..])
  }

  /** Reading u and then v is reading u + v. */
  lemma {:induction false} RunAppend(d: Dfa, q: nat, u: string, v: string)
    requires Valid(d) && q in d.states
    ensures Run(d, q, u + v) == (match Run(d, q, u) case None => None case Some(p) => Run(d, p, v))
    decreases |u|
  {
    if u != [] {
      assert (u + v)[0] == u[0] && (u + v)[1..] == u[1..] + v;
      if u[0] in d.states[q].next {
        RunAppend(d, d.states[q].next[u[0]], u[1..], v);
      }
    } else {
      assert u + v == v;
    }
  }

  /** The language of state q: the words whose run ends in an accepting state. */
  predicate Accepts(d: Dfa, q: nat, w: string)
    requires Valid(d) && q in d.states
  {
    var r := Run(d, q, w);
    r.Some? && d.states[r.value].accepting
  }

  /** `regexMatch` (src/DFA.cpp:89-99): follow the word from the start state, answer false at the
      first character without a transition, and otherwise the acceptability of the last state. */
  method RegexMatch(d: Dfa, w: string) returns (r: bool)
    requires Valid(d)
    ensures r == Accepts(d, d.start, w)
    ensures Run(d, d.start, w).None? ==> !r
    ensures w == [] ==> r == d.states[d.start].accepting
  {
    var state := d.start;
    var i := 0;
    while i < |w|
      invariant 0 <= i <= |w| && state in d.states
      invariant Run(d, d.start, w) == Run(d, state, w[i..])
    {
      var c := w[i];
      assert w[i..] == [c] + w[i + 1..];
      if c !in d.states[state].next {
        return false;
      }
      state := d.states[state].next[c];
      i := i + 1;
    }
    assert w[i..] == [];
    r := d.states[state].accepting;
  }

  /** `getNumberOfStates` (src/DFA.cpp:11-32): the number of distinct states reachable from the
      start state. */
  method NumberOfStates(d: Dfa) returns (n: nat)
    requires Valid(d)
    ensures n == |G.Reach(ToGraph(d), d.start)|
    ensures n <= |d.states|
  {
    ToGraphClosed(d);
    n := G.CountReachable(ToGraph(d), d.start);
    G.ReachIsLeast(ToGraph(d), d.start);
    G.CardMono(G.Reach(ToGraph(d), d.start), d.states.Keys);
  }

  /** The reachable states in the order the stack traversals of `minimize` and
      `getGeneratingFunction` number them (src/DFA.cpp:152-163, src/DFA.cpp:107-119). */
  function Order(d: Dfa): (r: seq<nat>)
    requires Valid(d)
    ensures |r| > 0 && r[0] == d.start
    ensures forall k | 0 <= k < |r| :: r[k] in d.states
  {
    ToGraphClosed(d);
    OrderFacts(d);
    G.DiscoveryOrder(ToGraph(d), d.start)
  }

  /** The discovery order lists exactly the reachable states. */
  lemma OrderFacts(d: Dfa)
    requires Valid(d)
    ensures G.Closed(ToGraph(d))
    ensures forall u :: u in G.DiscoveryOrder(ToGraph(d), d.start) <==> u in G.Reach(ToGraph(d), d.start)
    ensures forall u | u in G.Reach(ToGraph(d), d.start) :: u in d.states
    ensures G.Distinct(G.DiscoveryOrder(ToGraph(d), d.start))
  {
    ToGraphClosed(d);
    G.ReachIsLeast(ToGraph(d), d.start);
  }

  /** A nonempty list of states, starting with the start state, that no transition leaves. */
  predicate Enumerates(d: Dfa, order: seq<nat>) {
    Valid(d) && |order| > 0 && order[0] == d.start &&
    (forall k | 0 <= k < |order| :: order[k] in d.states) &&
    forall u, c {:trigger d.states[u].next[c]} | u in order && c in d.states[u].next :: d.states[u].next[c] in order
  }

  /** The discovery order is such a list. */
  lemma OrderEnumerates(d: Dfa)
    requires Valid(d)
    ensures Enumerates(d, Order(d))
  {
    OrderFacts(d);
    G.ReachIsLeast(ToGraph(d), d.start);
    forall u, c | u in Order(d) && c in d.states[u].next ensures d.states[u].next[c] in Order(d) {
      var ls := Labels(d.states[u]);
      var i :| 0 <= i < |ls| && ls[i] == c;
      assert ToGraph(d)[u][i] == d.states[u].next[c];
    }
  }

  /** The position of x in a sequence that holds it. */
  function IndexOf(s: seq<nat>, x: nat): (k: nat)
    requires x in s
    ensures k < |s| && s[k] == x
  {
    if s[0] == x then 0 else 1 + IndexOf(s[1..], x)
  }

  /** In a sequence without repetition, the position of s[k] is k. */
  lemma IndexOfDistinct(s: seq<nat>, k: nat)
    requires G.Distinct(s) && k < |s|
    ensures IndexOf(s, s[k]) == k
  {
  }

  /** No two states accept the same language. */
  ghost predicate Reduced(d: Dfa)
    requires Valid(d)
  {
    forall p, q | p in d.states && q in d.states && p != q :: exists w :: Accepts(d, p, w) != Accepts(d, q, w)
  }
}
