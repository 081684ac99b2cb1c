/** `DFA::minimize` (src/DFA.cpp:146-310): table filling over the reachable states plus a dead
    placeholder. The states are renumbered in discovery order: index 0 is the placeholder (not
    accepting, no transitions), index 1 the start state, index k the k-th state the stack
    traversal finds. The minimised automaton's state ids are these indices. */
module Minimization {
  import opened Wrappers
  import opened Ordering
  import G = Graphs
  import D = Dfas

  type Pair = (nat, nat)

  /** The renumbered automaton: acceptability and transitions by index. */
  datatype Table = Table(acc: seq<bool>, next: seq<map<char, nat>>)

  /** At least the placeholder and the start state; the placeholder accepts nothing, has no
      transitions and is the target of none. */
  predicate ValidTable(t: Table) {
    |t.acc| == |t.next| >= 2 && !t.acc[0] && t.next[0] == map[] &&
    forall k, c {:trigger t.next[k][c]} | 0 <= k < |t.next| && c in t.next[k] :: 1 <= t.next[k][c] < |t.next|
  }

  /** One step of the completed automaton: a missing transition leads to the placeholder. */
  function Step(t: Table, k: nat, c: char): (r: nat)
    requires ValidTable(t) && k < |t.next|
    ensures r < |t.next|
  {
    if c in t.next[k] then t.next[k][c] else 0
  }

  /** Whether state k accepts w. */
  function Lang(t: Table, k: nat, w: string): bool
    requires ValidTable(t) && k < |t.next|
    decreases |w|
  {
    if w == [] then t.acc[k] else Lang(t, Step(t, k, w[0]), w[1..])
  }

  /** Some word is accepted from one of the two states and not from the other. */
  ghost predicate Distinguishable(t: Table, i: nat, j: nat)
    requires ValidTable(t) && i < |t.next| && j < |t.next|
  {
    exists w :: Lang(t, i, w) != Lang(t, j, w)
  }

  /** The placeholder accepts nothing. */
  lemma {:induction false} DeadIsEmpty(t: Table, w: string)
    requires ValidTable(t)
    ensures !Lang(t, 0, w)
    decreases |w|
  {
    if w != [] {
      DeadIsEmpty(t, w[1..]);
    }
  }

  function Norm(a: nat, b: nat): (p: Pair)
    ensures p.0 <= p.1 && ((p.0 == a && p.1 == b) || (p.0 == b && p.1 == a))
  {
    if a <= b then (a, b) else (b, a)
  }

  /** The pair of successors on c; a side without c contributes index 0 (src/DFA.cpp:191-207). */
  function SuccPair(t: Table, i: nat, j: nat, c: char): (p: Pair)
    requires ValidTable(t) && i < |t.next| && j < |t.next|
    ensures p.1 < |t.next|
  {
    Norm(Step(t, i, c), Step(t, j, c))
  }

  /** The labels of either state, in the order the merged iteration visits them. */
  function PairLabels(t: Table, i: nat, j: nat): (r: seq<char>)
    requires ValidTable(t) && i < |t.next| && j < |t.next|
    ensures forall c :: c in r <==> c in t.next[i] || c in t.next[j]
  {
    SortedChars(t.next[i].Keys + t.next[j].Keys)
  }

  /** The successor pairs of (i, j), label by label. */
  function SuccPairs(t: Table, i: nat, j: nat): (r: seq<Pair>)
    requires ValidTable(t) && i < |t.next| && j < |t.next|
    ensures |r| == |PairLabels(t, i, j)|
    ensures forall k | 0 <= k < |r| :: r[k] == SuccPair(t, i, j, PairLabels(t, i, j)[k])
  {
    var ls := PairLabels(t, i, j);
    seq(|ls|, k requires 0 <= k < |ls| => SuccPair(t, i, j, ls[k]))
  }

  lemma SuccPairListed(t: Table, i: nat, j: nat, c: char)
    requires ValidTable(t) && i < |t.next| && j < |t.next|
    requires c in t.next[i] || c in t.next[j]
    ensures SuccPair(t, i, j, c) in SuccPairs(t, i, j)
  {
    var ls := PairLabels(t, i, j);
    var k :| 0 <= k < |ls| && ls[k] == c;
    assert SuccPairs(t, i, j)[k] == SuccPair(t, i, j, c);
  }

  lemma LangCons(t: Table, k: nat, c: char, w: string)
    requires ValidTable(t) && k < |t.next|
    ensures Lang(t, k, [c] + w) == Lang(t, Step(t, k, c), w)
  {
    assert ([c] + w)[0] == c && ([c] + w)[1..] == w;
  }

  /** A pair whose successor pair is distinguishable is distinguishable. */
  lemma DistinguishedBySuccessor(t: Table, i: nat, j: nat, q: Pair)
    requires ValidTable(t) && i < |t.next| && j < |t.next|
    requires q in SuccPairs(t, i, j) && Distinguishable(t, q.0, q.1)
    ensures Distinguishable(t, i, j)
  {
    hide *;
    var c := SuccLabel(t, i, j, q);
    var w := DistinguishingWord(t, q.0, q.1);
    StepDistinguished(t, i, j, c, w);
  }

  /** The label a successor pair is listed under. */
  lemma SuccLabel(t: Table, i: nat, j: nat, q: Pair) returns (c: char)
    requires ValidTable(t) && i < |t.next| && j < |t.next| && q in SuccPairs(t, i, j)
    ensures q == Norm(Step(t, i, c), Step(t, j, c))
  {
    var k :| 0 <= k < |SuccPairs(t, i, j)| && SuccPairs(t, i, j)[k] == q;
    c := PairLabels(t, i, j)[k];
  }

  lemma DistinguishingWord(t: Table, i: nat, j: nat) returns (w: string)
    requires ValidTable(t) && i < |t.next| && j < |t.next| && Distinguishable(t, i, j)
    ensures Lang(t, i, w) != Lang(t, j, w)
  {
    w :| Lang(t, i, w) != Lang(t, j, w);
  }

  /** A word telling the c-successors apart, preceded by c, tells the states apart. */
  lemma StepDistinguished(t: Table, i: nat, j: nat, c: char, w: string)
    requires ValidTable(t) && i < |t.next| && j < |t.next|
    requires Lang(t, Step(t, i, c), w) != Lang(t, Step(t, j, c), w)
    ensures Distinguishable(t, i, j)
  {
    LangCons(t, i, c, w);
    LangCons(t, j, c, w);
    assert Lang(t, i, [c] + w) != Lang(t, j, [c] + w);
  }

  /** All pairs (i, j) with i <= j < n. */
  function AllPairs(n: nat): set<Pair> {
    set i: nat, j: nat | i <= j < n :: (i, j)
  }

  function Cand(cand: map<Pair, seq<Pair>>, q: Pair): seq<Pair> {
    if q in cand then cand[q] else []
  }

  /** Every marked pair is a pair of distinguishable states. */
  ghost predicate Sound(t: Table, marked: set<Pair>)
    requires ValidTable(t)
  {
    forall p | p in marked :: p.0 <= p.1 < |t.next| && Distinguishable(t, p.0, p.1)
  }

  /** Every pair listed as a dependant of q has q among its successor pairs. */
  ghost predicate CandOk(t: Table, cand: map<Pair, seq<Pair>>)
    requires ValidTable(t)
  {
    forall q, k {:trigger cand[q][k]} | q in cand && 0 <= k < |cand[q]| ::
      cand[q][k].0 < cand[q][k].1 < |t.next| && q in SuccPairs(t, cand[q][k].0, cand[q][k].1)
  }

  /** The dependants of a marked pair are marked. */
  ghost predicate MarkClosed(marked: set<Pair>, cand: map<Pair, seq<Pair>>) {
    forall q, k {:trigger cand[q][k]} | q in marked && q in cand && 0 <= k < |cand[q]| :: cand[q][k] in marked
  }

  /** Every pair on the stack is a pair of distinguishable states. */
  ghost predicate AllDistinguishable(t: Table, s: seq<Pair>)
    requires ValidTable(t)
  {
    forall k | 0 <= k < |s| :: s[k].0 <= s[k].1 < |t.next| && Distinguishable(t, s[k].0, s[k].1)
  }

  /** Each dependant of a marked pair is marked or still on the stack. */
  ghost predicate Pending(m: set<Pair>, cand: map<Pair, seq<Pair>>, stack: seq<Pair>) {
    forall q, k {:trigger cand[q][k]} | q in m && q in cand && 0 <= k < |cand[q]| :: cand[q][k] in m || cand[q][k] in stack
  }

  /** Popping a marked pair, or marking a popped pair and pushing its dependants, keeps the
      dependants of marked pairs accounted for. */
  lemma PendingStep(m: set<Pair>, cand: map<Pair, seq<Pair>>, rest: seq<Pair>, p: Pair)
    requires Pending(m, cand, rest + [p])
    ensures p in m ==> Pending(m, cand, rest)
    ensures p !in m ==> Pending(m + {p}, cand, rest + Cand(cand, p))
  {
    if p !in m {
      forall q, k | q in m + {p} && q in cand && 0 <= k < |cand[q]|
        ensures cand[q][k] in m + {p} || cand[q][k] in rest + Cand(cand, p)
      {
        if q == p {
          assert cand[q][k] in Cand(cand, p);
        } else {
          assert cand[q][k] in m || cand[q][k] in rest + [p];
        }
      }
    } else {
      forall q, k | q in m && q in cand && 0 <= k < |cand[q]| ensures cand[q][k] in m || cand[q][k] in rest {
        assert cand[q][k] in m || cand[q][k] in rest + [p];
      }
    }
  }

  lemma DistinguishableStep(t: Table, cand: map<Pair, seq<Pair>>, rest: seq<Pair>, p: Pair)
    requires ValidTable(t) && CandOk(t, cand)
    requires AllDistinguishable(t, rest + [p])
    ensures AllDistinguishable(t, rest)
    ensures p.0 <= p.1 < |t.next| && Distinguishable(t, p.0, p.1)
    ensures AllDistinguishable(t, rest + Cand(cand, p))
  {
    hide *;
    PopDistinguishable(t, rest, p);
    DependantsDistinguishable(t, cand, p);
    ConcatDistinguishable(t, rest, Cand(cand, p));
  }

  lemma PopDistinguishable(t: Table, rest: seq<Pair>, p: Pair)
    requires ValidTable(t) && AllDistinguishable(t, rest + [p])
    ensures AllDistinguishable(t, rest)
    ensures p.0 <= p.1 < |t.next| && Distinguishable(t, p.0, p.1)
  {
    assert (rest + [p])[|rest|] == p;
    assert forall k | 0 <= k < |rest| :: rest[k] == (rest + [p])[k];
  }

  /** The recorded dependants of a distinguishable pair are distinguishable. */
  lemma DependantsDistinguishable(t: Table, cand: map<Pair, seq<Pair>>, p: Pair)
    requires ValidTable(t) && CandOk(t, cand) && p.0 <= p.1 < |t.next| && Distinguishable(t, p.0, p.1)
    ensures AllDistinguishable(t, Cand(cand, p))
  {
    var more := Cand(cand, p);
    forall k | 0 <= k < |more| ensures more[k].0 <= more[k].1 < |t.next| && Distinguishable(t, more[k].0, more[k].1) {
      DistinguishedBySuccessor(t, more[k].0, more[k].1, p);
    }
  }

  lemma ConcatDistinguishable(t: Table, rest: seq<Pair>, more: seq<Pair>)
    requires ValidTable(t) && AllDistinguishable(t, rest) && AllDistinguishable(t, more)
    ensures AllDistinguishable(t, rest + more)
  {
    forall k | 0 <= k < |rest + more| ensures (rest + more)[k].0 <= (rest + more)[k].1 < |t.next| && Distinguishable(t, (rest + more)[k].0, (rest + more)[k].1) {
      if k >= |rest| {
        assert (rest + more)[k] == more[k - |rest|];
      }
    }
  }

  /** Mark p0 and, transitively, every recorded dependant (src/DFA.cpp:208-223). */
  method Propagate(t: Table, marked: set<Pair>, cand: map<Pair, seq<Pair>>, p0: Pair) returns (m: set<Pair>)
    requires ValidTable(t) && Sound(t, marked) && CandOk(t, cand) && MarkClosed(marked, cand)
    requires p0.0 <= p0.1 < |t.next| && Distinguishable(t, p0.0, p0.1)
    ensures Sound(t, m) && MarkClosed(m, cand)
    ensures marked <= m && p0 in m
  {
    var n := |t.next|;
    var stack: seq<Pair> := [p0];
    m := marked;
    assert Pending(m, cand, stack);
    assert AllDistinguishable(t, stack);
    SoundWithin(t, marked);
    hide *;
    while stack != []
      invariant Sound(t, m) && marked <= m && m <= AllPairs(n)
      invariant p0 in m || p0 in stack
      invariant AllDistinguishable(t, stack)
      invariant Pending(m, cand, stack)
      decreases |AllPairs(n) - m|, |stack|
    {
      var p := stack[|stack| - 1];
      var rest := stack[..|stack| - 1];
      assert stack == rest + [p];
      PendingStep(m, cand, rest, p);
      DistinguishableStep(t, cand, rest, p);
      stack := rest;
      if p !in m {
        PairsShrink(n, m, p);
        SoundAdd(t, m, p);
        m := m + {p};
        stack := stack + Cand(cand, p);
      }
    }
    PendingDone(m, cand);
  }

  lemma PendingDone(m: set<Pair>, cand: map<Pair, seq<Pair>>)
    requires Pending(m, cand, [])
    ensures MarkClosed(m, cand)
  {
  }

  lemma PairsShrink(n: nat, m: set<Pair>, p: Pair)
    requires p.0 <= p.1 < n && p !in m
    ensures p in AllPairs(n) && |AllPairs(n) - (m + {p})| < |AllPairs(n) - m|
  {
    assert p == (p.0, p.1);
    assert p in AllPairs(n) - m;
    assert AllPairs(n) - (m + {p}) == (AllPairs(n) - m) - {p};
  }

  lemma SoundWithin(t: Table, m: set<Pair>)
    requires ValidTable(t) && Sound(t, m)
    ensures m <= AllPairs(|t.next|)
  {
    forall p | p in m ensures p in AllPairs(|t.next|) {
      assert p == (p.0, p.1);
    }
  }

  lemma SoundAdd(t: Table, m: set<Pair>, p: Pair)
    requires ValidTable(t) && Sound(t, m)
    requires p.0 <= p.1 < |t.next| && Distinguishable(t, p.0, p.1)
    ensures Sound(t, m + {p})
  {
  }

  /** Every pair (i, j) with i <= j whose states differ in acceptability. */
  ghost predicate InitialMarks(t: Table, marked: set<Pair>)
    requires ValidTable(t)
  {
    forall i: nat, j: nat | i <= j < |t.next| && t.acc[i] != t.acc[j] :: (i, j) in marked
  }

  /** The invariant of the table-filling pass. */
  ghost predicate Filling(t: Table, marked: set<Pair>, cand: map<Pair, seq<Pair>>)
    requires ValidTable(t)
  {
    Sound(t, marked) && CandOk(t, cand) && MarkClosed(marked, cand) && InitialMarks(t, marked)
  }

  /** p is listed as a dependant of each of its successor pairs that is not a single state. */
  ghost predicate Registered(t: Table, cand: map<Pair, seq<Pair>>, p: Pair)
    requires ValidTable(t) && p.0 < |t.next| && p.1 < |t.next|
  {
    forall k | 0 <= k < |SuccPairs(t, p.0, p.1)| && SuccPairs(t, p.0, p.1)[k].0 != SuccPairs(t, p.0, p.1)[k].1 ::
      p in Cand(cand, SuccPairs(t, p.0, p.1)[k])
  }

  /** Dependant lists only grow. */
  ghost predicate Grows(cand: map<Pair, seq<Pair>>, cand': map<Pair, seq<Pair>>) {
    forall q, x | x in Cand(cand, q) :: x in Cand(cand', q)
  }

  /** Append p to the dependants of every pair in sp with two different states
      (src/DFA.cpp:228-259). */
  function Register(cand: map<Pair, seq<Pair>>, sp: seq<Pair>, p: Pair): (r: map<Pair, seq<Pair>>)
    ensures forall k | 0 <= k < |sp| && sp[k].0 != sp[k].1 :: p in Cand(r, sp[k])
    ensures forall q | q !in sp || q.0 == q.1 :: Cand(r, q) == Cand(cand, q)
    ensures forall q, x | x in Cand(cand, q) :: x in Cand(r, q)
    ensures forall q, x | x in Cand(r, q) :: x in Cand(cand, q) || (x == p && q in sp && q.0 != q.1)
    decreases |sp|
  {
    if sp == [] then cand
    else if sp[0].0 == sp[0].1 then Register(cand, sp[1..], p)
    else Register(cand[sp[0] := Cand(cand, sp[0]) + [p]], sp[1..], p)
  }

  /** Registering an unmarked pair none of whose successor pairs is marked keeps the invariant. */
  lemma RegisterKeeps(t: Table, marked: set<Pair>, cand: map<Pair, seq<Pair>>, p: Pair)
    requires ValidTable(t) && Filling(t, marked, cand)
    requires p.0 < p.1 < |t.next|
    requires forall k | 0 <= k < |SuccPairs(t, p.0, p.1)| :: SuccPairs(t, p.0, p.1)[k] !in marked
    ensures Filling(t, marked, Register(cand, SuccPairs(t, p.0, p.1), p))
  {
    var sp := SuccPairs(t, p.0, p.1);
    var r := Register(cand, sp, p);
    RegisterCandOk(t, cand, sp, p, r);
    RegisterClosed(marked, cand, sp, p, r);
  }

  lemma RegisterCandOk(t: Table, cand: map<Pair, seq<Pair>>, sp: seq<Pair>, p: Pair, r: map<Pair, seq<Pair>>)
    requires ValidTable(t) && CandOk(t, cand) && p.0 < p.1 < |t.next| && sp == SuccPairs(t, p.0, p.1)
    requires forall q, x | x in Cand(r, q) :: x in Cand(cand, q) || (x == p && q in sp)
    ensures CandOk(t, r)
  {
    hide SuccPairs;
    forall q: Pair, k: int | q in r && 0 <= k < |r[q]|
      ensures r[q][k].0 < r[q][k].1 < |t.next| && q in SuccPairs(t, r[q][k].0, r[q][k].1)
    {
      assert r[q][k] in Cand(r, q);
      CandOkAt(t, cand, sp, p, q, r[q][k]);
    }
  }

  /** A recorded dependant is an old one or the newly registered pair. */
  lemma CandOkAt(t: Table, cand: map<Pair, seq<Pair>>, sp: seq<Pair>, p: Pair, q: Pair, x: Pair)
    requires ValidTable(t) && CandOk(t, cand) && p.0 < p.1 < |t.next| && sp == SuccPairs(t, p.0, p.1)
    requires x in Cand(cand, q) || (x == p && q in sp)
    ensures x.0 < x.1 < |t.next| && q in SuccPairs(t, x.0, x.1)
  {
    hide SuccPairs;
    if x in Cand(cand, q) {
      var k' :| 0 <= k' < |cand[q]| && cand[q][k'] == x;
    }
  }

  lemma RegisterClosed(marked: set<Pair>, cand: map<Pair, seq<Pair>>, sp: seq<Pair>, p: Pair, r: map<Pair, seq<Pair>>)
    requires MarkClosed(marked, cand) && forall k | 0 <= k < |sp| :: sp[k] !in marked
    requires forall q, x | x in Cand(r, q) :: x in Cand(cand, q) || (x == p && q in sp)
    ensures MarkClosed(marked, r)
  {
    forall q: Pair, k: int | q in marked && q in r && 0 <= k < |r[q]| ensures r[q][k] in marked {
      var x := r[q][k];
      assert x in Cand(r, q);
      var k' :| 0 <= k' < |cand[q]| && cand[q][k'] == x;
    }
  }

  /** Decide pair (i, j) with i < j (src/DFA.cpp:181-262): a pair of equally accepting states
      with a marked successor pair is marked together with its recorded dependants; otherwise it
      is recorded as a dependant of its successor pairs. */
  method ProcessPair(t: Table, marked: set<Pair>, cand: map<Pair, seq<Pair>>, i: nat, j: nat)
    returns (m: set<Pair>, cd: map<Pair, seq<Pair>>)
    requires ValidTable(t) && i < j < |t.next| && Filling(t, marked, cand)
    ensures Filling(t, m, cd) && marked <= m && Grows(cand, cd)
    ensures (i, j) !in m ==> Registered(t, cd, (i, j))
  {
    m, cd := marked, cand;
    if t.acc[i] == t.acc[j] {
      var sp := SuccPairs(t, i, j);
      if exists k :: 0 <= k < |sp| && sp[k] in marked {
        var k :| 0 <= k < |sp| && sp[k] in marked;
        assert sp[k] in sp;
        DistinguishedBySuccessor(t, i, j, sp[k]);
        m := Propagate(t, marked, cand, (i, j));
        assert InitialMarks(t, m);
      } else {
        RegisterKeeps(t, marked, cand, (i, j));
        cd := Register(cand, sp, (i, j));
      }
    } else {
      assert (i, j) in marked;
    }
  }

  /** Every unmarked pair (i, j) with i < j is recorded with its successor pairs. */
  ghost predicate AllRegistered(t: Table, marked: set<Pair>, cand: map<Pair, seq<Pair>>, rows: nat)
    requires ValidTable(t)
  {
    forall i: nat, j: nat | i < rows && i < j < |t.next| && (i, j) !in marked :: Registered(t, cand, (i, j))
  }

  /** Registration survives a step that only marks pairs and extends dependant lists. */
  lemma RegisteredStays(t: Table, cand: map<Pair, seq<Pair>>, cand': map<Pair, seq<Pair>>, p: Pair)
    requires ValidTable(t) && p.0 < |t.next| && p.1 < |t.next|
    requires Registered(t, cand, p) && Grows(cand, cand')
    ensures Registered(t, cand', p)
  {
  }

  /** The pairs (i, j), i <= j, whose states differ in acceptability (src/DFA.cpp:170-178). */
  function InitialTable(t: Table): (m: set<Pair>)
    requires ValidTable(t)
    ensures forall p :: p in m <==> p.0 <= p.1 < |t.next| && t.acc[p.0] != t.acc[p.1]
  {
    set i: nat, j: nat | i <= j < |t.next| && t.acc[i] != t.acc[j] :: (i, j)
  }

  /** A pair of states that differ in acceptability is distinguished by the empty word. */
  lemma InitialSound(t: Table)
    requires ValidTable(t)
    ensures Filling(t, InitialTable(t), map[])
  {
    forall p | p in InitialTable(t) ensures Distinguishable(t, p.0, p.1) {
      assert Lang(t, p.0, []) != Lang(t, p.1, []);
    }
  }

  /** The unmarked pairs (i, j') with i < j' < j are recorded. */
  ghost predicate RowRegistered(t: Table, marked: set<Pair>, cand: map<Pair, seq<Pair>>, i: nat, j: nat)
    requires ValidTable(t)
  {
    forall j': nat | i < j' < j && j' < |t.next| && (i, j') !in marked :: Registered(t, cand, (i, j'))
  }

  /** One call of ProcessPair extends the recorded region by (i, j). */
  lemma FillStep(t: Table, marked: set<Pair>, cand: map<Pair, seq<Pair>>, m: set<Pair>,
                 cd: map<Pair, seq<Pair>>, i: nat, j: nat)
    requires ValidTable(t) && i < j < |t.next|
    requires AllRegistered(t, marked, cand, i) && RowRegistered(t, marked, cand, i, j)
    requires marked <= m && Grows(cand, cd) && ((i, j) !in m ==> Registered(t, cd, (i, j)))
    ensures AllRegistered(t, m, cd, i) && RowRegistered(t, m, cd, i, j + 1)
  {
    hide Registered, Grows, SuccPairs;
    forall i': nat, j': nat | i' < i && i' < j' < |t.next| && (i', j') !in m
      ensures Registered(t, cd, (i', j'))
    {
      RegisteredStays(t, cand, cd, (i', j'));
    }
    forall j': nat | i < j' < j + 1 && j' < |t.next| && (i, j') !in m
      ensures Registered(t, cd, (i, j'))
    {
      if j' < j {
        RegisteredStays(t, cand, cd, (i, j'));
      }
    }
  }

  /** A finished row joins the recorded region. */
  lemma RowDone(t: Table, marked: set<Pair>, cand: map<Pair, seq<Pair>>, i: nat)
    requires ValidTable(t) && AllRegistered(t, marked, cand, i) && RowRegistered(t, marked, cand, i, |t.next|)
    ensures AllRegistered(t, marked, cand, i + 1)
  {
    hide Registered, RowRegistered, SuccPairs;
    forall i': nat, j': nat | i' < i + 1 && i' < j' < |t.next| && (i', j') !in marked
      ensures Registered(t, cand, (i', j'))
    {
      if i' < i {
        AllRegisteredAt(t, marked, cand, i, i', j');
      } else {
        RowRegisteredAt(t, marked, cand, i, |t.next|, j');
      }
    }
  }

  lemma AllRegisteredAt(t: Table, marked: set<Pair>, cand: map<Pair, seq<Pair>>, rows: nat, i: nat, j: nat)
    requires ValidTable(t) && AllRegistered(t, marked, cand, rows)
    requires i < rows && i < j < |t.next| && (i, j) !in marked
    ensures Registered(t, cand, (i, j))
  {
  }

  lemma RowRegisteredAt(t: Table, marked: set<Pair>, cand: map<Pair, seq<Pair>>, i: nat, j: nat, j': nat)
    requires ValidTable(t) && RowRegistered(t, marked, cand, i, j)
    requires i < j' < j && j' < |t.next| && (i, j') !in marked
    ensures Registered(t, cand, (i, j'))
  {
  }

  /** The table-filling pass over all pairs i < j (src/DFA.cpp:166-263). */
  method FillTable(t: Table) returns (marked: set<Pair>, cand: map<Pair, seq<Pair>>)
    requires ValidTable(t)
    ensures Filling(t, marked, cand)
    ensures AllRegistered(t, marked, cand, |t.next|)
  {
    var n := |t.next|;
    marked, cand := InitialTable(t), map[];
    InitialSound(t);
    hide Filling, AllRegistered, RowRegistered, Registered;
    var i := 0;
    while i < n
      invariant i <= n && Filling(t, marked, cand)
      invariant AllRegistered(t, marked, cand, i)
    {
      var j := i + 1;
      while j < n
        invariant i < j <= n
        invariant Filling(t, marked, cand) && AllRegistered(t, marked, cand, i)
        invariant RowRegistered(t, marked, cand, i, j)
      {
        var m, cd := ProcessPair(t, marked, cand, i, j);
        FillStep(t, marked, cand, m, cd, i, j);
        marked, cand := m, cd;
        j := j + 1;
      }
      RowDone(t, marked, cand, i);
      i := i + 1;
    }
  }

  /** The states are the same or their pair is unmarked. */
  predicate Unmarked(marked: set<Pair>, i: nat, j: nat) {
    i == j || Norm(i, j) !in marked
  }

  /** A finished table relates only equally accepting states, and it relates their successors. */
  lemma UnmarkedStep(t: Table, marked: set<Pair>, cand: map<Pair, seq<Pair>>, i: nat, j: nat, c: char)
    requires ValidTable(t) && Filling(t, marked, cand) && AllRegistered(t, marked, cand, |t.next|)
    requires i < |t.next| && j < |t.next| && Unmarked(marked, i, j)
    ensures t.acc[i] == t.acc[j] && Unmarked(marked, Step(t, i, c), Step(t, j, c))
  {
    if i != j {
      var p := Norm(i, j);
      assert p == (p.0, p.1);
      assert t.acc[p.0] == t.acc[p.1];
      var q := SuccPair(t, p.0, p.1, c);
      assert q == Norm(Step(t, i, c), Step(t, j, c));
      if (c in t.next[p.0] || c in t.next[p.1]) && q.0 != q.1 {
        assert Registered(t, cand, p);
        hide Filling, AllRegistered, Registered, SuccPairs, PairLabels;
        SuccUnmarked(t, marked, cand, p, c);
      }
    }
  }

  /** The successor pair of a registered unmarked pair is unmarked: it lists the pair as a
      dependant, and the table is closed under dependants. */
  lemma SuccUnmarked(t: Table, marked: set<Pair>, cand: map<Pair, seq<Pair>>, p: Pair, c: char)
    requires ValidTable(t) && MarkClosed(marked, cand) && p.0 < p.1 < |t.next| && p !in marked
    requires Registered(t, cand, p)
    requires (c in t.next[p.0] || c in t.next[p.1]) && SuccPair(t, p.0, p.1, c).0 != SuccPair(t, p.0, p.1, c).1
    ensures SuccPair(t, p.0, p.1, c) !in marked
  {
    var q := SuccPair(t, p.0, p.1, c);
    var ls := PairLabels(t, p.0, p.1);
    var k :| 0 <= k < |ls| && ls[k] == c;
    assert SuccPairs(t, p.0, p.1)[k] == q;
    assert p in Cand(cand, q);
  }

  /** Unmarked states accept the same words. */
  lemma {:induction false} UnmarkedSameLanguage(t: Table, marked: set<Pair>, cand: map<Pair, seq<Pair>>,
                                               i: nat, j: nat, w: string)
    requires ValidTable(t) && Filling(t, marked, cand) && AllRegistered(t, marked, cand, |t.next|)
    requires i < |t.next| && j < |t.next| && Unmarked(marked, i, j)
    ensures Lang(t, i, w) == Lang(t, j, w)
    decreases |w|
  {
    if w == [] {
      UnmarkedStep(t, marked, cand, i, j, ' ');
    } else {
      UnmarkedStep(t, marked, cand, i, j, w[0]);
      UnmarkedSameLanguage(t, marked, cand, Step(t, i, w[0]), Step(t, j, w[0]), w[1..]);
    }
  }

  /** The finished table marks exactly the distinguishable pairs. */
  lemma TableCorrect(t: Table, marked: set<Pair>, cand: map<Pair, seq<Pair>>, i: nat, j: nat)
    requires ValidTable(t) && Filling(t, marked, cand) && AllRegistered(t, marked, cand, |t.next|)
    requires i < |t.next| && j < |t.next|
    ensures Unmarked(marked, i, j) <==> !Distinguishable(t, i, j)
  {
    if Unmarked(marked, i, j) {
      forall w ensures Lang(t, i, w) == Lang(t, j, w) {
        UnmarkedSameLanguage(t, marked, cand, i, j, w);
      }
    } else {
      var p := Norm(i, j);
      assert p in marked;
      var w :| Lang(t, p.0, w) != Lang(t, p.1, w);
      assert Lang(t, i, w) != Lang(t, j, w);
    }
  }

  /** Unmarked is an equivalence on the first n indices (it is reflexive and symmetric by
      definition). */
  ghost predicate Transitive(n: nat, marked: set<Pair>) {
    forall a: nat, b: nat, c: nat | a < n && b < n && c < n && Unmarked(marked, a, b) && Unmarked(marked, b, c) ::
      Unmarked(marked, a, c)
  }

  /** rep[j] is an index <= j, unmarked with j, and its own representative. */
  ghost predicate RepShape(marked: set<Pair>, rep: seq<nat>) {
    forall j | 0 <= j < |rep| :: rep[j] <= j && rep[rep[j]] == rep[j] && Unmarked(marked, rep[j], j)
  }

  /** rep[j] is at most every index below `bound` that is unmarked with j. */
  ghost predicate RepLeast(marked: set<Pair>, rep: seq<nat>, bound: nat) {
    forall a: nat, j | a < bound && 0 <= j < |rep| && Unmarked(marked, a, j) :: rep[j] <= a
  }

  /** `connectedStates` (src/DFA.cpp:265-277): each index still its own representative claims
      every later index it is unmarked with. When unmarked is an equivalence, rep[j] is the least
      index equivalent to j. */
  method Representatives(n: nat, marked: set<Pair>) returns (rep: seq<nat>)
    ensures |rep| == n && RepShape(marked, rep)
    ensures Transitive(n, marked) ==> RepLeast(marked, rep, n)
  {
    rep := seq(n, i => i);
    var i := 0;
    while i + 1 < n
      invariant |rep| == n && RepShape(marked, rep)
      invariant forall j | 0 <= j < n :: rep[j] == j || rep[j] < i
      invariant Transitive(n, marked) ==> RepLeast(marked, rep, i)
      decreases n - i
    {
      if rep[i] == i {
        var j := i + 1;
        while j < n
          invariant i < j <= n && |rep| == n && RepShape(marked, rep) && rep[i] == i
          invariant forall k | 0 <= k < n :: rep[k] == k || rep[k] <= i
          invariant forall k | 0 <= k < n && (k <= i || j <= k) :: rep[k] == k || rep[k] < i
          invariant Transitive(n, marked) ==> RepLeast(marked, rep, i)
          invariant Transitive(n, marked) ==> forall k | i < k < j && Unmarked(marked, i, k) :: rep[k] == i
        {
          if Norm(i, j) !in marked {
            ClaimKeepsLeast(n, marked, rep, i, j);
            rep := rep[j := i];
          }
          j := j + 1;
        }
        LeastClaimed(n, marked, rep, i);
      } else {
        LeastSkipped(n, marked, rep, i);
      }
      i := i + 1;
    }
  }

  /** After i has claimed every later index unmarked with it, no index up to i undercuts a
      representative. */
  lemma LeastClaimed(n: nat, marked: set<Pair>, rep: seq<nat>, i: nat)
    requires |rep| == n && i < n && RepShape(marked, rep) && rep[i] == i
    requires Transitive(n, marked) ==> RepLeast(marked, rep, i)
    requires Transitive(n, marked) ==> forall k | i < k < n && Unmarked(marked, i, k) :: rep[k] == i
    ensures Transitive(n, marked) ==> RepLeast(marked, rep, i + 1)
  {
    if Transitive(n, marked) {
      forall a: nat, k | a < i + 1 && 0 <= k < n && Unmarked(marked, a, k) ensures rep[k] <= a {
        if a == i && k < i {
          assert rep[k] <= k;
        }
      }
    }
  }

  /** An index already claimed by a smaller one adds nothing: what it is unmarked with, its
      representative is unmarked with too. */
  lemma LeastSkipped(n: nat, marked: set<Pair>, rep: seq<nat>, i: nat)
    requires |rep| == n && i < n && RepShape(marked, rep) && rep[i] != i
    requires Transitive(n, marked) ==> RepLeast(marked, rep, i)
    ensures Transitive(n, marked) ==> RepLeast(marked, rep, i + 1)
  {
    if Transitive(n, marked) {
      forall a: nat, k | a < i + 1 && 0 <= k < n && Unmarked(marked, a, k) ensures rep[k] <= a {
        if a == i {
          var r := rep[i];
          assert r < i && Unmarked(marked, r, i);
          assert Unmarked(marked, r, k);
        }
      }
    }
  }

  /** Claiming j for a representative i keeps rep[j] below every earlier index unmarked with j. */
  lemma ClaimKeepsLeast(n: nat, marked: set<Pair>, rep: seq<nat>, i: nat, j: nat)
    requires |rep| == n && i < j < n && rep[i] == i && Unmarked(marked, i, j)
    requires Transitive(n, marked) ==> RepLeast(marked, rep, i)
    ensures Transitive(n, marked) ==> RepLeast(marked, rep[j := i], i)
  {
    if Transitive(n, marked) {
      forall a: nat, k | a < i && 0 <= k < n && Unmarked(marked, a, k) ensures rep[j := i][k] <= a {
        if k == j {
          assert Unmarked(marked, j, i);
          assert false;
        }
      }
    }
  }

  /** A finished table is an equivalence: unmarked means equal languages. */
  lemma FinishedTransitive(t: Table, marked: set<Pair>, cand: map<Pair, seq<Pair>>)
    requires ValidTable(t) && Filling(t, marked, cand) && AllRegistered(t, marked, cand, |t.next|)
    ensures Transitive(|t.next|, marked)
  {
    forall a: nat, b: nat, c: nat | a < |t.next| && b < |t.next| && c < |t.next| &&
        Unmarked(marked, a, b) && Unmarked(marked, b, c)
      ensures Unmarked(marked, a, c)
    {
      forall w ensures Lang(t, a, w) == Lang(t, c, w) {
        UnmarkedSameLanguage(t, marked, cand, a, b, w);
        UnmarkedSameLanguage(t, marked, cand, b, c, w);
      }
      TableCorrect(t, marked, cand, a, c);
    }
  }

  /** The indices the minimised automaton keeps: every representative except the placeholder,
      and the placeholder when some state is equivalent to it (src/DFA.cpp:278-296). */
  function Kept(rep: seq<nat>): (r: set<nat>)
    ensures forall i: nat :: i in r <==> i < |rep| && rep[i] == i && (i > 0 || exists k | 1 <= k < |rep| :: rep[k] == 0)
  {
    set i: nat | i < |rep| && rep[i] == i && (i > 0 || exists k | 1 <= k < |rep| :: rep[k] == 0)
  }

  /** The minimised automaton (src/DFA.cpp:278-309): the kept states with each transition
      redirected to the target's representative, started at the start state's representative
      (index 1 when (0, 1) is marked, the placeholder otherwise). */
  function Rebuild(t: Table, rep: seq<nat>): (d: D.Dfa)
    requires ValidTable(t) && |rep| == |t.next|
    requires forall j | 0 <= j < |rep| :: rep[j] <= j && rep[rep[j]] == rep[j]
    ensures D.Valid(d)
    ensures forall i :: i in d.states <==> i in Kept(rep)
  {
    var keep := Kept(rep);
    var d := D.Dfa(map i | i in keep :: D.DState(map c | c in t.next[i] :: rep[t.next[i][c]], t.acc[i]), rep[1]);
    assert rep[1] in keep by {
      if rep[1] == 0 {
        assert 1 <= 1 < |rep| && rep[1] == 0;
      }
    }
    forall u, c | u in d.states && c in d.states[u].next ensures d.states[u].next[c] in d.states {
      var x := t.next[u][c];
      if rep[x] == 0 {
        assert 1 <= x < |rep| && rep[x] == 0;
      }
    }
    d
  }

  /** A finished table together with the representatives drawn from it. */
  ghost predicate Finished(t: Table, marked: set<Pair>, cand: map<Pair, seq<Pair>>, rep: seq<nat>)
    requires ValidTable(t)
  {
    Filling(t, marked, cand) && AllRegistered(t, marked, cand, |t.next|) &&
    |rep| == |t.next| && RepShape(marked, rep) && RepLeast(marked, rep, |rep|)
  }

  /** A kept state of the minimised automaton accepts what the same index accepts. */
  lemma {:induction false} RebuildLanguage(t: Table, marked: set<Pair>, cand: map<Pair, seq<Pair>>,
                                          rep: seq<nat>, r: nat, w: string)
    requires ValidTable(t) && Finished(t, marked, cand, rep)
    requires r in Rebuild(t, rep).states
    ensures D.Accepts(Rebuild(t, rep), r, w) == Lang(t, r, w)
    decreases |w|
  {
    var m := Rebuild(t, rep);
    assert m.states[r] == D.DState(map c | c in t.next[r] :: rep[t.next[r][c]], t.acc[r]);
    if w != [] {
      var c := w[0];
      if c in t.next[r] {
        var x := t.next[r][c];
        RebuildLanguage(t, marked, cand, rep, rep[x], w[1..]);
        UnmarkedSameLanguage(t, marked, cand, rep[x], x, w[1..]);
      } else {
        DeadIsEmpty(t, w[1..]);
      }
    }
  }

  /** Kept states are pairwise marked, hence accept different languages. */
  lemma {:induction false} RebuildReduced(t: Table, marked: set<Pair>, cand: map<Pair, seq<Pair>>,
                                         rep: seq<nat>, r1: nat, r2: nat)
    requires ValidTable(t) && Finished(t, marked, cand, rep)
    requires r1 in Rebuild(t, rep).states && r2 in Rebuild(t, rep).states && r1 != r2
    ensures exists w :: D.Accepts(Rebuild(t, rep), r1, w) != D.Accepts(Rebuild(t, rep), r2, w)
  {
    assert !Unmarked(marked, r1, r2) by {
      if Unmarked(marked, r1, r2) {
        assert Unmarked(marked, r2, r1);
        assert false;
      }
    }
    TableCorrect(t, marked, cand, r1, r2);
    var w :| Lang(t, r1, w) != Lang(t, r2, w);
    RebuildLanguage(t, marked, cand, rep, r1, w);
    RebuildLanguage(t, marked, cand, rep, r2, w);
  }

  /** The index of the state u moves to on c: one more than the target's position. */
  function Position(d: D.Dfa, order: seq<nat>, u: nat, c: char): (k: nat)
    requires D.Enumerates(d, order) && u in order && c in d.states[u].next
    ensures 1 <= k <= |order| && order[k - 1] == d.states[u].next[c]
  {
    1 + D.IndexOf(order, d.states[u].next[c])
  }

  /** The transitions of a listed state with targets renumbered to indices. */
  function Relabel(d: D.Dfa, order: seq<nat>, u: nat): (r: map<char, nat>)
    requires D.Enumerates(d, order) && u in order
    ensures forall c :: c in r <==> c in d.states[u].next
    ensures forall c | c in r :: r[c] == Position(d, order, u, c)
  {
    map c | c in d.states[u].next :: Position(d, order, u, c)
  }

  /** Whether index k accepts: the placeholder does not, index k >= 1 as its state does. */
  function AccAt(d: D.Dfa, order: seq<nat>, k: nat): bool
    requires D.Enumerates(d, order) && k <= |order|
  {
    k > 0 && d.states[order[k - 1]].accepting
  }

  /** The transitions of index k. */
  function NextAt(d: D.Dfa, order: seq<nat>, k: nat): map<char, nat>
    requires D.Enumerates(d, order) && k <= |order|
  {
    if k == 0 then map[] else Relabel(d, order, order[k - 1])
  }

  /** The renumbering of src/DFA.cpp:146-163: the placeholder at index 0 and the state at
      position k - 1 of the discovery order at index k. */
  function IndexTable(d: D.Dfa, order: seq<nat>): (t: Table)
    requires D.Enumerates(d, order)
    ensures ValidTable(t) && |t.next| == |order| + 1
    ensures forall k | 0 <= k < |t.next| :: t.acc[k] == AccAt(d, order, k) && t.next[k] == NextAt(d, order, k)
  {
    var n := |order| + 1;
    var t := Table(seq(n, k requires 0 <= k < n => AccAt(d, order, k)), seq(n, k requires 0 <= k < n => NextAt(d, order, k)));
    forall k, c | 0 <= k < n && c in t.next[k] ensures 1 <= t.next[k][c] < n {
      assert k > 0;
    }
    t
  }

  /** Index k of the table accepts what the state at position k - 1 accepts. */
  lemma {:induction false} IndexLanguage(d: D.Dfa, order: seq<nat>, k: nat, w: string)
    requires D.Enumerates(d, order) && 1 <= k <= |order|
    ensures Lang(IndexTable(d, order), k, w) == D.Accepts(d, order[k - 1], w)
    decreases |w|
  {
    var t := IndexTable(d, order);
    var u := order[k - 1];
    if w == [] {
      IndexEmpty(d, order, k);
    } else if w[0] in d.states[u].next {
      var k' := IndexStepOn(d, order, k, w);
      IndexLanguage(d, order, k', w[1..]);
    } else {
      IndexStepOff(d, order, k, w);
      DeadIsEmpty(t, w[1..]);
    }
  }

  lemma IndexEmpty(d: D.Dfa, order: seq<nat>, k: nat)
    requires D.Enumerates(d, order) && 1 <= k <= |order|
    ensures Lang(IndexTable(d, order), k, []) == D.Accepts(d, order[k - 1], [])
  {
  }

  /** Reading a letter with a transition moves index k to the index of the target. */
  lemma IndexStepOn(d: D.Dfa, order: seq<nat>, k: nat, w: string) returns (k': nat)
    requires D.Enumerates(d, order) && 1 <= k <= |order| && w != [] && w[0] in d.states[order[k - 1]].next
    ensures 1 <= k' <= |order|
    ensures Lang(IndexTable(d, order), k, w) == Lang(IndexTable(d, order), k', w[1..])
    ensures D.Accepts(d, order[k - 1], w) == D.Accepts(d, order[k' - 1], w[1..])
  {
    var t := IndexTable(d, order);
    var u := order[k - 1];
    assert t.next[k] == Relabel(d, order, u);
    k' := Position(d, order, u, w[0]);
  }

  /** Reading a letter without a transition moves index k to the placeholder. */
  lemma IndexStepOff(d: D.Dfa, order: seq<nat>, k: nat, w: string)
    requires D.Enumerates(d, order) && 1 <= k <= |order| && w != [] && w[0] !in d.states[order[k - 1]].next
    ensures Lang(IndexTable(d, order), k, w) == Lang(IndexTable(d, order), 0, w[1..])
    ensures !D.Accepts(d, order[k - 1], w)
  {
    var t := IndexTable(d, order);
    assert t.next[k] == Relabel(d, order, order[k - 1]);
  }

  /** The minimised automaton starts at the representative of index 1, which accepts what
      index 1 accepts; it is the placeholder exactly when index 1 accepts nothing. */
  lemma StartFacts(t: Table, marked: set<Pair>, cand: map<Pair, seq<Pair>>, rep: seq<nat>)
    requires ValidTable(t) && Finished(t, marked, cand, rep)
    ensures Rebuild(t, rep).start == rep[1]
    ensures forall w :: D.Accepts(Rebuild(t, rep), rep[1], w) == Lang(t, 1, w)
    ensures rep[1] == 0 <==> forall w :: !Lang(t, 1, w)
  {
    forall w ensures D.Accepts(Rebuild(t, rep), rep[1], w) == Lang(t, 1, w) {
      RebuildLanguage(t, marked, cand, rep, rep[1], w);
      UnmarkedSameLanguage(t, marked, cand, rep[1], 1, w);
    }
    TableCorrect(t, marked, cand, 0, 1);
    if rep[1] == 0 {
      forall w ensures !Lang(t, 1, w) {
        DeadIsEmpty(t, w);
      }
    } else {
      var w :| Lang(t, 0, w) != Lang(t, 1, w);
      DeadIsEmpty(t, w);
    }
  }

  /** The rebuilt automaton accepts what the enumerated automaton accepts from its start. */
  lemma RebuildAcceptsSame(d: D.Dfa, order: seq<nat>, marked: set<Pair>, cand: map<Pair, seq<Pair>>, rep: seq<nat>)
    requires D.Enumerates(d, order) && Finished(IndexTable(d, order), marked, cand, rep)
    ensures forall w :: D.Accepts(Rebuild(IndexTable(d, order), rep), Rebuild(IndexTable(d, order), rep).start, w) ==
                        D.Accepts(d, d.start, w)
    ensures Rebuild(IndexTable(d, order), rep).start == 0 <==> forall w :: !D.Accepts(d, d.start, w)
  {
    var t := IndexTable(d, order);
    StartFacts(t, marked, cand, rep);
    hide IndexTable, Rebuild, Lang, D.Run, Finished;
    forall w ensures Lang(t, 1, w) == D.Accepts(d, d.start, w) {
      IndexLanguage(d, order, 1, w);
    }
  }

  /** No two states of the rebuilt automaton accept the same words. */
  lemma RebuildIsReduced(t: Table, marked: set<Pair>, cand: map<Pair, seq<Pair>>, rep: seq<nat>)
    requires ValidTable(t) && Finished(t, marked, cand, rep)
    ensures D.Reduced(Rebuild(t, rep))
  {
    var m := Rebuild(t, rep);
    hide Rebuild, Lang, D.Run, Finished;
    forall p, q | p in m.states && q in m.states && p != q
      ensures exists w :: D.Accepts(m, p, w) != D.Accepts(m, q, w)
    {
      RebuildReduced(t, marked, cand, rep, p, q);
    }
  }

  /** `minimize` (src/DFA.cpp:146-310): renumber the reachable states, fill the table of
      distinguishable pairs, pick the least index of each class and rebuild. The result accepts
      the same words, no two of its states accept the same words, and it starts at the
      placeholder exactly when the language is empty. */
  method Minimize(d: D.Dfa) returns (m: D.Dfa)
    requires D.Valid(d)
    ensures D.Valid(m) && D.Reduced(m)
    ensures forall w :: D.Accepts(m, m.start, w) == D.Accepts(d, d.start, w)
    ensures m.start == 0 <==> forall w :: !D.Accepts(d, d.start, w)
  {
    var order := D.Order(d);
    D.OrderEnumerates(d);
    hide D.Order, IndexTable, Rebuild, Lang, D.Run, D.Accepts, Filling, AllRegistered, RepShape, RepLeast;
    var t := IndexTable(d, order);
    var marked, cand := FillTable(t);
    var rep := Representatives(|t.next|, marked);
    FinishedTransitive(t, marked, cand);
    m := Rebuild(t, rep);
    RebuildAcceptsSame(d, order, marked, cand, rep);
    RebuildIsReduced(t, marked, cand, rep);
  }
}
