/** `NFA::toDFA` (src/NFA.cpp:402-438): the subset construction. Every DFA state stands for a set
    of NFA states; the `PtrMap` memo gives each set its DFA state, allocating one the first time
    the set is looked up. A stack of sets drives the construction: a popped set that has not been
    explored yet gets its acceptability and one transition per label, and the target sets are
    pushed. */
module SubsetConstruction {
  import opened Ordering
  import N = Nfas
  import D = Dfas
  import P = PtrMaps

  /** The labels some member of S has a transition on. */
  function Labels(a: N.Arena, S: set<nat>): set<char>
    requires S <= a.states.Keys
  {
    set q, c | q in S && c in a.states[q].trans :: c
  }

  /** The targets of the members of S under label c. */
  function Step(a: N.Arena, S: set<nat>, c: char): set<nat>
    requires S <= a.states.Keys
  {
    set q, v | q in S && c in a.states[q].trans && v in a.states[q].trans[c] :: v
  }

  lemma StepWithin(a: N.Arena, S: set<nat>, c: char)
    requires N.Valid(a) && S <= a.states.Keys
    ensures Step(a, S, c) <= a.states.Keys
  {
    forall v | v in Step(a, S, c) ensures v in a.states {
      var q :| q in S && c in a.states[q].trans && v in a.states[q].trans[c];
    }
  }

  /** Some member of S is accepting. */
  predicate AnyAccepting(a: N.Arena, S: set<nat>)
    requires S <= a.states.Keys
  {
    exists q | q in S :: a.states[q].accepting
  }

  /** The targets of label c in a label map, none when c is absent. */
  function Get(t: map<char, set<nat>>, c: char): set<nat> {
    if c in t then t[c] else {}
  }

  /** The label maps x and t united label by label. */
  function Union(x: map<char, set<nat>>, t: map<char, set<nat>>): (r: map<char, set<nat>>)
    ensures r.Keys == x.Keys + t.Keys
  {
    map c | c in x.Keys + t.Keys :: Get(x, c) + Get(t, c)
  }

  lemma UnionGet(x: map<char, set<nat>>, t: map<char, set<nat>>, c: char)
    ensures Get(Union(x, t), c) == Get(x, c) + Get(t, c)
  {
  }

  /** Adding a member adds its labels. */
  lemma LabelsAdd(a: N.Arena, S: set<nat>, q: nat)
    requires S <= a.states.Keys && q in a.states
    ensures Labels(a, S + {q}) == Labels(a, S) + a.states[q].trans.Keys
  {
    forall c | c in Labels(a, S + {q}) ensures c in Labels(a, S) + a.states[q].trans.Keys {
      var p :| p in S + {q} && c in a.states[p].trans;
    }
  }

  /** Adding a member adds its targets. */
  lemma StepAdd(a: N.Arena, S: set<nat>, q: nat, c: char)
    requires S <= a.states.Keys && q in a.states
    ensures Step(a, S + {q}, c) == Step(a, S, c) + Get(a.states[q].trans, c)
  {
    forall v | v in Step(a, S + {q}, c) ensures v in Step(a, S, c) + Get(a.states[q].trans, c) {
      var p :| p in S + {q} && c in a.states[p].trans && v in a.states[p].trans[c];
    }
  }

  /** Adding a member adds its acceptability. */
  lemma AcceptingAdd(a: N.Arena, S: set<nat>, q: nat)
    requires S <= a.states.Keys && q in a.states
    ensures AnyAccepting(a, S + {q}) <==> AnyAccepting(a, S) || a.states[q].accepting
  {
  }

  /** The inner loop of src/NFA.cpp:418-423: insert the targets of one member label by label. */
  method AddMember(trans: map<char, set<nat>>, t: map<char, set<nat>>) returns (r: map<char, set<nat>>)
    ensures r == Union(trans, t)
  {
    hide Union, Restrict;
    var labels := SortedChars(t.Keys);
    r := trans;
    var j := 0;
    UnionNone(trans, t, labels);
    while j < |labels|
      invariant 0 <= j <= |labels|
      invariant r == Union(trans, Restrict(t, labels[..j]))
    {
      var c := labels[j];
      UnionRestrictNext(trans, t, labels, j);
      r := r[c := Get(r, c) + t[c]];
      j := j + 1;
    }
    assert labels[..j] == labels;
    RestrictAll(t, labels);
  }

  /** Inserting the targets v of label c into the second operand inserts them into the union. */
  lemma UnionInsert(x: map<char, set<nat>>, t: map<char, set<nat>>, c: char, v: set<nat>)
    requires Get(t, c) <= v
    ensures Union(x, t[c := v]) == Union(x, t)[c := Get(Union(x, t), c) + v]
  {
    var l, r := Union(x, t[c := v]), Union(x, t)[c := Get(Union(x, t), c) + v];
    assert l.Keys == r.Keys;
    forall d | d in l ensures l[d] == r[d] {
      if d != c {
        assert Get(t[c := v], d) == Get(t, d);
      }
    }
  }

  lemma UnionNone(x: map<char, set<nat>>, t: map<char, set<nat>>, ls: seq<char>)
    ensures Union(x, Restrict(t, ls[..0])) == x
  {
    assert Restrict(t, ls[..0]) == map[];
    var u := Union(x, map[]);
    assert u.Keys == x.Keys;
    forall d | d in u ensures u[d] == x[d] {
      assert Get(map[], d) == {};
    }
  }

  /** t limited to the labels in ls. */
  function Restrict(t: map<char, set<nat>>, ls: seq<char>): map<char, set<nat>> {
    map c | c in t && c in ls :: t[c]
  }

  lemma UnionRestrictNext(x: map<char, set<nat>>, t: map<char, set<nat>>, ls: seq<char>, j: nat)
    requires j < |ls| && ls[j] in t
    ensures Union(x, Restrict(t, ls[..j + 1])) == Union(x, Restrict(t, ls[..j]))[ls[j] := Get(Union(x, Restrict(t, ls[..j])), ls[j]) + t[ls[j]]]
  {
    RestrictNext(t, ls, j);
    UnionInsert(x, Restrict(t, ls[..j]), ls[j], t[ls[j]]);
  }

  lemma RestrictNext(t: map<char, set<nat>>, ls: seq<char>, j: nat)
    requires j < |ls| && ls[j] in t
    ensures Restrict(t, ls[..j + 1]) == Restrict(t, ls[..j])[ls[j] := t[ls[j]]]
  {
    assert ls[..j + 1] == ls[..j] + [ls[j]];
  }

  lemma RestrictAll(t: map<char, set<nat>>, ls: seq<char>)
    requires forall c :: c in ls <==> c in t
    ensures Restrict(t, ls) == t
  {
  }

  /** The label-to-targets map of a set, gathered member by member: the loop over `s` in
      src/NFA.cpp:414-425 that builds `_transitions` and `_acceptable`. */
  method Gather(a: N.Arena, S: set<nat>) returns (trans: map<char, set<nat>>, acc: bool)
    requires S <= a.states.Keys
    ensures trans.Keys == Labels(a, S)
    ensures forall c | c in trans :: trans[c] == Step(a, S, c)
    ensures acc <==> AnyAccepting(a, S)
  {
    var members := SortedNats(S);
    trans := map[];
    acc := false;
    var i := 0;
    while i < |members|
      invariant 0 <= i <= |members| && Done(members, i) <= S
      invariant trans.Keys == Labels(a, Done(members, i))
      invariant forall c :: Get(trans, c) == Step(a, Done(members, i), c)
      invariant acc <==> AnyAccepting(a, Done(members, i))
    {
      var q := members[i];
      DoneNext(members, i);
      LabelsAdd(a, Done(members, i), q);
      AcceptingAdd(a, Done(members, i), q);
      forall c ensures Get(Union(trans, a.states[q].trans), c) == Step(a, Done(members, i + 1), c) {
        UnionGet(trans, a.states[q].trans, c);
        StepAdd(a, Done(members, i), q, c);
      }
      acc := acc || a.states[q].accepting;
      trans := AddMember(trans, a.states[q].trans);
      i := i + 1;
    }
    assert Done(members, i) == S;
    forall c | c in trans ensures trans[c] == Step(a, S, c) {
      assert Get(trans, c) == trans[c];
    }
  }

  /** The first i members. */
  function Done(members: seq<nat>, i: nat): set<nat>
    requires i <= |members|
  {
    set k | 0 <= k < i :: members[k]
  }

  lemma DoneNext(members: seq<nat>, i: nat)
    requires i < |members|
    ensures Done(members, i + 1) == Done(members, i) + {members[i]}
  {
  }

  /** What the construction records about the set S and its DFA state s: s accepts iff a member
      of S does, s has exactly the labels of the members, and under each label it leads to the
      DFA state of the members' targets. */
  predicate NodeOk(a: N.Arena, ids: map<set<nat>, nat>, S: set<nat>, s: D.DState)
    requires S <= a.states.Keys
  {
    (s.accepting <==> AnyAccepting(a, S)) &&
    s.next.Keys == Labels(a, S) &&
    forall c | c in s.next :: Step(a, S, c) in ids && s.next[c] == ids[Step(a, S, c)]
  }

  /** Recording more sets keeps a state's record. */
  lemma NodeOkExtends(a: N.Arena, m: P.PtrMap<set<nat>>, m': P.PtrMap<set<nat>>, S: set<nat>, s: D.DState)
    requires S <= a.states.Keys && P.Extends(m, m') && NodeOk(a, m.ids, S, s)
    ensures NodeOk(a, m'.ids, S, s)
  {
  }

  /** All subsets of K. */
  ghost function Subsets(K: set<nat>): (r: set<set<nat>>)
    ensures forall S :: S in r <==> S <= K
    decreases K
  {
    if K == {} then
      assert forall S | S in {{}} :: S <= K;
      forall S: set<nat> | S <= K ensures S in {{}} {
        assert S == {};
      }
      {{}}
    else
      var x :| x in K;
      var rest := Subsets(K - {x});
      var r := rest + set S | S in rest :: S + {x};
      forall S: set<nat> | S <= K ensures S in r {
        if x in S {
          assert S - {x} in rest;
          assert S == (S - {x}) + {x};
        } else {
          assert S in rest;
        }
      }
      r
  }

  /** What the label loop of `toDFA` has done after the labels ls: pm2 extends pm, every label
      in ls leads to the DFA state of its target set, those sets are pushed above `stack`, and
      every set pm2 records anew is among them. */
  ghost predicate Pushed(a: N.Arena, pm: P.PtrMap<set<nat>>, pm2: P.PtrMap<set<nat>>, trans: map<char, set<nat>>,
                         ls: seq<char>, next: map<char, nat>, stack: seq<set<nat>>, stack2: seq<set<nat>>) {
    Grown(pm, pm2) && Linked(trans, ls, next, pm2) && Stacked(a, stack, stack2) && Fresh(pm, pm2, stack2)
  }

  ghost predicate Grown(pm: P.PtrMap<set<nat>>, pm2: P.PtrMap<set<nat>>) {
    P.Wf(pm2) && P.Extends(pm, pm2)
  }

  ghost predicate Linked(trans: map<char, set<nat>>, ls: seq<char>, next: map<char, nat>, pm2: P.PtrMap<set<nat>>) {
    (forall c :: c in next <==> c in ls) &&
    (forall c | c in next :: c in trans && trans[c] in pm2.ids && next[c] == pm2.ids[trans[c]])
  }

  ghost predicate Stacked(a: N.Arena, stack: seq<set<nat>>, stack2: seq<set<nat>>) {
    |stack| <= |stack2| && stack2[..|stack|] == stack &&
    (forall i | |stack| <= i < |stack2| :: stack2[i] <= a.states.Keys)
  }

  ghost predicate Fresh(pm: P.PtrMap<set<nat>>, pm2: P.PtrMap<set<nat>>, stack2: seq<set<nat>>) {
    forall S | S in pm2.ids && S !in pm.ids :: S in stack2
  }

  lemma PushedStart(a: N.Arena, pm: P.PtrMap<set<nat>>, trans: map<char, set<nat>>, ls: seq<char>, stack: seq<set<nat>>)
    requires P.Wf(pm)
    ensures Pushed(a, pm, pm, trans, ls[..0], map[], stack, stack)
  {
  }

  lemma GrownStep(pm: P.PtrMap<set<nat>>, pm2: P.PtrMap<set<nat>>, key: set<nat>)
    requires Grown(pm, pm2)
    ensures Grown(pm, P.Lookup(pm2, key).0)
  {
    P.ExtendsTrans(pm, pm2, P.Lookup(pm2, key).0);
  }

  lemma LinkedStep(trans: map<char, set<nat>>, ls: seq<char>, c: char, next: map<char, nat>, pm2: P.PtrMap<set<nat>>)
    requires Linked(trans, ls, next, pm2) && P.Wf(pm2) && c in trans
    ensures Linked(trans, ls + [c], next[c := P.Lookup(pm2, trans[c]).1], P.Lookup(pm2, trans[c]).0)
  {
    var r := P.Lookup(pm2, trans[c]);
    var nx := next[c := r.1];
    assert forall d :: d in nx <==> d in ls + [c];
    forall d | d in nx ensures d in trans && trans[d] in r.0.ids && nx[d] == r.0.ids[trans[d]] {
      if d != c {
        assert nx[d] == next[d] && trans[d] in pm2.ids;
        assert r.0.ids[trans[d]] == pm2.ids[trans[d]];
      }
    }
  }

  lemma StackedStep(a: N.Arena, stack: seq<set<nat>>, stack2: seq<set<nat>>, S: set<nat>)
    requires Stacked(a, stack, stack2) && S <= a.states.Keys
    ensures Stacked(a, stack, stack2 + [S])
  {
    var st := stack2 + [S];
    assert st[..|stack|] == stack by {
      assert st[..|stack2|] == stack2;
    }
  }

  lemma FreshStep(pm: P.PtrMap<set<nat>>, pm2: P.PtrMap<set<nat>>, stack2: seq<set<nat>>, key: set<nat>)
    requires Fresh(pm, pm2, stack2) && P.Wf(pm2)
    ensures Fresh(pm, P.Lookup(pm2, key).0, stack2 + [key])
  {
    var r := P.Lookup(pm2, key);
    var st := stack2 + [key];
    forall S | S in r.0.ids && S !in pm.ids ensures S in st {
      if S in pm2.ids {
        assert S in stack2;
      } else {
        assert S == key && st[|stack2|] == S;
      }
    }
  }

  lemma PushedStep(a: N.Arena, pm: P.PtrMap<set<nat>>, pm2: P.PtrMap<set<nat>>, trans: map<char, set<nat>>,
                   ls: seq<char>, c: char, next: map<char, nat>, stack: seq<set<nat>>, stack2: seq<set<nat>>)
    requires Pushed(a, pm, pm2, trans, ls, next, stack, stack2) && c in trans && trans[c] <= a.states.Keys
    ensures Pushed(a, pm, P.Lookup(pm2, trans[c]).0, trans, ls + [c], next[c := P.Lookup(pm2, trans[c]).1], stack, stack2 + [trans[c]])
  {
    hide Grown, Linked, Stacked, Fresh;
    GrownWf(pm, pm2);
    GrownStep(pm, pm2, trans[c]);
    LinkedStep(trans, ls, c, next, pm2);
    StackedStep(a, stack, stack2, trans[c]);
    FreshStep(pm, pm2, stack2, trans[c]);
  }

  lemma GrownWf(pm: P.PtrMap<set<nat>>, pm2: P.PtrMap<set<nat>>)
    requires Grown(pm, pm2)
    ensures P.Wf(pm2)
  {
  }

  /** The loop over `_transitions` (src/NFA.cpp:426-429): label by label in ascending order, push
      the target set and look up its DFA state, which becomes the target of the label. */
  method Expand(a: N.Arena, pm: P.PtrMap<set<nat>>, trans: map<char, set<nat>>, stack: seq<set<nat>>)
    returns (pm': P.PtrMap<set<nat>>, next: map<char, nat>, stack': seq<set<nat>>)
    requires P.Wf(pm) && forall c | c in trans :: trans[c] <= a.states.Keys
    ensures Pushed(a, pm, pm', trans, SortedChars(trans.Keys), next, stack, stack')
    ensures next.Keys == trans.Keys
    ensures |stack'| == |stack| + |SortedChars(trans.Keys)|
    ensures forall k | 0 <= k < |SortedChars(trans.Keys)| ::
      SortedChars(trans.Keys)[k] in trans && stack'[|stack| + k] == trans[SortedChars(trans.Keys)[k]]
  {
    hide Grown, Linked, Stacked, Fresh, InOrder;
    var labels := SortedChars(trans.Keys);
    pm', next, stack' := pm, map[], stack;
    PushedStart(a, pm, trans, labels, stack);
    InOrderStart(trans, labels, stack);
    var j := 0;
    while j < |labels|
      invariant 0 <= j <= |labels|
      invariant Pushed(a, pm, pm', trans, labels[..j], next, stack, stack')
      invariant InOrder(trans, labels[..j], stack, stack')
    {
      var c := labels[j];
      GrownWf(pm, pm');
      PushedStep(a, pm, pm', trans, labels[..j], c, next, stack, stack');
      InOrderStep(trans, labels[..j], c, stack, stack');
      SnocPrefix(labels, j);
      var r := P.Lookup(pm', trans[c]);
      stack' := stack' + [trans[c]];
      pm' := r.0;
      next := next[c := r.1];
      j := j + 1;
    }
    assert labels[..j] == labels;
    LinkedKeys(trans, labels, next, pm');
    InOrderFacts(trans, labels, stack, stack');
  }

  /** The entries pushed after `stack` are the target sets of the labels ls, in the order of ls. */
  ghost predicate InOrder(trans: map<char, set<nat>>, ls: seq<char>, stack: seq<set<nat>>, stack2: seq<set<nat>>) {
    |stack2| == |stack| + |ls| && forall k | 0 <= k < |ls| :: ls[k] in trans && stack2[|stack| + k] == trans[ls[k]]
  }

  lemma InOrderStart(trans: map<char, set<nat>>, ls: seq<char>, stack: seq<set<nat>>)
    ensures InOrder(trans, ls[..0], stack, stack)
  {
  }

  lemma InOrderStep(trans: map<char, set<nat>>, ls: seq<char>, c: char, stack: seq<set<nat>>, stack2: seq<set<nat>>)
    requires InOrder(trans, ls, stack, stack2) && c in trans
    ensures InOrder(trans, ls + [c], stack, stack2 + [trans[c]])
  {
    forall k | 0 <= k < |ls + [c]| ensures (ls + [c])[k] in trans && (stack2 + [trans[c]])[|stack| + k] == trans[(ls + [c])[k]] {
      if k < |ls| {
        assert (ls + [c])[k] == ls[k];
      }
    }
  }

  lemma InOrderFacts(trans: map<char, set<nat>>, ls: seq<char>, stack: seq<set<nat>>, stack2: seq<set<nat>>)
    requires InOrder(trans, ls, stack, stack2)
    ensures |stack2| == |stack| + |ls|
    ensures forall k | 0 <= k < |ls| :: ls[k] in trans && stack2[|stack| + k] == trans[ls[k]]
  {
  }

  lemma SnocPrefix<T>(s: seq<T>, j: nat)
    requires j < |s|
    ensures s[..j] + [s[j]] == s[..j + 1]
  {
  }

  lemma LinkedKeys(trans: map<char, set<nat>>, ls: seq<char>, next: map<char, nat>, pm2: P.PtrMap<set<nat>>)
    requires Linked(trans, ls, next, pm2) && forall c :: c in ls <==> c in trans
    ensures next.Keys == trans.Keys
  {
  }

  /** The loop invariant of `toDFA`, one part at a time. The memo and the stack hold sets of NFA
      states. */
  ghost predicate Shape(a: N.Arena, pm: P.PtrMap<set<nat>>, stack: seq<set<nat>>) {
    P.Wf(pm) &&
    (forall i | 0 <= i < |stack| :: stack[i] <= a.states.Keys) &&
    (forall S | S in pm.ids :: S <= a.states.Keys)
  }

  /** Every built DFA state is the state of a recorded set. */
  ghost predicate Allocated(pm: P.PtrMap<set<nat>>, states: map<nat, D.DState>) {
    forall u | u in states :: u < pm.count && u in pm.ids.Values
  }

  /** `done` holds exactly the recorded sets whose state is built (explored). */
  ghost predicate DoneExactly(pm: P.PtrMap<set<nat>>, states: map<nat, D.DState>, done: set<set<nat>>) {
    done <= pm.ids.Keys && forall S | S in pm.ids :: (pm.ids[S] in states <==> S in done)
  }

  /** Every built state is built right. */
  ghost predicate Recorded(a: N.Arena, pm: P.PtrMap<set<nat>>, states: map<nat, D.DState>) {
    forall S | S in pm.ids && pm.ids[S] in states :: S <= a.states.Keys && NodeOk(a, pm.ids, S, states[pm.ids[S]])
  }

  /** Every recorded set whose state is not built yet waits on the stack. */
  ghost predicate Pending(pm: P.PtrMap<set<nat>>, states: map<nat, D.DState>, stack: seq<set<nat>>) {
    forall S | S in pm.ids :: pm.ids[S] in states || S in stack
  }

  /** The root's set is recorded or still waits on the stack. */
  ghost predicate RootSeen(root: nat, pm: P.PtrMap<set<nat>>, stack: seq<set<nat>>) {
    {root} in pm.ids || {root} in stack
  }

  ghost predicate Building(a: N.Arena, root: nat, pm: P.PtrMap<set<nat>>, states: map<nat, D.DState>,
                           stack: seq<set<nat>>, done: set<set<nat>>) {
    Shape(a, pm, stack) && Allocated(pm, states) && DoneExactly(pm, states, done) &&
    Recorded(a, pm, states) && Pending(pm, states, stack) && RootSeen(root, pm, stack)
  }

  lemma BuildingStart(a: N.Arena, root: nat)
    requires root in a.states
    ensures Building(a, root, P.Empty(), map[], [{root}], {})
  {
  }

  /** A popped set whose state is built is recorded already, so its lookup changes nothing. */
  lemma SkipSame(pm: P.PtrMap<set<nat>>, states: map<nat, D.DState>, S: set<nat>)
    requires P.Wf(pm) && Allocated(pm, states) && P.Lookup(pm, S).1 in states
    ensures S in pm.ids && P.Lookup(pm, S).0 == pm
  {
  }

  lemma ShapeSkip(a: N.Arena, pm: P.PtrMap<set<nat>>, rest: seq<set<nat>>, S: set<nat>)
    requires Shape(a, pm, rest + [S])
    ensures Shape(a, pm, rest) && S <= a.states.Keys
  {
    assert (rest + [S])[|rest|] == S;
    forall i | 0 <= i < |rest| ensures rest[i] <= a.states.Keys {
      assert rest[i] == (rest + [S])[i];
    }
  }

  lemma PendingSkip(pm: P.PtrMap<set<nat>>, states: map<nat, D.DState>, rest: seq<set<nat>>, S: set<nat>)
    requires Pending(pm, states, rest + [S]) && S in pm.ids && pm.ids[S] in states
    ensures Pending(pm, states, rest)
  {
    forall T | T in pm.ids ensures pm.ids[T] in states || T in rest {
      if pm.ids[T] !in states {
        assert T in rest + [S] && T != S;
      }
    }
  }

  lemma RootSkip(root: nat, pm: P.PtrMap<set<nat>>, rest: seq<set<nat>>, S: set<nat>)
    requires RootSeen(root, pm, rest + [S]) && S in pm.ids
    ensures RootSeen(root, pm, rest)
  {
  }

  /** A popped set whose state is built already: only the pop changes anything. */
  lemma BuildingSkip(a: N.Arena, root: nat, pm: P.PtrMap<set<nat>>, states: map<nat, D.DState>,
                     rest: seq<set<nat>>, S: set<nat>, done: set<set<nat>>)
    requires Building(a, root, pm, states, rest + [S], done)
    requires P.Lookup(pm, S).1 in states
    ensures P.Lookup(pm, S).0 == pm && Building(a, root, pm, states, rest, done)
  {
    hide Shape, Allocated, DoneExactly, Recorded, Pending, RootSeen;
    ShapeWf(a, pm, rest + [S]);
    SkipSame(pm, states, S);
    ShapeSkip(a, pm, rest, S);
    PendingSkip(pm, states, rest, S);
    RootSkip(root, pm, rest, S);
  }

  lemma ShapeWf(a: N.Arena, pm: P.PtrMap<set<nat>>, stack: seq<set<nat>>)
    requires Shape(a, pm, stack)
    ensures P.Wf(pm)
  {
  }

  /** The effects of exploring a popped set S whose state `id` is not built yet. */
  ghost predicate Explored(a: N.Arena, pm: P.PtrMap<set<nat>>, S: set<nat>, trans: map<char, set<nat>>, acc: bool,
                           pm2: P.PtrMap<set<nat>>, next: map<char, nat>, rest: seq<set<nat>>, stack2: seq<set<nat>>)
    requires P.Wf(pm) && S <= a.states.Keys
  {
    trans.Keys == Labels(a, S) && (forall c | c in trans :: trans[c] == Step(a, S, c)) && (acc <==> AnyAccepting(a, S)) &&
    next.Keys == trans.Keys && Pushed(a, P.Lookup(pm, S).0, pm2, trans, SortedChars(trans.Keys), next, rest, stack2)
  }

  lemma LookupGrown(pm: P.PtrMap<set<nat>>, S: set<nat>, pm2: P.PtrMap<set<nat>>)
    requires P.Wf(pm) && Grown(P.Lookup(pm, S).0, pm2)
    ensures P.Wf(pm2) && P.Extends(pm, pm2) && S in pm2.ids && pm2.ids[S] == P.Lookup(pm, S).1
    ensures P.Lookup(pm, S).0.count <= pm2.count
  {
    P.ExtendsTrans(pm, P.Lookup(pm, S).0, pm2);
  }

  lemma ShapeExplore(a: N.Arena, pm: P.PtrMap<set<nat>>, S: set<nat>, pm2: P.PtrMap<set<nat>>,
                     rest: seq<set<nat>>, stack2: seq<set<nat>>)
    requires Shape(a, pm, rest + [S]) && Grown(P.Lookup(pm, S).0, pm2)
    requires Stacked(a, rest, stack2) && Fresh(P.Lookup(pm, S).0, pm2, stack2)
    ensures Shape(a, pm2, stack2)
  {
    ShapeSkip(a, pm, rest, S);
    LookupGrown(pm, S, pm2);
    var pm1 := P.Lookup(pm, S).0;
    forall i | 0 <= i < |stack2| ensures stack2[i] <= a.states.Keys {
      if i < |rest| {
        assert stack2[i] == stack2[..|rest|][i] == rest[i];
      }
    }
    forall T | T in pm2.ids ensures T <= a.states.Keys {
      if T !in pm1.ids {
        assert T in stack2;
      }
    }
  }

  lemma AllocatedExplore(pm: P.PtrMap<set<nat>>, states: map<nat, D.DState>, S: set<nat>, s: D.DState, pm2: P.PtrMap<set<nat>>)
    requires P.Wf(pm) && Allocated(pm, states) && Grown(P.Lookup(pm, S).0, pm2)
    ensures Allocated(pm2, states[P.Lookup(pm, S).1 := s])
  {
    LookupGrown(pm, S, pm2);
    forall u | u in states ensures u < pm2.count && u in pm2.ids.Values {
      var T :| T in pm.ids && pm.ids[T] == u;
      assert pm2.ids[T] == u;
    }
  }

  lemma DoneExplore(pm: P.PtrMap<set<nat>>, states: map<nat, D.DState>, done: set<set<nat>>, S: set<nat>, s: D.DState, pm2: P.PtrMap<set<nat>>)
    requires P.Wf(pm) && Allocated(pm, states) && DoneExactly(pm, states, done) && Grown(P.Lookup(pm, S).0, pm2)
    requires P.Lookup(pm, S).1 !in states
    ensures S !in done
    ensures DoneExactly(pm2, states[P.Lookup(pm, S).1 := s], done + {S})
  {
    LookupGrown(pm, S, pm2);
    var pm1, id := P.Lookup(pm, S).0, P.Lookup(pm, S).1;
    forall T | T in pm2.ids ensures (pm2.ids[T] in states[id := s] <==> T in done + {S}) {
      if T != S {
        assert pm2.ids[T] != id;
        if T in pm.ids {
          assert pm2.ids[T] == pm.ids[T];
        } else {
          assert pm2.ids[T] >= pm.count;
          assert pm2.ids[T] !in states;
        }
      }
    }
  }

  lemma RecordedExplore(a: N.Arena, pm: P.PtrMap<set<nat>>, states: map<nat, D.DState>, S: set<nat>, trans: map<char, set<nat>>,
                        acc: bool, pm2: P.PtrMap<set<nat>>, next: map<char, nat>, rest: seq<set<nat>>, stack2: seq<set<nat>>)
    requires P.Wf(pm) && S <= a.states.Keys && Allocated(pm, states) && Recorded(a, pm, states)
    requires P.Lookup(pm, S).1 !in states && Explored(a, pm, S, trans, acc, pm2, next, rest, stack2)
    ensures Recorded(a, pm2, states[P.Lookup(pm, S).1 := D.DState(next, acc)])
  {
    var pm1, id := P.Lookup(pm, S).0, P.Lookup(pm, S).1;
    assert Grown(pm1, pm2) && Linked(trans, SortedChars(trans.Keys), next, pm2);
    LookupGrown(pm, S, pm2);
    var states2 := states[id := D.DState(next, acc)];
    forall T | T in pm2.ids && pm2.ids[T] in states2 ensures T <= a.states.Keys && NodeOk(a, pm2.ids, T, states2[pm2.ids[T]]) {
      if T == S {
        NodeNew(a, pm2, S, trans, acc, next);
      } else {
        assert pm2.ids[T] != id;
        if T in pm.ids {
          assert pm2.ids[T] == pm.ids[T];
          NodeOkExtends(a, pm, pm2, T, states[pm.ids[T]]);
        }
      }
    }
  }

  /** The state built for S is built right. */
  lemma NodeNew(a: N.Arena, pm2: P.PtrMap<set<nat>>, S: set<nat>, trans: map<char, set<nat>>, acc: bool, next: map<char, nat>)
    requires S <= a.states.Keys && Linked(trans, SortedChars(trans.Keys), next, pm2)
    requires trans.Keys == Labels(a, S) && (forall c | c in trans :: trans[c] == Step(a, S, c)) && (acc <==> AnyAccepting(a, S))
    ensures NodeOk(a, pm2.ids, S, D.DState(next, acc))
  {
    hide Linked, Step, Labels, AnyAccepting, SortedChars;
    LinkedKeys(trans, SortedChars(trans.Keys), next, pm2);
    forall c | c in next ensures Step(a, S, c) in pm2.ids && next[c] == pm2.ids[Step(a, S, c)] {
      LinkedAt(trans, next, pm2, c);
    }
  }

  lemma LinkedAt(trans: map<char, set<nat>>, next: map<char, nat>, pm2: P.PtrMap<set<nat>>, c: char)
    requires Linked(trans, SortedChars(trans.Keys), next, pm2) && c in next
    ensures c in trans && trans[c] in pm2.ids && next[c] == pm2.ids[trans[c]]
  {
  }

  lemma PendingExplore(pm: P.PtrMap<set<nat>>, states: map<nat, D.DState>, S: set<nat>, s: D.DState,
                       pm2: P.PtrMap<set<nat>>, rest: seq<set<nat>>, stack2: seq<set<nat>>)
    requires P.Wf(pm) && Pending(pm, states, rest + [S]) && Grown(P.Lookup(pm, S).0, pm2)
    requires Fresh(P.Lookup(pm, S).0, pm2, stack2) && |rest| <= |stack2| && stack2[..|rest|] == rest
    ensures Pending(pm2, states[P.Lookup(pm, S).1 := s], stack2)
  {
    LookupGrown(pm, S, pm2);
    var pm1, id := P.Lookup(pm, S).0, P.Lookup(pm, S).1;
    forall T | T in pm2.ids ensures pm2.ids[T] in states[id := s] || T in stack2 {
      if T != S && T in pm.ids {
        assert pm2.ids[T] == pm.ids[T];
        if pm.ids[T] !in states {
          assert T in rest + [S];
          assert T in rest;
          var i :| 0 <= i < |rest| && rest[i] == T;
          assert stack2[i] == stack2[..|rest|][i];
        }
      } else if T != S {
        assert T !in pm1.ids;
      }
    }
  }

  lemma RootExplore(root: nat, pm: P.PtrMap<set<nat>>, S: set<nat>, pm2: P.PtrMap<set<nat>>, rest: seq<set<nat>>, stack2: seq<set<nat>>)
    requires P.Wf(pm) && RootSeen(root, pm, rest + [S]) && Grown(P.Lookup(pm, S).0, pm2)
    requires |rest| <= |stack2| && stack2[..|rest|] == rest
    ensures RootSeen(root, pm2, stack2)
  {
    LookupGrown(pm, S, pm2);
    if {root} !in pm.ids && {root} != S {
      assert {root} in rest;
      var i :| 0 <= i < |rest| && rest[i] == {root};
      assert stack2[i] == stack2[..|rest|][i];
    }
  }

  /** A popped set whose state is not built yet: the state is built and its targets pushed. */
  lemma BuildingExplore(a: N.Arena, root: nat, pm: P.PtrMap<set<nat>>, states: map<nat, D.DState>, rest: seq<set<nat>>,
                        S: set<nat>, done: set<set<nat>>, trans: map<char, set<nat>>, acc: bool,
                        pm2: P.PtrMap<set<nat>>, next: map<char, nat>, stack2: seq<set<nat>>)
    requires Building(a, root, pm, states, rest + [S], done) && S <= a.states.Keys
    requires P.Wf(pm) && P.Lookup(pm, S).1 !in states && Explored(a, pm, S, trans, acc, pm2, next, rest, stack2)
    ensures S !in done && S in Subsets(a.states.Keys)
    ensures Building(a, root, pm2, states[P.Lookup(pm, S).1 := D.DState(next, acc)], stack2, done + {S})
  {
    hide Shape, Allocated, DoneExactly, Recorded, Pending, RootSeen, Grown, Linked, Stacked, Fresh;
    ExploredParts(a, pm, S, trans, acc, pm2, next, rest, stack2);
    ShapeExplore(a, pm, S, pm2, rest, stack2);
    AllocatedExplore(pm, states, S, D.DState(next, acc), pm2);
    DoneExplore(pm, states, done, S, D.DState(next, acc), pm2);
    RecordedExplore(a, pm, states, S, trans, acc, pm2, next, rest, stack2);
    StackedPrefix(a, rest, stack2);
    PendingExplore(pm, states, S, D.DState(next, acc), pm2, rest, stack2);
    RootExplore(root, pm, S, pm2, rest, stack2);
  }

  lemma ExploredIntro(a: N.Arena, pm: P.PtrMap<set<nat>>, S: set<nat>, trans: map<char, set<nat>>, acc: bool,
                      pm2: P.PtrMap<set<nat>>, next: map<char, nat>, rest: seq<set<nat>>, stack2: seq<set<nat>>)
    requires P.Wf(pm) && S <= a.states.Keys
    requires trans.Keys == Labels(a, S) && (forall c | c in trans :: trans[c] == Step(a, S, c)) && (acc <==> AnyAccepting(a, S))
    requires next.Keys == trans.Keys && Pushed(a, P.Lookup(pm, S).0, pm2, trans, SortedChars(trans.Keys), next, rest, stack2)
    ensures Explored(a, pm, S, trans, acc, pm2, next, rest, stack2)
  {
  }

  lemma ExploredParts(a: N.Arena, pm: P.PtrMap<set<nat>>, S: set<nat>, trans: map<char, set<nat>>, acc: bool,
                      pm2: P.PtrMap<set<nat>>, next: map<char, nat>, rest: seq<set<nat>>, stack2: seq<set<nat>>)
    requires P.Wf(pm) && S <= a.states.Keys && Explored(a, pm, S, trans, acc, pm2, next, rest, stack2)
    ensures Grown(P.Lookup(pm, S).0, pm2) && Stacked(a, rest, stack2) && Fresh(P.Lookup(pm, S).0, pm2, stack2)
  {
  }

  lemma StackedPrefix(a: N.Arena, rest: seq<set<nat>>, stack2: seq<set<nat>>)
    requires Stacked(a, rest, stack2)
    ensures |rest| <= |stack2| && stack2[..|rest|] == rest
  {
  }

  /** With the stack empty, every recorded set has its state built. */
  lemma BuildingDone(a: N.Arena, root: nat, pm: P.PtrMap<set<nat>>, states: map<nat, D.DState>, done: set<set<nat>>)
    requires N.Valid(a) && Building(a, root, pm, states, [], done)
    ensures {root} in pm.ids && P.Lookup(pm, {root}) == (pm, pm.ids[{root}])
    ensures states.Keys == pm.ids.Values
    ensures forall S, T | S in pm.ids && T in pm.ids && S != T :: pm.ids[S] != pm.ids[T]
    ensures forall S | S in pm.ids :: S <= a.states.Keys && NodeOk(a, pm.ids, S, states[pm.ids[S]])
    ensures D.Valid(D.Dfa(states, pm.ids[{root}]))
  {
    var d := D.Dfa(states, pm.ids[{root}]);
    forall u, c | u in states && c in states[u].next ensures states[u].next[c] in states {
      var S :| S in pm.ids && pm.ids[S] == u;
    }
  }

  /** `toDFA` (src/NFA.cpp:402-438). Besides the DFA it returns the memo's final map from sets of
      NFA states to DFA states: the start state is the state of the root's singleton, every
      recorded set is made of NFA states, distinct sets have distinct DFA states, every DFA state
      is the state of some set, and each set's state is built as `NodeOk` describes. */
  method ToDfa(a: N.Arena, root: nat) returns (d: D.Dfa, ids: map<set<nat>, nat>)
    requires N.Valid(a) && root in a.states
    ensures {root} in ids && d.start == ids[{root}]
    ensures D.Valid(d)
    ensures d.states.Keys == ids.Values
    ensures forall S, T | S in ids && T in ids && S != T :: ids[S] != ids[T]
    ensures forall S | S in ids :: S <= a.states.Keys && NodeOk(a, ids, S, d.states[ids[S]])
    ensures forall w :: D.Accepts(d, d.start, w) <==> NAccepts(a, {root}, w)
  {
    hide Building, Explored, Pushed, Subsets;
    var pm: P.PtrMap<set<nat>> := P.Empty();
    var stack := [{root}];
    var states: map<nat, D.DState> := map[];
    ghost var done: set<set<nat>> := {};
    BuildingStart(a, root);
    while stack != []
      invariant Building(a, root, pm, states, stack, done)
      decreases Subsets(a.states.Keys) - done, |stack|
    {
      var S := stack[|stack| - 1];
      var rest := stack[..|stack| - 1];
      assert stack == rest + [S];
      stack := rest;
      BuildingFacts(a, root, pm, states, rest, S, done);
      var r := P.Lookup(pm, S);
      if r.1 in states {
        BuildingSkip(a, root, pm, states, rest, S, done);
        pm := r.0;
      } else {
        var trans, acc := Gather(a, S);
        StepsWithin(a, S, trans);
        var pm2, next, stack2 := Expand(a, r.0, trans, rest);
        ExploredIntro(a, pm, S, trans, acc, pm2, next, rest, stack2);
        BuildingExplore(a, root, pm, states, rest, S, done, trans, acc, pm2, next, stack2);
        done := done + {S};
        pm, stack := pm2, stack2;
        states := states[r.1 := D.DState(next, acc)];
      }
    }
    BuildingDone(a, root, pm, states, done);
    var r := P.Lookup(pm, {root});
    d := D.Dfa(states, r.1);
    ids := pm.ids;
    forall w ensures D.Accepts(d, d.start, w) <==> NAccepts(a, {root}, w) {
      SubsetAccepts(a, d, ids, {root}, w);
    }
  }

  lemma BuildingFacts(a: N.Arena, root: nat, pm: P.PtrMap<set<nat>>, states: map<nat, D.DState>, rest: seq<set<nat>>, S: set<nat>, done: set<set<nat>>)
    requires Building(a, root, pm, states, rest + [S], done)
    ensures P.Wf(pm) && S <= a.states.Keys
  {
    ShapeSkip(a, pm, rest, S);
  }

  lemma StepsWithin(a: N.Arena, S: set<nat>, trans: map<char, set<nat>>)
    requires N.Valid(a) && S <= a.states.Keys && forall c | c in trans :: trans[c] == Step(a, S, c)
    ensures forall c | c in trans :: trans[c] <= a.states.Keys
  {
    forall c | c in trans ensures trans[c] <= a.states.Keys {
      StepWithin(a, S, c);
    }
  }

  /** The NFA states reached from the states S by reading w, every character a label. */
  function Steps(a: N.Arena, S: set<nat>, w: string): (r: set<nat>)
    requires N.Valid(a) && S <= a.states.Keys
    ensures r <= a.states.Keys
    decreases |w|
  {
    if w == [] then S
    else
      StepWithin(a, S, w[0]);
      Steps(a, Step(a, S, w[0]), w[1..])
  }

  /** The NFA accepts w from S when some state reached by w accepts. */
  predicate NAccepts(a: N.Arena, S: set<nat>, w: string)
    requires N.Valid(a) && S <= a.states.Keys
  {
    AnyAccepting(a, Steps(a, S, w))
  }

  /** A label no member has leads nowhere. */
  lemma StepNoLabel(a: N.Arena, S: set<nat>, c: char)
    requires S <= a.states.Keys && c !in Labels(a, S)
    ensures Step(a, S, c) == {}
  {
  }

  lemma {:induction false} StepsEmpty(a: N.Arena, w: string)
    requires N.Valid(a)
    ensures Steps(a, {}, w) == {}
    decreases |w|
  {
    if w != [] {
      assert Step(a, {}, w[0]) == {};
      StepsEmpty(a, w[1..]);
    }
  }

  /** The DFA state of a set accepts exactly the words the NFA accepts from the set: the subset
      construction preserves the language. */
  lemma {:induction false} SubsetAccepts(a: N.Arena, d: D.Dfa, ids: map<set<nat>, nat>, S: set<nat>, w: string)
    requires N.Valid(a) && D.Valid(d) && ids.Values <= d.states.Keys
    requires forall T | T in ids :: T <= a.states.Keys && NodeOk(a, ids, T, d.states[ids[T]])
    requires S in ids
    ensures D.Accepts(d, ids[S], w) <==> NAccepts(a, S, w)
    decreases |w|
  {
    var q := ids[S];
    assert q in ids.Values;
    if w != [] {
      var c := w[0];
      if c in d.states[q].next {
        assert d.states[q].next[c] == ids[Step(a, S, c)];
        SubsetAccepts(a, d, ids, Step(a, S, c), w[1..]);
      } else {
        StepNoLabel(a, S, c);
        StepsEmpty(a, w[1..]);
      }
    }
  }
}
