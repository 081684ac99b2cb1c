/** `NFA::regexToAutomaton` (src/NFA.cpp:346-400): a stack compiler from regular expressions to
    automata with epsilon transitions. The expression gets a closing bracket appended, and the
    stack holds pending left operands, each tagged as the left side of a concatenation (an open
    bracket, or the bottom) or of a choice. The automaton under construction is the fragment for
    the text since the last open bracket or `+`. */
module Construction {
  import opened Wrappers
  import opened Regexes
  import opened Nfas

  /** `NFA::CONCATENATION` and `NFA::ADDITION`. */
  datatype Op = Concatenation | Addition

  /** A pending left operand. */
  datatype Frame = Frame(root: nat, op: Op)

  /** `regex[k]`; a `std::string` reads '\0' at its own length. */
  function At(s: string, k: nat): (c: char)
    ensures k < |s| ==> c == s[k]
    ensures k >= |s| ==> c == '\0'
  {
    if k < |s| then s[k] else '\0'
  }

  /** The number of concatenation frames: one for the bottom and one per open bracket. */
  function Opens(stack: seq<Frame>): nat {
    if stack == [] then 0
    else Opens(stack[..|stack| - 1]) + (if stack[|stack| - 1].op == Concatenation then 1 else 0)
  }

  /** The bottom frame is a concatenation and a choice frame always sits on a concatenation
      frame. */
  predicate Shaped(stack: seq<Frame>) {
    |stack| > 0 && stack[0].op == Concatenation &&
    forall k | 0 < k < |stack| && stack[k].op == Addition :: stack[k - 1].op == Concatenation
  }

  function Roots(stack: seq<Frame>): (r: seq<nat>)
    ensures |r| == |stack| && forall k | 0 <= k < |stack| :: r[k] == stack[k].root
  {
    seq(|stack|, k requires 0 <= k < |stack| => stack[k].root)
  }

  /** A stack that starts with a concatenation frame holds at least one. */
  lemma {:induction false} OpensPositive(stack: seq<Frame>)
    requires |stack| > 0 && stack[0].op == Concatenation
    ensures Opens(stack) >= 1
    decreases |stack|
  {
    if |stack| > 1 {
      var init := stack[..|stack| - 1];
      assert init[0] == stack[0];
      OpensPositive(init);
    }
  }

  /** Popping the top frame of a well-shaped stack. */
  lemma PopShaped(stack: seq<Frame>)
    requires Shaped(stack) && |stack| > 1
    ensures Shaped(stack[..|stack| - 1])
    ensures Opens(stack[..|stack| - 1]) + (if stack[|stack| - 1].op == Concatenation then 1 else 0) == Opens(stack)
  {
  }

  /** The states owned by token t. */
  ghost function Owned(owner: map<nat, nat>, t: nat): set<nat> {
    set v | v in owner && owner[v] == t
  }

  /** Every state has an owner token below `next`, and transitions never cross owners. */
  ghost predicate Owners(a: Arena, owner: map<nat, nat>, next: nat) {
    Valid(a) && a.states.Keys <= owner.Keys &&
    (forall u | u in owner :: owner[u] < next) &&
    forall u, c {:trigger a.states[u].trans[c]} | u in a.states && c in a.states[u].trans ::
      a.states[u].trans[c] <= Owned(owner, owner[u])
  }

  /** The roots exist and have pairwise distinct owners. */
  ghost predicate Separate(a: Arena, owner: map<nat, nat>, roots: seq<nat>) {
    (forall k | 0 <= k < |roots| :: roots[k] in a.states && roots[k] in owner) &&
    forall j, k | 0 <= j < k < |roots| :: owner[roots[j]] != owner[roots[k]]
  }

  /** The fragments of the pending operands are disjoint, so surgery on one never touches
      another. */
  ghost predicate Fragments(a: Arena, owner: map<nat, nat>, next: nat, roots: seq<nat>) {
    Owners(a, owner, next) && Separate(a, owner, roots)
  }

  /** Separation passes to the roots below position n, which are all separate from the roots
      at n and at the top. */
  lemma SeparateInit(a: Arena, owner: map<nat, nat>, roots: seq<nat>, n: nat)
    requires Separate(a, owner, roots) && n < |roots|
    ensures Separate(a, owner, roots[..n])
    ensures roots[n] in owner && roots[|roots| - 1] in owner
    ensures forall k | 0 <= k < n :: owner[roots[k]] != owner[roots[n]] && owner[roots[k]] != owner[roots[|roots| - 1]]
  {
  }

  lemma OwnedClosed(a: Arena, owner: map<nat, nat>, next: nat, t: nat)
    requires Owners(a, owner, next)
    ensures ClosedUnder(a, Owned(owner, t))
  {
  }

  /** A state outside fragment t has no transition into it. */
  lemma AvoidsOther(a: Arena, owner: map<nat, nat>, next: nat, u: nat, t: nat, X: set<nat>)
    requires Owners(a, owner, next)
    requires u in a.states && owner[u] != t && X <= Owned(owner, t)
    ensures Avoids(a.states[u], X)
  {
    forall c | c in a.states[u].trans ensures a.states[u].trans[c] !! X {
      assert a.states[u].trans[c] <= Owned(owner, owner[u]);
    }
  }

  /** The owners after the states N join as a new fragment t. */
  ghost function Fresh(owner: map<nat, nat>, N: set<nat>, t: nat): map<nat, nat> {
    map v | v in owner.Keys + N :: if v in N then t else owner[v]
  }

  /** The owners after fragment b joins fragment a. */
  ghost function Merge(owner: map<nat, nat>, b: nat, a: nat): map<nat, nat> {
    map v | v in owner :: if owner[v] == b then a else owner[v]
  }

  lemma MergeSelf(owner: map<nat, nat>, t: nat)
    ensures Merge(owner, t, t) == owner
  {
  }

  /** A new fragment: the old states are unchanged and the new ones point only at each
      other. */
  predicate Extends(a: Arena, a': Arena) {
    Valid(a') &&
    (forall u | u in a.states :: u in a'.states && a'.states[u] == a.states[u]) &&
    forall u, c {:trigger a'.states[u].trans[c]} | u in a'.states && u !in a.states && c in a'.states[u].trans ::
      a'.states[u].trans[c] !! a.states.Keys
  }

  lemma FreshOwners(a: Arena, a': Arena, owner: map<nat, nat>, next: nat)
    requires Owners(a, owner, next) && Extends(a, a')
    ensures Owners(a', Fresh(owner, a'.states.Keys - a.states.Keys, next), next + 1)
  {
    var N := a'.states.Keys - a.states.Keys;
    var o := Fresh(owner, N, next);
    forall u, c | u in a'.states && c in a'.states[u].trans ensures a'.states[u].trans[c] <= Owned(o, o[u]) {
      if u in a.states {
        assert a'.states[u].trans[c] == a.states[u].trans[c] <= Owned(owner, owner[u]);
      }
    }
  }

  lemma FreshSeparate(a: Arena, a': Arena, owner: map<nat, nat>, next: nat, roots: seq<nat>, root: nat)
    requires Owners(a, owner, next) && Separate(a, owner, roots) && Extends(a, a')
    requires root in a'.states && root !in a.states
    ensures Separate(a', Fresh(owner, a'.states.Keys - a.states.Keys, next), roots + [root])
  {
    var o := Fresh(owner, a'.states.Keys - a.states.Keys, next);
    var roots' := roots + [root];
    forall j, k | 0 <= j < k < |roots'| ensures o[roots'[j]] != o[roots'[k]] {
      assert o[roots[j]] == owner[roots[j]];
      if k < |roots| {
        assert o[roots[k]] == owner[roots[k]];
      }
    }
  }

  /** A new state is a new fragment. */
  lemma NewStateStep(a: Arena, owner: map<nat, nat>, next: nat, roots: seq<nat>, acc: bool)
    returns (owner': map<nat, nat>, next': nat)
    requires Fragments(a, owner, next, roots)
    ensures Fragments(NewState(a, acc).0, owner', next', roots + [NewState(a, acc).1])
  {
    var r := NewState(a, acc);
    FreshOwners(a, r.0, owner, next);
    FreshSeparate(a, r.0, owner, next, roots, r.1);
    owner', next' := Fresh(owner, r.0.states.Keys - a.states.Keys, next), next + 1;
  }

  /** So is the automaton of one character. */
  lemma CharStep(a: Arena, owner: map<nat, nat>, next: nat, roots: seq<nat>, c: char)
    returns (owner': map<nat, nat>, next': nat)
    requires Fragments(a, owner, next, roots)
    ensures Fragments(CharNfa(a, c).0, owner', next', roots + [CharNfa(a, c).1])
  {
    var r := CharNfa(a, c);
    FreshOwners(a, r.0, owner, next);
    FreshSeparate(a, r.0, owner, next, roots, r.1);
    owner', next' := Fresh(owner, r.0.states.Keys - a.states.Keys, next), next + 1;
  }

  /** A rewrite confined to fragment A, whose only new target is tree, merges tree's fragment
      into A and keeps every other fragment. */
  lemma RewriteOwners(a: Arena, b: Arena, owner: map<nat, nat>, next: nat, S: set<nat>, L: set<nat>, tree: nat, A: nat)
    requires Owners(a, owner, next) && Valid(b) && Rewrites(a, b, S, L, tree)
    requires tree in a.states && L <= S <= Owned(owner, A) && A < next
    ensures Owners(b, Merge(owner, owner[tree], A), next)
  {
    var B := owner[tree];
    var o := Merge(owner, B, A);
    forall u, c | u in b.states && c in b.states[u].trans ensures b.states[u].trans[c] <= Owned(o, o[u]) {
      var X := if c in a.states[u].trans then a.states[u].trans[c] else {};
      assert X <= Owned(owner, owner[u]);
      if owner[u] != A && owner[u] != B {
        assert u !in S;
        AvoidsOther(a, owner, next, u, A, L);
        assert b.states[u] == a.states[u];
      } else {
        assert b.states[u].trans[c] <= X + {tree};
      }
    }
  }

  /** The roots outside fragments A and B survive such a rewrite, and so does the new root. */
  lemma RewriteSeparate(a: Arena, b: Arena, owner: map<nat, nat>, next: nat, S: set<nat>, L: set<nat>, tree: nat,
                        A: nat, roots: seq<nat>, root: nat)
    requires Owners(a, owner, next) && Separate(a, owner, roots) && Rewrites(a, b, S, L, tree)
    requires tree in a.states && L <= S <= Owned(owner, A)
    requires forall k | 0 <= k < |roots| :: owner[roots[k]] != A && owner[roots[k]] != owner[tree]
    requires root in b.states && (root in a.states && owner[root] in {A, owner[tree]})
    ensures Separate(b, Merge(owner, owner[tree], A), roots + [root])
  {
    var o := Merge(owner, owner[tree], A);
    var roots' := roots + [root];
    forall k | 0 <= k < |roots'| ensures roots'[k] in b.states && roots'[k] in o {
      if k < |roots| {
        assert roots[k] !in S;
      }
    }
    forall j, k | 0 <= j < k < |roots'| ensures o[roots'[j]] != o[roots'[k]] {
      assert o[roots[j]] == owner[roots[j]];
      if k < |roots| {
        assert o[roots[k]] == owner[roots[k]];
      }
    }
  }

  /** Concatenating the last two roots: the right fragment joins the left one, and no other
      fragment is touched. */
  lemma ConcatStep(a: Arena, owner: map<nat, nat>, next: nat, roots: seq<nat>) returns (owner': map<nat, nat>)
    requires Fragments(a, owner, next, roots) && |roots| >= 2
    ensures roots[|roots| - 2] != roots[|roots| - 1]
    ensures Fragments(Concatenate(a, roots[|roots| - 2], roots[|roots| - 1]).0, owner', next,
                      roots[..|roots| - 2] + [Concatenate(a, roots[|roots| - 2], roots[|roots| - 1]).1])
  {
    var x, tree := roots[|roots| - 2], roots[|roots| - 1];
    var A := owner[x];
    assert A != owner[tree];
    OwnedClosed(a, owner, next, A);
    TraversedWithin(a, x, tree, Owned(owner, A));
    var S := Traversed(a, x, tree);
    var r := Concatenate(a, x, tree);
    var rest := roots[..|roots| - 2];
    SeparateInit(a, owner, roots, |roots| - 2);
    assert A < next;
    hide Concatenate, Traversed, Owners, Separate;
    RewriteOwners(a, r.0, owner, next, S, Leaves(a, S), tree, A);
    RewriteSeparate(a, r.0, owner, next, S, Leaves(a, S), tree, A, rest, r.1);
    owner' := Merge(owner, owner[tree], A);
  }

  /** Choice between the last two roots: the new state and the right fragment join the left
      fragment. */
  lemma AddStep(a: Arena, owner: map<nat, nat>, next: nat, roots: seq<nat>) returns (owner': map<nat, nat>)
    requires Fragments(a, owner, next, roots) && |roots| >= 2
    ensures Fragments(Add(a, roots[|roots| - 2], roots[|roots| - 1]).0, owner', next,
                      roots[..|roots| - 2] + [Add(a, roots[|roots| - 2], roots[|roots| - 1]).1])
  {
    var x, y := roots[|roots| - 2], roots[|roots| - 1];
    var A, B := owner[x], owner[y];
    var r := Add(a, x, y);
    owner' := Merge(owner, B, A)[r.1 := A];
    forall u, c | u in r.0.states && c in r.0.states[u].trans ensures r.0.states[u].trans[c] <= Owned(owner', owner'[u]) {
      if u != r.1 {
        assert r.0.states[u].trans[c] == a.states[u].trans[c] <= Owned(owner, owner[u]);
      }
    }
    var roots' := roots[..|roots| - 2] + [r.1];
    forall j, k | 0 <= j < k < |roots'| ensures owner'[roots'[j]] != owner'[roots'[k]] {
      assert owner[roots[j]] != A && owner[roots[j]] != B;
      if k < |roots| - 2 {
        assert owner[roots[k]] != A && owner[roots[k]] != B;
      }
    }
  }

  /** Iterating the last root keeps every fragment. */
  lemma CycleStep(a: Arena, owner: map<nat, nat>, next: nat, roots: seq<nat>)
    requires Fragments(a, owner, next, roots) && |roots| >= 1
    ensures Cycle(a, roots[|roots| - 1]).1 == roots[|roots| - 1]
    ensures Fragments(Cycle(a, roots[|roots| - 1]).0, owner, next, roots)
  {
    hide *;
    FragmentsParts(a, owner, next, roots);
    var x := roots[|roots| - 1];
    var rest := roots[..|roots| - 1];
    SeparateInit(a, owner, roots, |roots| - 1);
    OwnersToken(a, owner, next, x);
    var A := owner[x];
    OwnedClosed(a, owner, next, A);
    TraversedWithin(a, x, x, Owned(owner, A));
    var S := Traversed(a, x, x);
    var r := Cycle(a, x);
    LeavesWithin(a, S);
    RewriteOwners(a, r.0, owner, next, S, Leaves(a, S) - {x}, x, A);
    RewriteSeparate(a, r.0, owner, next, S, Leaves(a, S) - {x}, x, A, rest, x);
    MergeSelf(owner, A);
    InitLast(roots);
    FragmentsIntro(r.0, owner, next, roots);
  }

  lemma FragmentsParts(a: Arena, owner: map<nat, nat>, next: nat, roots: seq<nat>)
    requires Fragments(a, owner, next, roots)
    ensures Owners(a, owner, next) && Separate(a, owner, roots)
  {
  }

  lemma FragmentsIntro(a: Arena, owner: map<nat, nat>, next: nat, roots: seq<nat>)
    requires Owners(a, owner, next) && Separate(a, owner, roots)
    ensures Fragments(a, owner, next, roots)
  {
  }

  lemma OwnersToken(a: Arena, owner: map<nat, nat>, next: nat, x: nat)
    requires Owners(a, owner, next) && x in a.states
    ensures Valid(a) && x in owner && owner[x] < next && x in Owned(owner, owner[x])
  {
  }

  lemma InitLast(s: seq<nat>)
    requires |s| > 0
    ensures s[..|s| - 1] + [s[|s| - 1]] == s
  {
  }

  /** The last root is a state of a well-formed arena. */
  lemma FragmentsRoot(a: Arena, owner: map<nat, nat>, next: nat, roots: seq<nat>)
    requires Fragments(a, owner, next, roots) && |roots| > 0
    ensures Valid(a) && roots[|roots| - 1] in a.states
  {
  }

  /** A character that is not a bracket leaves the depth unchanged. */
  lemma PlainStep(regex: string, s: string, i: nat)
    requires s == regex + ")" && i < |s| && At(s, i) != '(' && At(s, i) != ')'
    ensures i < |regex| && s[i] == regex[i] && Depth(regex[..i + 1]) == Depth(regex[..i])
  {
    DepthSnoc(regex, i);
  }

  lemma ShapedNonEmpty(stack: seq<Frame>)
    requires Shaped(stack)
    ensures |stack| > 0
  {
  }

  lemma OpensNil()
    ensures Opens([]) == 0
  {
  }

  lemma RootsSnoc(stack: seq<Frame>, f: Frame)
    ensures Roots(stack + [f]) == Roots(stack) + [f.root]
  {
  }

  /** Pushing a frame that keeps the stack well shaped. */
  lemma PushFrame(stack: seq<Frame>, f: Frame)
    requires Shaped(stack) && (f.op == Addition ==> stack[|stack| - 1].op == Concatenation)
    ensures Shaped(stack + [f])
    ensures Opens(stack + [f]) == Opens(stack) + (if f.op == Concatenation then 1 else 0)
    ensures Roots(stack + [f]) == Roots(stack) + [f.root]
  {
    RootsSnoc(stack, f);
    assert (stack + [f])[..|stack|] == stack;
  }

  /** Popping the top frame. */
  lemma PopFrame(stack: seq<Frame>)
    requires Shaped(stack)
    ensures Roots(stack) == Roots(stack[..|stack| - 1]) + [stack[|stack| - 1].root]
    ensures Opens(stack[..|stack| - 1]) + (if stack[|stack| - 1].op == Concatenation then 1 else 0) == Opens(stack)
    ensures |stack| > 1 ==> Shaped(stack[..|stack| - 1])
    ensures |stack| > 1 ==> Opens(stack[..|stack| - 1]) >= 1
    ensures stack[|stack| - 1].op == Addition ==> |stack| > 1 && stack[|stack| - 2].op == Concatenation
  {
    var init, top := stack[..|stack| - 1], stack[|stack| - 1];
    assert stack == init + [top];
    RootsSnoc(init, top);
    if |stack| > 1 {
      PopShaped(stack);
      OpensPositive(init);
    }
  }

  /** Dropping the last two roots. */
  lemma DropTwo(s: seq<nat>, x: nat, y: nat)
    ensures (s + [x] + [y])[..|s + [x] + [y]| - 2] == s
  {
  }

  /** The bracket counts of a valid expression. */
  lemma BalancedFacts(regex: string, k: nat)
    requires ValidRegex(regex) && k <= |regex|
    ensures Depth(regex[..k]) >= 0
    ensures k == |regex| ==> Depth(regex[..k]) == 0
  {
    assert regex[..|regex|] == regex;
  }

  lemma NoFragments()
    ensures Fragments(Arena(map[], 0), map[], 0, [])
  {
  }

  /** The stack holding only the bottom frame. */
  lemma BottomFrame(root: nat)
    ensures Shaped([Frame(root, Concatenation)]) && Opens([Frame(root, Concatenation)]) == 1
    ensures Roots([Frame(root, Concatenation)]) == [root]
  {
    assert [Frame(root, Concatenation)][..0] == [];
  }

  lemma DepthNil(regex: string)
    ensures Depth(regex[..0]) == 0
  {
    assert regex[..0] == [];
  }

  /** The steps of the construction, stated for a stack of roots `R` below the operands. */
  lemma NewOnTop(a: Arena, owner: map<nat, nat>, next: nat, R: seq<nat>, acc: bool)
    returns (owner': map<nat, nat>, next': nat)
    requires Fragments(a, owner, next, R)
    ensures Valid(a) && Fragments(NewState(a, acc).0, owner', next', R + [NewState(a, acc).1])
  {
    FragmentsParts(a, owner, next, R);
    owner', next' := NewStateStep(a, owner, next, R, acc);
  }

  lemma CharOnTop(a: Arena, owner: map<nat, nat>, next: nat, R: seq<nat>, x: nat, c: char)
    returns (owner': map<nat, nat>, next': nat)
    requires Fragments(a, owner, next, R + [x])
    ensures Valid(a) && Fragments(CharNfa(a, c).0, owner', next', R + [x] + [CharNfa(a, c).1])
  {
    FragmentsParts(a, owner, next, R + [x]);
    owner', next' := CharStep(a, owner, next, R + [x], c);
  }

  lemma ConcatOnTop(a: Arena, owner: map<nat, nat>, next: nat, R: seq<nat>, x: nat, y: nat)
    returns (owner': map<nat, nat>)
    requires Fragments(a, owner, next, R + [x] + [y])
    ensures Valid(a) && x in a.states && y in a.states && x != y
    ensures Fragments(Concatenate(a, x, y).0, owner', next, R + [Concatenate(a, x, y).1])
  {
    var roots := R + [x] + [y];
    FragmentsRoot(a, owner, next, roots);
    SeparateInit(a, owner, roots, |roots| - 2);
    DropTwo(R, x, y);
    owner' := ConcatStep(a, owner, next, roots);
  }

  lemma AddOnTop(a: Arena, owner: map<nat, nat>, next: nat, R: seq<nat>, x: nat, y: nat)
    returns (owner': map<nat, nat>)
    requires Fragments(a, owner, next, R + [x] + [y])
    ensures Valid(a) && x in a.states && y in a.states
    ensures Fragments(Add(a, x, y).0, owner', next, R + [Add(a, x, y).1])
  {
    var roots := R + [x] + [y];
    FragmentsRoot(a, owner, next, roots);
    SeparateInit(a, owner, roots, |roots| - 2);
    DropTwo(R, x, y);
    owner' := AddStep(a, owner, next, roots);
  }

  lemma CycleOnTop(a: Arena, owner: map<nat, nat>, next: nat, R: seq<nat>, x: nat)
    requires Fragments(a, owner, next, R + [x])
    ensures Valid(a) && x in a.states && Cycle(a, x).1 == x
    ensures Fragments(Cycle(a, x).0, owner, next, R + [x])
  {
    FragmentsRoot(a, owner, next, R + [x]);
    CycleStep(a, owner, next, R + [x]);
  }

  /** Concatenating the automaton of one character onto the top automaton. */
  method AppendLetter(a: Arena, ghost owner: map<nat, nat>, ghost next: nat, ghost R: seq<nat>, automaton: nat, c: char)
    returns (a': Arena, ghost owner': map<nat, nat>, ghost next': nat, automaton': nat)
    requires Fragments(a, owner, next, R + [automaton])
    ensures Fragments(a', owner', next', R + [automaton'])
  {
    hide *;
    owner', next' := CharOnTop(a, owner, next, R, automaton, c);
    var q := CharNfa(a, c);
    owner' := ConcatOnTop(q.0, owner', next', R, automaton, q.1);
    var r := Concatenate(q.0, automaton, q.1);
    a', automaton' := r.0, r.1;
  }

  /** Position k holds a character that is neither a bracket nor `+` and is not starred. */
  predicate Plain(s: string, k: nat) {
    At(s, k) != '(' && At(s, k) != ')' && At(s, k) != '+' && At(s, k + 1) != '*'
  }

  lemma PlainAt(s: string, k: nat)
    requires At(s, k) != '(' && At(s, k) != ')' && At(s, k) != '+' && At(s, k + 1) != '*'
    ensures Plain(s, k)
  {
  }

  /** Concatenating the iterated automaton of one character onto the top automaton. */
  method AppendStarredLetter(a: Arena, ghost owner: map<nat, nat>, ghost next: nat, ghost R: seq<nat>, automaton: nat, c: char)
    returns (a': Arena, ghost owner': map<nat, nat>, ghost next': nat, automaton': nat)
    requires Fragments(a, owner, next, R + [automaton])
    ensures Fragments(a', owner', next', R + [automaton'])
  {
    hide *;
    owner', next' := CharOnTop(a, owner, next, R, automaton, c);
    var q := CharNfa(a, c);
    a' := q.0;
    CycleOnTop(a', owner', next', R + [automaton], q.1);
    var cy := Cycle(a', q.1);
    a' := cy.0;
    owner' := ConcatOnTop(a', owner', next', R, automaton, q.1);
    q := Concatenate(a', automaton, q.1);
    a', automaton' := q.0, q.1;
  }

  /** The run of plain characters before the next bracket, `+` or starred character: each is
      concatenated onto the current automaton. */
  method ReadLetters(regex: string, s: string, a: Arena, ghost owner: map<nat, nat>, ghost next: nat,
                     stack: seq<Frame>, automaton: nat, i: nat)
    returns (a': Arena, ghost owner': map<nat, nat>, ghost next': nat, automaton': nat, i': nat)
    requires s == regex + ")" && i < |s| && Opens(stack) == 1 + Depth(regex[..i])
    requires Fragments(a, owner, next, Roots(stack) + [automaton])
    ensures i <= i' < |s| && Opens(stack) == 1 + Depth(regex[..i'])
    ensures Fragments(a', owner', next', Roots(stack) + [automaton'])
    ensures At(s, i') == '(' || At(s, i') == ')' || At(s, i') == '+' || At(s, i' + 1) == '*'
    ensures forall k | i <= k < i' :: Plain(s, k)
  {
    hide *;
    a', owner', next', automaton', i' := a, owner, next, automaton, i;
    while At(s, i') != '(' && At(s, i') != ')' && At(s, i') != '+' && At(s, i' + 1) != '*'
      invariant i <= i' < |s| && Opens(stack) == 1 + Depth(regex[..i'])
      invariant Fragments(a', owner', next', Roots(stack) + [automaton'])
      invariant forall k | i <= k < i' :: Plain(s, k)
      decreases |s| - i'
    {
      PlainAt(s, i');
      PlainStep(regex, s, i');
      a', owner', next', automaton' := AppendLetter(a', owner', next', Roots(stack), automaton', s[i']);
      i' := i' + 1;
    }
  }

  /** A character followed by stars: its automaton is iterated, concatenated onto the current
      one, and the stars are skipped. */
  method StarredLetter(regex: string, s: string, a: Arena, ghost owner: map<nat, nat>, ghost next: nat,
                       stack: seq<Frame>, automaton: nat, i: nat)
    returns (a': Arena, ghost owner': map<nat, nat>, ghost next': nat, automaton': nat, i': nat)
    requires ValidRegex(regex) && s == regex + ")" && i < |s| && Opens(stack) == 1 + Depth(regex[..i])
    requires Fragments(a, owner, next, Roots(stack) + [automaton])
    requires s[i] != ')' && At(s, i + 1) == '*'
    ensures i < i' < |s| && Opens(stack) == 1 + Depth(regex[..i'])
    ensures Fragments(a', owner', next', Roots(stack) + [automaton'])
    ensures s[i'] != '*' && forall k | i < k < i' :: s[k] == '*'
  {
    assert i + 1 < |s| && s[i + 1] == '*';
    assert i + 1 < |regex| && regex[i + 1] == '*' && regex[i] == s[i];
    hide *;
    ValidNeighbours(regex, i);
    DepthSnoc(regex, i);
    a', owner', next', automaton' := AppendStarredLetter(a, owner, next, Roots(stack), automaton, s[i]);
    var last := SkipStars(regex, s, i, Depth(regex[..i + 1]));
    i' := last + 1;
  }

  /** Skipping the stars after position i. */
  method SkipStars(regex: string, s: string, i: nat, ghost d: int) returns (i': nat)
    requires s == regex + ")" && i < |regex| && s[i + 1] == '*' && d == Depth(regex[..i + 1])
    ensures i < i' < |regex| && s[i' + 1] != '*' && d == Depth(regex[..i' + 1])
    ensures forall k | i < k <= i' :: s[k] == '*'
  {
    hide *;
    DepthSnoc(regex, i + 1);
    i' := i + 1;
    while s[i' + 1] == '*'
      invariant i < i' < |regex| && d == Depth(regex[..i' + 1])
      invariant forall k | i < k <= i' :: s[k] == '*'
      decreases |s| - i'
    {
      DepthSnoc(regex, i' + 1);
      i' := i' + 1;
    }
  }

  /** A closing bracket: a pending choice is completed, the group is iterated when stars
      follow, and the group is concatenated onto the automaton below it. The appended bracket
      empties the stack. */
  method CloseBracket(regex: string, s: string, a: Arena, ghost owner: map<nat, nat>, ghost next: nat,
                      stack: seq<Frame>, automaton: nat, i: nat)
    returns (a': Arena, ghost owner': map<nat, nat>, ghost next': nat, stack': seq<Frame>, automaton': nat, i': nat)
    requires ValidRegex(regex) && s == regex + ")" && i < |s| && s[i] == ')'
    requires Shaped(stack) && Opens(stack) == 1 + Depth(regex[..i])
    requires Fragments(a, owner, next, Roots(stack) + [automaton])
    ensures i < i' <= |s| && (stack' != [] ==> i' < |s| && Shaped(stack') && Opens(stack') == 1 + Depth(regex[..i']))
    ensures Fragments(a', owner', next', Roots(stack') + [automaton'])
    ensures stack' == if stack[|stack| - 1].op == Addition then stack[..|stack| - 2] else stack[..|stack| - 1]
    ensures (forall k | i < k < i' :: s[k] == '*') && (i' < |s| ==> s[i'] != '*')
  {
    hide *;
    owner', next' := owner, next;
    a', automaton' := a, automaton;
    ghost var opens: int := Opens(stack);
    PopFrame(stack);
    var top := stack[|stack| - 1];
    stack' := stack[..|stack| - 1];
    if top.op == Addition {
      owner' := AddOnTop(a', owner', next', Roots(stack'), top.root, automaton');
      var ad := Add(a', top.root, automaton');
      a', automaton' := ad.0, ad.1;
      PopFrame(stack');
      top := stack'[|stack'| - 1];
      stack' := stack'[..|stack'| - 1];
    }
    assert Opens(stack') == opens - 1;
    i' := i;
    if i < |regex| {
      DepthSnoc(regex, i);
      if s[i + 1] == '*' {
        CycleOnTop(a', owner', next', Roots(stack') + [top.root], automaton');
        var cy := Cycle(a', automaton');
        a' := cy.0;
        i' := SkipStars(regex, s, i, opens - 2);
      }
    }
    owner' := ConcatOnTop(a', owner', next', Roots(stack'), top.root, automaton');
    var q := Concatenate(a', top.root, automaton');
    a', automaton' := q.0, q.1;
    if i' == |regex| {
      BalancedFacts(regex, i');
      assert stack' == [];
    } else {
      BalancedFacts(regex, i' + 1);
      if stack' == [] {
        OpensNil();
      }
    }
    i' := i' + 1;
  }

  /** A choice: a pending choice is completed first, then a choice frame is pushed and a fresh
      accepting state starts the right operand. */
  method Choice(regex: string, s: string, a: Arena, ghost owner: map<nat, nat>, ghost next: nat,
                stack: seq<Frame>, automaton: nat, i: nat)
    returns (a': Arena, ghost owner': map<nat, nat>, ghost next': nat, stack': seq<Frame>, automaton': nat, i': nat)
    requires s == regex + ")" && i < |regex| && s[i] == '+'
    requires Shaped(stack) && Opens(stack) == 1 + Depth(regex[..i])
    requires Fragments(a, owner, next, Roots(stack) + [automaton])
    ensures i' == i + 1 && Shaped(stack') && Opens(stack') == 1 + Depth(regex[..i'])
    ensures Fragments(a', owner', next', Roots(stack') + [automaton'])
    ensures stack'[..|stack'| - 1] == if stack[|stack| - 1].op == Addition then stack[..|stack| - 1] else stack
    ensures stack'[|stack'| - 1].op == Addition
    ensures stack[|stack| - 1].op == Addition ==>
      stack'[|stack'| - 1].root in a'.states &&
      a'.states[stack'[|stack'| - 1].root] == NState(map[Eps := {stack[|stack| - 1].root, automaton}], false)
    ensures stack[|stack| - 1].op != Addition ==> stack'[|stack'| - 1].root == automaton
    ensures automaton' in a'.states && a'.states[automaton'] == NState(map[], true)
  {
    hide *;
    owner', next' := owner, next;
    a', automaton', stack' := a, automaton, stack;
    ShapedNonEmpty(stack);
    if stack'[|stack'| - 1].op == Addition {
      PopFrame(stack');
      var top := stack'[|stack'| - 1];
      stack' := stack'[..|stack'| - 1];
      owner' := AddOnTop(a', owner', next', Roots(stack'), top.root, automaton');
      var ad := Add(a', top.root, automaton');
      a', automaton' := ad.0, ad.1;
    }
    DepthSnoc(regex, i);
    PushFrame(stack', Frame(automaton', Addition));
    stack' := stack' + [Frame(automaton', Addition)];
    owner', next' := NewOnTop(a', owner', next', Roots(stack'), true);
    var p := NewState(a', true);
    a', automaton' := p.0, p.1;
    i' := i + 1;
  }

  /** The start of the construction: a bottom concatenation frame over a fresh accepting
      state, and a second fresh accepting state as the first operand. */
  method Start() returns (a: Arena, ghost owner: map<nat, nat>, ghost next: nat, stack: seq<Frame>, automaton: nat)
    ensures Shaped(stack) && Opens(stack) == 1 && |stack| == 1
    ensures Fragments(a, owner, next, Roots(stack) + [automaton])
  {
    hide *;
    a := Arena(map[], 0);
    NoFragments();
    owner, next := NewOnTop(a, map[], 0, [], true);
    var p := NewState(a, true);
    a := p.0;
    stack := [Frame(p.1, Concatenation)];
    BottomFrame(p.1);
    assert [] + [p.1] == Roots(stack);
    owner, next := NewOnTop(a, owner, next, Roots(stack), true);
    p := NewState(a, true);
    a, automaton := p.0, p.1;
  }

  /** An opening bracket: a concatenation frame is pushed over the current operand and a fresh
      accepting state starts the bracketed expression. */
  method OpenBracket(regex: string, s: string, a: Arena, ghost owner: map<nat, nat>, ghost next: nat,
                     stack: seq<Frame>, automaton: nat, i: nat)
    returns (a': Arena, ghost owner': map<nat, nat>, ghost next': nat, stack': seq<Frame>, automaton': nat, i': nat)
    requires s == regex + ")" && i < |regex| && s[i] == '('
    requires Shaped(stack) && Opens(stack) == 1 + Depth(regex[..i])
    requires Fragments(a, owner, next, Roots(stack) + [automaton])
    ensures i' == i + 1 && Shaped(stack') && Opens(stack') == 1 + Depth(regex[..i'])
    ensures Fragments(a', owner', next', Roots(stack') + [automaton'])
    ensures stack' == stack + [Frame(automaton, Concatenation)]
    ensures automaton' in a'.states && a'.states[automaton'] == NState(map[], true)
  {
    hide *;
    DepthSnoc(regex, i);
    PushFrame(stack, Frame(automaton, Concatenation));
    stack' := stack + [Frame(automaton, Concatenation)];
    owner', next' := NewOnTop(a, owner, next, Roots(stack'), true);
    var p := NewState(a, true);
    a', automaton' := p.0, p.1;
    i' := i + 1;
  }

  /** `regexToAutomaton`: nothing for an invalid expression, and otherwise a root in a
      well-formed arena. The loop keeps one concatenation frame per unclosed bracket plus the
      bottom one, so the stack empties exactly at the appended closing bracket. */
  method RegexToAutomaton(regex: string) returns (r: Option<(Arena, nat)>)
    ensures r.None? <==> !ValidRegex(regex)
    ensures r.Some? ==> Valid(r.value.0) && r.value.1 in r.value.0.states
  {
    var ok := IsValidRegex(regex);
    if !ok {
      return None;
    }
    hide *;
    var s := regex + ")";
    var a, owner, next, stack, automaton := Start();
    var i := 0;
    DepthNil(regex);
    while stack != []
      invariant i <= |s|
      invariant stack != [] ==> i < |s| && Shaped(stack) && Opens(stack) == 1 + Depth(regex[..i])
      invariant Fragments(a, owner, next, Roots(stack) + [automaton])
      decreases |s| - i
    {
      a, owner, next, automaton, i := ReadLetters(regex, s, a, owner, next, stack, automaton, i);
      if At(s, i) != ')' && At(s, i + 1) == '*' {
        a, owner, next, automaton, i := StarredLetter(regex, s, a, owner, next, stack, automaton, i);
      } else if s[i] == '(' {
        a, owner, next, stack, automaton, i := OpenBracket(regex, s, a, owner, next, stack, automaton, i);
      } else if s[i] == ')' {
        a, owner, next, stack, automaton, i := CloseBracket(regex, s, a, owner, next, stack, automaton, i);
      } else {
        a, owner, next, stack, automaton, i := Choice(regex, s, a, owner, next, stack, automaton, i);
      }
    }
    FragmentsRoot(a, owner, next, Roots(stack) + [automaton]);
    r := Some((a, automaton));
  }
}
