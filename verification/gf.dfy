/** `DFA::getGeneratingFunction` (src/DFA.cpp:101-140). The reachable states are numbered in
    discovery order; the matrix I - x·A is built, where A[r][c] counts the transitions from the
    r-th state to the c-th; it is inverted by `MatrixInversion::gaussianElimination`; and the
    entries of row 0 that belong to accepting states are added up. Row 0 of (I - x·A)^-1 holds,
    column by column, the power series Σ_n (number of words of length n from the start state to
    that state)·x^n, so the sum is the generating function of the accepted words by length.
    The model proves that no step fails, what the matrix is, what the final sum adds up, and the
    constant term: 1 exactly when the empty word is accepted. */
module GeneratingFunctions {
  import opened Wrappers
  import S = Scalars
  import P = Polynomials
  import R = RationalFunctions
  import opened Matrices
  import opened RationalMatrices
  import D = Dfas
  import G = Graphs

  /** The polynomial 0 + 1·x takes the value x. */
  lemma EvalX(x: real)
    ensures P.Eval([0.0, 1.0], x) == x
  {
    var s := [0.0, 1.0];
    P.HornerUnfold(s, 0, 2, x);
    P.HornerUnfold(s, 1, 2, x);
    S.MulZero(x, 0.0);
    S.MulOne(x);
  }

  /** `RationalFunction({0, 1})`: the function x. */
  function X(): (r: R.RatFunc)
    ensures R.Canonical(r)
    ensures forall x :: R.DefinedAt(r, x) && R.Value(r, x) == x
  {
    var r := R.FromCoefficients([0.0, 1.0]);
    forall x ensures P.Eval([0.0, 1.0], x) == x {
      EvalX(x);
    }
    r
  }

  /** Lines 120-123: `RationalFunction(1)` on the diagonal, the default (zero) function elsewhere. */
  function Start(n: nat): (m: Matrix<R.RatFunc>)
    ensures Square(m, n)
  {
    seq(n, r => seq(n, c => if r == c then R.FromScalar(1.0) else R.Default()))
  }

  /** Lines 128-130 for one state: each transition, in label order, takes `x` off the entry of its
      target's column. Written over any `Field`, like the elimination; the generating function
      uses the rational functions. */
  function SubtractEdges<T>(F: Field<T>, row: seq<T>, ts: seq<nat>, order: seq<nat>, x: T): (res: Result<seq<T>>)
    requires |row| == |order| && forall k | 0 <= k < |ts| :: ts[k] in order
    ensures res.Success? ==> |res.value| == |row|
    decreases |ts|
  {
    if ts == [] then Success(row)
    else
      var c := D.IndexOf(order, ts[0]);
      var e :- F.sub(row[c], x);
      SubtractEdges(F, row[c := e], ts[1..], order, x)
  }

  /** Every target of a listed state is listed. */
  lemma TargetsIn(d: D.Dfa, order: seq<nat>, i: nat)
    requires D.Enumerates(d, order) && i < |order|
    ensures forall k | 0 <= k < |D.Targets(d.states[order[i]])| :: D.Targets(d.states[order[i]])[k] in order
  {
    var s := d.states[order[i]];
    forall k | 0 <= k < |D.Targets(s)| ensures D.Targets(s)[k] in order {
      var ls := D.Labels(s);
      assert ls[k] in ls;
      assert D.Targets(s)[k] == s.next[ls[k]];
    }
  }

  /** Lines 124-131: the states are popped from the stack last-discovered first, so the rows
      m-1, m-2, ..., 0 receive their transitions in that order. */
  function Edges<T>(F: Field<T>, d: D.Dfa, order: seq<nat>, a: Matrix<T>, m: nat, x: T): (res: Result<Matrix<T>>)
    requires D.Enumerates(d, order) && Square(a, |order|) && m <= |order|
    ensures res.Success? ==> Square(res.value, |order|)
    decreases m
  {
    if m == 0 then Success(a)
    else
      var i := m - 1;
      TargetsIn(d, order, i);
      var row :- SubtractEdges(F, a[i], D.Targets(d.states[order[i]]), order, x);
      Edges(F, d, order, a[i := row], i, x)
  }

  /** Lines 133-138: acc plus the entries k.. of `row` whose states accept, added left to right. */
  function SumAccepting<T>(F: Field<T>, d: D.Dfa, order: seq<nat>, row: seq<T>, acc: T, k: nat): Result<T>
    requires D.Enumerates(d, order) && |row| == |order| && k <= |order|
    decreases |order| - k
  {
    if k == |order| then Success(acc)
    else if d.states[order[k]].accepting then
      var acc' :- F.add(acc, row[k]);
      SumAccepting(F, d, order, row, acc', k + 1)
    else SumAccepting(F, d, order, row, acc, k + 1)
  }

  /** The matrix of lines 120-131 for a numbering `order` of the states. */
  function Transfer(d: D.Dfa, order: seq<nat>): Result<Matrix<R.RatFunc>>
    requires D.Enumerates(d, order)
  {
    Edges(RatFuncs(), d, order, Start(|order|), |order|, X())
  }

  /** The whole computation for a numbering `order` of the states (order[0] is the start state). */
  function GeneratingFunctionWith(d: D.Dfa, order: seq<nat>): Result<R.RatFunc>
    requires D.Enumerates(d, order)
  {
    var a :- Transfer(d, order);
    var inv :- GaussianElimination(RatFuncs(), a);
    SumAccepting(RatFuncs(), d, order, inv[0], R.Default(), 0)
  }

  /** `getGeneratingFunction`, with the states numbered in discovery order (lines 103-119). */
  function GeneratingFunction(d: D.Dfa): Result<R.RatFunc>
    requires D.Valid(d)
  {
    D.OrderEnumerates(d);
    GeneratingFunctionWith(d, D.Order(d))
  }

  // ---------------------------------------------------------------------------------------------
  // The matrix is I - x·A.

  /** 1 on the diagonal, 0 elsewhere. */
  function Delta(r: nat, c: nat): real {
    if r == c then 1.0 else 0.0
  }

  /** How many times t occurs in s. */
  function Count(s: seq<nat>, t: nat): nat {
    if s == [] then 0 else Count(s[..|s| - 1], t) + (if s[|s| - 1] == t then 1 else 0)
  }

  lemma CountSnoc(s: seq<nat>, t: nat, u: nat)
    ensures Count(s + [t], u) == Count(s, u) + (if t == u then 1 else 0)
  {
    assert (s + [t])[..|s|] == s;
  }

  /** A canonical function whose value at every x is delta - k·x. */
  ghost predicate EntryIs(e: R.RatFunc, delta: real, k: nat) {
    R.Canonical(e) && forall x :: R.DefinedAt(e, x) && R.Value(e, x) == delta - S.Mul(x, k as real)
  }

  /** Row r of I - x·A after the transitions `ts` of the r-th state have been taken off. */
  ghost predicate RowIs(row: seq<R.RatFunc>, r: nat, order: seq<nat>, ts: seq<nat>) {
    |row| == |order| && forall c | 0 <= c < |order| :: EntryIs(row[c], Delta(r, c), Count(ts, order[c]))
  }

  /** Rows m.. carry all their transitions, rows ..m-1 none yet. */
  ghost predicate MatrixIs(a: Matrix<R.RatFunc>, d: D.Dfa, order: seq<nat>, m: nat)
    requires D.Enumerates(d, order)
  {
    Square(a, |order|) &&
    forall r | 0 <= r < |order| :: RowIs(a[r], r, order, if r < m then [] else D.Targets(d.states[order[r]]))
  }

  /** Taking x off an entry. */
  lemma SubtractOne(e: R.RatFunc, delta: real, k: nat)
    requires EntryIs(e, delta, k)
    ensures RatFuncs().sub(e, X()).Success? && EntryIs(RatFuncs().sub(e, X()).value, delta, k + 1)
  {
    hide R.Build, R.Reduce, R.Make, R.Value, R.DefinedAt, P.Eval, S.Mul;
    assert RatFuncs().sub(e, X()) == R.Sub(e, X());
    var f := R.Sub(e, X()).value;
    forall x ensures R.DefinedAt(f, x) && R.Value(f, x) == delta - S.Mul(x, (k + 1) as real) {
      S.Distrib(x, (k + 1) as real, k as real, 1.0);
      S.MulOne(x);
    }
  }

  /** The entries of the starting matrix. */
  lemma StartEntry(n: nat, r: nat, c: nat)
    requires r < n && c < n
    ensures EntryIs(Start(n)[r][c], Delta(r, c), 0)
  {
    var e := Start(n)[r][c];
    assert e == if r == c then R.FromScalar(1.0) else R.Default();
    forall x ensures R.DefinedAt(e, x) && R.Value(e, x) == Delta(r, c) - S.Mul(x, 0 as real) {
      S.MulZero(x, 0.0);
    }
  }

  /** The starting matrix is row by row I. */
  lemma StartIs(n: nat, order: seq<nat>, r: nat)
    requires |order| == n && r < n
    ensures RowIs(Start(n)[r], r, order, [])
  {
    forall c | 0 <= c < n ensures EntryIs(Start(n)[r][c], Delta(r, c), Count([], order[c])) {
      StartEntry(n, r, c);
    }
  }

  /** One transition taken off a row. */
  lemma SubtractStep(row: seq<R.RatFunc>, r: nat, order: seq<nat>, pre: seq<nat>, t: nat)
    requires RowIs(row, r, order, pre) && G.Distinct(order) && t in order
    ensures RatFuncs().sub(row[D.IndexOf(order, t)], X()).Success?
    ensures RowIs(row[D.IndexOf(order, t) := RatFuncs().sub(row[D.IndexOf(order, t)], X()).value], r, order, pre + [t])
  {
    hide RatFuncs, X, EntryIs;
    var c := D.IndexOf(order, t);
    assert EntryIs(row[c], Delta(r, c), Count(pre, order[c]));
    SubtractOne(row[c], Delta(r, c), Count(pre, order[c]));
    var row' := row[c := RatFuncs().sub(row[c], X()).value];
    forall c' | 0 <= c' < |order| ensures EntryIs(row'[c'], Delta(r, c'), Count(pre + [t], order[c'])) {
      CountSnoc(pre, t, order[c']);
      if c' != c {
        assert order[c'] != order[c];
      }
    }
  }

  /** Taking off the transitions ts: no subtraction fails, and each column loses x once per
      transition into its state. */
  lemma {:induction false} SubtractEdgesIs(row: seq<R.RatFunc>, r: nat, order: seq<nat>, pre: seq<nat>, ts: seq<nat>)
    requires RowIs(row, r, order, pre) && G.Distinct(order) && forall k | 0 <= k < |ts| :: ts[k] in order
    ensures SubtractEdges(RatFuncs(), row, ts, order, X()).Success?
    ensures RowIs(SubtractEdges(RatFuncs(), row, ts, order, X()).value, r, order, pre + ts)
    decreases |ts|
  {
    hide RatFuncs, X, EntryIs;
    assert |row| == |order|;
    hide RowIs;
    if ts == [] {
      assert pre + ts == pre;
    } else {
      var c := D.IndexOf(order, ts[0]);
      SubtractStep(row, r, order, pre, ts[0]);
      var row' := row[c := RatFuncs().sub(row[c], X()).value];
      SubtractEdgesIs(row', r, order, pre + [ts[0]], ts[1..]);
      assert pre + [ts[0]] + ts[1..] == pre + ts;
    }
  }

  /** The edge pass succeeds and yields I - x·A. */
  lemma {:induction false} EdgesIs(d: D.Dfa, order: seq<nat>, a: Matrix<R.RatFunc>, m: nat)
    requires D.Enumerates(d, order) && G.Distinct(order) && m <= |order| && MatrixIs(a, d, order, m)
    ensures Edges(RatFuncs(), d, order, a, m, X()).Success?
    ensures MatrixIs(Edges(RatFuncs(), d, order, a, m, X()).value, d, order, 0)
    decreases m
  {
    hide *;
    if m > 0 {
      var a' := EdgesStep(d, order, a, m);
      EdgesIs(d, order, a', m - 1);
    } else {
      EdgesDone(d, order, a);
    }
  }

  lemma EdgesDone(d: D.Dfa, order: seq<nat>, a: Matrix<R.RatFunc>)
    requires D.Enumerates(d, order) && MatrixIs(a, d, order, 0)
    ensures Edges(RatFuncs(), d, order, a, 0, X()) == Success(a)
  {
  }

  /** One step of the edge pass, when the row's subtractions succeed. */
  lemma EdgesUnfold<T>(F: Field<T>, d: D.Dfa, order: seq<nat>, a: Matrix<T>, m: nat, x: T, ts: seq<nat>)
    requires D.Enumerates(d, order) && Square(a, |order|) && 0 < m <= |order|
    requires ts == D.Targets(d.states[order[m - 1]]) && forall k | 0 <= k < |ts| :: ts[k] in order
    requires SubtractEdges(F, a[m - 1], ts, order, x).Success?
    ensures Edges(F, d, order, a, m, x) == Edges(F, d, order, a[m - 1 := SubtractEdges(F, a[m - 1], ts, order, x).value], m - 1, x)
  {
  }

  /** The transitions of state order[m-1] taken off its row. */
  lemma EdgesStep(d: D.Dfa, order: seq<nat>, a: Matrix<R.RatFunc>, m: nat) returns (a': Matrix<R.RatFunc>)
    requires D.Enumerates(d, order) && G.Distinct(order) && 0 < m <= |order| && MatrixIs(a, d, order, m)
    ensures MatrixIs(a', d, order, m - 1)
    ensures Edges(RatFuncs(), d, order, a, m, X()) == Edges(RatFuncs(), d, order, a', m - 1, X())
  {
    hide RatFuncs, X, RowIs, EntryIs, D.Targets, D.Labels, Count;
    TargetsIn(d, order, m - 1);
    var ts := D.Targets(d.states[order[m - 1]]);
    assert Square(a, |order|);
    assert RowIs(a[m - 1], m - 1, order, []);
    SubtractEdgesIs(a[m - 1], m - 1, order, [], ts);
    assert [] + ts == ts;
    EdgesUnfold(RatFuncs(), d, order, a, m, X(), ts);
    a' := a[m - 1 := SubtractEdges(RatFuncs(), a[m - 1], ts, order, X()).value];
    ReplaceRowIs(d, order, a, m, SubtractEdges(RatFuncs(), a[m - 1], ts, order, X()).value);
  }

  /** Row m-1 with all its transitions taken off. */
  lemma ReplaceRowIs(d: D.Dfa, order: seq<nat>, a: Matrix<R.RatFunc>, m: nat, row: seq<R.RatFunc>)
    requires D.Enumerates(d, order) && 0 < m <= |order| && MatrixIs(a, d, order, m)
    requires RowIs(row, m - 1, order, D.Targets(d.states[order[m - 1]]))
    ensures MatrixIs(a[m - 1 := row], d, order, m - 1)
  {
    hide EntryIs, RatFuncs, X, D.Targets, D.Labels, Count;
  }

  /** Lines 120-131 build I - x·A: entry (r, c) is δ_rc - x·(the number of transitions from the
      r-th state to the c-th), and none of the subtractions fails. */
  lemma TransferMatrix(d: D.Dfa, order: seq<nat>)
    requires D.Enumerates(d, order) && G.Distinct(order)
    ensures Transfer(d, order).Success?
    ensures forall r, c | 0 <= r < |order| && 0 <= c < |order| ::
      EntryIs(Transfer(d, order).value[r][c], Delta(r, c), Count(D.Targets(d.states[order[r]]), order[c]))
  {
    forall r | 0 <= r < |order| ensures RowIs(Start(|order|)[r], r, order, []) {
      StartIs(|order|, order, r);
    }
    EdgesIs(d, order, Start(|order|), |order|);
    var a := Transfer(d, order).value;
    forall r, c | 0 <= r < |order| && 0 <= c < |order|
      ensures EntryIs(a[r][c], Delta(r, c), Count(D.Targets(d.states[order[r]]), order[c]))
    {
      assert RowIs(a[r], r, order, D.Targets(d.states[order[r]]));
    }
  }

  /** At x = 0, I - x·A is the identity. */
  lemma TransferAt0(d: D.Dfa, order: seq<nat>)
    requires D.Enumerates(d, order) && G.Distinct(order)
    ensures Transfer(d, order).Success?
    ensures IdentityAt0(Transfer(d, order).value, |order|)
  {
    TransferMatrix(d, order);
    var n := |order|;
    var a := Transfer(d, order).value;
    forall r | 0 <= r < n ensures RowAt0(a[r], UnitRow(n, r)) {
      forall c | 0 <= c < n ensures R.Canonical(a[r][c]) && At0(a[r][c]) == UnitRow(n, r)[c] {
        assert EntryIs(a[r][c], Delta(r, c), Count(D.Targets(d.states[order[r]]), order[c]));
        S.MulZero(Count(D.Targets(d.states[order[r]]), order[c]) as real, 0.0);
      }
    }
  }

  // ---------------------------------------------------------------------------------------------
  // The final sum.

  /** Σ vals[i] over the accepting states order[i], i >= k. */
  function AcceptingSum(d: D.Dfa, order: seq<nat>, vals: seq<real>, k: nat): real
    requires D.Enumerates(d, order) && |vals| == |order| && k <= |order|
    decreases |order| - k
  {
    if k == |order| then 0.0
    else (if d.states[order[k]].accepting then vals[k] else 0.0) + AcceptingSum(d, order, vals, k + 1)
  }

  /** The values of a row at x. */
  function Values(row: seq<R.RatFunc>, x: real): (v: seq<real>)
    requires forall i | 0 <= i < |row| :: R.DefinedAt(row[i], x)
    ensures |v| == |row| && forall i | 0 <= i < |row| :: v[i] == R.Value(row[i], x)
  {
    seq(|row|, i requires 0 <= i < |row| => R.Value(row[i], x))
  }

  /** Adding two canonical functions. */
  lemma AddOne(f: R.RatFunc, g: R.RatFunc, x: real)
    requires R.Canonical(f) && R.Canonical(g) && R.DefinedAt(f, x) && R.DefinedAt(g, x)
    ensures RatFuncs().add(f, g).Success? && R.Canonical(RatFuncs().add(f, g).value)
    ensures R.DefinedAt(RatFuncs().add(f, g).value, x)
    ensures R.Value(RatFuncs().add(f, g).value, x) == R.Value(f, x) + R.Value(g, x)
  {
    hide R.Build, R.Reduce, R.Make, R.Value, R.DefinedAt, P.Eval, S.Mul;
    assert RatFuncs().add(f, g) == R.Add(f, g);
  }

  /** The sum over canonical entries never fails, is canonical, and wherever all entries are
      defined its value is acc's plus the accepting entries' values. */
  lemma {:induction false} SumAcceptingValue(d: D.Dfa, order: seq<nat>, row: seq<R.RatFunc>, acc: R.RatFunc, k: nat, x: real)
    requires D.Enumerates(d, order) && |row| == |order| && k <= |order|
    requires R.Canonical(acc) && forall i | 0 <= i < |row| :: R.Canonical(row[i])
    requires R.DefinedAt(acc, x) && forall i | 0 <= i < |row| :: R.DefinedAt(row[i], x)
    ensures SumAccepting(RatFuncs(), d, order, row, acc, k).Success?
    ensures R.Canonical(SumAccepting(RatFuncs(), d, order, row, acc, k).value)
    ensures R.DefinedAt(SumAccepting(RatFuncs(), d, order, row, acc, k).value, x)
    ensures R.Value(SumAccepting(RatFuncs(), d, order, row, acc, k).value, x) == R.Value(acc, x) + AcceptingSum(d, order, Values(row, x), k)
    decreases |order| - k
  {
    hide RatFuncs, R.Add, R.Value, R.DefinedAt, R.Canonical, P.Eval, S.Mul;
    if k < |order| {
      if d.states[order[k]].accepting {
        AddOne(acc, row[k], x);
        var acc' := RatFuncs().add(acc, row[k]).value;
        SumAcceptingValue(d, order, row, acc', k + 1, x);
      } else {
        SumAcceptingValue(d, order, row, acc, k + 1, x);
      }
    }
  }

  /** Against a unit row, the sum picks out the first state's flag. */
  lemma {:induction false} AcceptingSumUnit(d: D.Dfa, order: seq<nat>, k: nat)
    requires D.Enumerates(d, order) && k <= |order|
    ensures AcceptingSum(d, order, UnitRow(|order|, 0), k) == if k == 0 && d.states[order[0]].accepting then 1.0 else 0.0
    decreases |order| - k
  {
    if k < |order| {
      AcceptingSumUnit(d, order, k + 1);
    }
  }

  // ---------------------------------------------------------------------------------------------
  // The generating function.

  /** For any numbering of the states without repetition that starts at the start state, the
      computation succeeds, its result is canonical, and its constant term is 1 when the start
      state accepts (the empty word is in the language) and 0 otherwise. */
  lemma GeneratingFunctionWithAt0(d: D.Dfa, order: seq<nat>)
    requires D.Enumerates(d, order) && G.Distinct(order)
    ensures GeneratingFunctionWith(d, order).Success?
    ensures R.Canonical(GeneratingFunctionWith(d, order).value)
    ensures At0(GeneratingFunctionWith(d, order).value) == if d.states[d.start].accepting then 1.0 else 0.0
  {
    assert |order| > 0 && order[0] == d.start;
    hide *;
    var n := |order|;
    var row := FirstInverseRow(d, order);
    RowValuesAt0(row, n);
    SumAcceptingValue(d, order, row, R.Default(), 0, 0.0);
    AcceptingSumUnit(d, order, 0);
    var f := GeneratingFunctionWith(d, order).value;
    At0Value(f);
  }

  /** The first row of the inverse of the transfer matrix, which the sum reads. */
  lemma FirstInverseRow(d: D.Dfa, order: seq<nat>) returns (row: seq<R.RatFunc>)
    requires D.Enumerates(d, order) && G.Distinct(order)
    ensures |row| == |order| && RowAt0(row, UnitRow(|order|, 0))
    ensures GeneratingFunctionWith(d, order) == SumAccepting(RatFuncs(), d, order, row, R.Default(), 0)
  {
    var n := |order|;
    TransferAt0(d, order);
    var a := Transfer(d, order).value;
    InverseAt0(a);
    var inv := GaussianElimination(RatFuncs(), a).value;
    RowOf(inv, n, 0);
    row := inv[0];
  }

  /** A row that is the unit row at 0 is defined at 0 with those values. */
  lemma RowValuesAt0(row: seq<R.RatFunc>, n: nat)
    requires |row| == n && n > 0 && RowAt0(row, UnitRow(n, 0))
    ensures forall i | 0 <= i < n :: R.Canonical(row[i]) && R.DefinedAt(row[i], 0.0)
    ensures Values(row, 0.0) == UnitRow(n, 0)
  {
    forall i | 0 <= i < n ensures R.Canonical(row[i]) && R.DefinedAt(row[i], 0.0) {
      RowEntry(row, UnitRow(n, 0), i);
      R.CanonicalAtZero(row[i]);
    }
    assert Values(row, 0.0) == UnitRow(n, 0) by {
      forall i | 0 <= i < n ensures Values(row, 0.0)[i] == UnitRow(n, 0)[i] {
        RowEntry(row, UnitRow(n, 0), i);
      }
    }
  }

  lemma At0Value(f: R.RatFunc)
    requires R.Canonical(f)
    ensures R.DefinedAt(f, 0.0) && At0(f) == R.Value(f, 0.0)
  {
    R.CanonicalAtZero(f);
  }

  /** `getGeneratingFunction` never fails on a valid automaton; the constant term of its result
      is the number of accepted words of length 0. */
  lemma GeneratingFunctionAt0(d: D.Dfa)
    requires D.Valid(d)
    ensures GeneratingFunction(d).Success?
    ensures R.Canonical(GeneratingFunction(d).value)
    ensures At0(GeneratingFunction(d).value) == if D.Accepts(d, d.start, []) then 1.0 else 0.0
  {
    D.OrderEnumerates(d);
    D.OrderFacts(d);
    GeneratingFunctionWithAt0(d, D.Order(d));
  }
}
