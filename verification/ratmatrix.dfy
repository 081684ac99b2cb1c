/** The elimination of src/MatrixInversion.h over `RationalFunction<Rational<integer>>`, the
    instance `getGeneratingFunction` uses. For a matrix whose entries are canonical and which is
    the identity at x = 0 (as I - xA is), every pivot is found in its own row, no operation
    fails, and the result is again the identity at x = 0. */
module RationalMatrices {
  import opened Wrappers
  import S = Scalars
  import P = Polynomials
  import R = RationalFunctions
  import opened Matrices

  /** The field operations; an operand with a zero denominator, which no constructor or
      operation produces, is refused as the constructor refuses it. */
  function RAdd(f: R.RatFunc, g: R.RatFunc): Result<R.RatFunc> {
    if f.den != P.Zero && g.den != P.Zero then R.Add(f, g) else Failure(ZeroInversion)
  }

  function RSub(f: R.RatFunc, g: R.RatFunc): Result<R.RatFunc> {
    if f.den != P.Zero && g.den != P.Zero then R.Sub(f, g) else Failure(ZeroInversion)
  }

  function RMul(f: R.RatFunc, g: R.RatFunc): Result<R.RatFunc> {
    if f.den != P.Zero && g.den != P.Zero then R.Mul(f, g) else Failure(ZeroInversion)
  }

  function RDiv(f: R.RatFunc, g: R.RatFunc): Result<R.RatFunc> {
    if f.den != P.Zero && g.den != P.Zero then R.Div(f, g) else Failure(ZeroInversion)
  }

  /** The rational functions as a field: `(T) 0` and `(T) 1` are the scalar constructors, and
      `== (T) 0` is the cross-multiplication equality. */
  function RatFuncs(): Field<R.RatFunc> {
    Field(R.FromScalar(0.0), R.FromScalar(1.0), f => R.Equal(f, R.FromScalar(0.0)), RAdd, RSub, RMul, RDiv)
  }

  /** The value at x = 0, where every canonical function is defined. */
  function At0(f: R.RatFunc): real
    requires R.Canonical(f)
  {
    R.CanonicalAtZero(f);
    R.Value(f, 0.0)
  }

  /** Canonical entries, with the values `e` at x = 0. */
  predicate RowAt0(row: seq<R.RatFunc>, e: seq<real>) {
    |row| == |e| && forall q | 0 <= q < |row| :: R.Canonical(row[q]) && At0(row[q]) == e[q]
  }

  /** The n×n identity at x = 0. */
  function UnitRow(n: nat, r: nat): seq<real> {
    seq(n, c => if c == r then 1.0 else 0.0)
  }

  /** An n×n matrix of canonical functions that is the identity at x = 0. */
  predicate IdentityAt0(m: Matrix<R.RatFunc>, n: nat) {
    Square(m, n) && forall r | 0 <= r < n :: RowAt0(m[r], UnitRow(n, r))
  }

  lemma IdentityAt0Square(m: Matrix<R.RatFunc>, n: nat)
    requires IdentityAt0(m, n)
    ensures Square(m, n)
  {
  }

  /** Row r of a matrix that is the identity at 0. */
  lemma RowOf(m: Matrix<R.RatFunc>, n: nat, r: nat)
    requires IdentityAt0(m, n) && r < n
    ensures RowAt0(m[r], UnitRow(n, r)) && |m[r]| == n
  {
  }

  /** Replacing a row by one with the same values at 0 keeps the identity at 0. */
  lemma ReplaceRow(m: Matrix<R.RatFunc>, n: nat, j: nat, row: seq<R.RatFunc>)
    requires IdentityAt0(m, n) && j < n && RowAt0(row, UnitRow(n, j))
    ensures IdentityAt0(m[j := row], n)
  {
  }

  /** A function that is nonzero at 0 is not the zero function. */
  lemma NonzeroAt0(f: R.RatFunc)
    requires R.Canonical(f) && At0(f) != 0.0
    ensures !RatFuncs().isZero(f)
  {
    R.CanonicalAtZero(f);
    assert R.DefinedAt(R.FromScalar(0.0), 0.0) && R.Value(R.FromScalar(0.0), 0.0) == 0.0;
  }

  /** The numerator of a canonical function at 0 is its value there. */
  lemma NumeratorAt0(f: R.RatFunc)
    requires R.Canonical(f)
    ensures P.Eval(f.num, 0.0) == At0(f)
  {
    R.CanonicalAtZero(f);
    S.MulOne(P.Eval(f.num, 0.0));
    S.QuotUnique(P.Eval(f.num, 0.0), P.Eval(f.num, 0.0), 1.0);
  }

  /** x - t·y with t zero at 0 succeeds and keeps the value of x at 0. */
  lemma EntryMinusAt0(x: R.RatFunc, t: R.RatFunc, y: R.RatFunc, tLeft: bool)
    requires R.Canonical(x) && R.Canonical(t) && R.Canonical(y) && At0(t) == 0.0
    ensures EntryMinus(RatFuncs(), x, t, y, tLeft).Success?
    ensures R.Canonical(EntryMinus(RatFuncs(), x, t, y, tLeft).value)
    ensures At0(EntryMinus(RatFuncs(), x, t, y, tLeft).value) == At0(x)
  {
    hide R.Sub, R.Mul, R.Build, R.Reduce, R.Make, P.Eval;
    R.CanonicalAtZero(x);
    R.CanonicalAtZero(t);
    R.CanonicalAtZero(y);
    var m := if tLeft then R.Mul(t, y) else R.Mul(y, t);
    assert m.Success?;
    S.MulZero(At0(y), 0.0);
    assert At0(m.value) == 0.0;
    R.CanonicalAtZero(m.value);
  }

  lemma {:induction false} RowMinusFromAt0(r: seq<R.RatFunc>, t: R.RatFunc, p: seq<R.RatFunc>, from: nat, tLeft: bool,
                                           k: nat, e: seq<real>, ep: seq<real>)
    requires RowAt0(r, e) && RowAt0(p, ep) && |p| == |r| && k <= |r| && R.Canonical(t) && At0(t) == 0.0
    ensures RowMinusFrom(RatFuncs(), r, t, p, from, tLeft, k).Success?
    ensures RowAt0(RowMinusFrom(RatFuncs(), r, t, p, from, tLeft, k).value, e[k..])
    decreases |r| - k
  {
    if k < |r| {
      hide *;
      RowMinusFromAt0(r, t, p, from, tLeft, k + 1, e, ep);
      var rest := RowMinusFrom(RatFuncs(), r, t, p, from, tLeft, k + 1).value;
      RowEntry(r, e, k);
      RowEntry(p, ep, k);
      if k >= from {
        EntryMinusAt0(r[k], t, p[k], tLeft);
      }
      RowMinusFromStep(r, t, p, from, tLeft, k);
      var x := if k < from then r[k] else EntryMinus(RatFuncs(), r[k], t, p[k], tLeft).value;
      RowAt0Cons(x, rest, e, k);
    }
  }

  /** One entry of the row difference in front of the rest. */
  lemma RowMinusFromStep(r: seq<R.RatFunc>, t: R.RatFunc, p: seq<R.RatFunc>, from: nat, tLeft: bool, k: nat)
    requires |p| == |r| && k < |r| && RowMinusFrom(RatFuncs(), r, t, p, from, tLeft, k + 1).Success?
    requires k >= from ==> EntryMinus(RatFuncs(), r[k], t, p[k], tLeft).Success?
    ensures RowMinusFrom(RatFuncs(), r, t, p, from, tLeft, k) ==
      Success([if k < from then r[k] else EntryMinus(RatFuncs(), r[k], t, p[k], tLeft).value] +
              RowMinusFrom(RatFuncs(), r, t, p, from, tLeft, k + 1).value)
  {
  }

  lemma RowAt0Cons(x: R.RatFunc, rest: seq<R.RatFunc>, e: seq<real>, k: nat)
    requires k < |e| && R.Canonical(x) && At0(x) == e[k] && RowAt0(rest, e[k + 1..])
    ensures RowAt0([x] + rest, e[k..])
  {
    hide At0;
    forall q | 0 <= q < |[x] + rest| ensures R.Canonical(([x] + rest)[q]) && At0(([x] + rest)[q]) == e[k..][q] {
      if q > 0 {
        assert ([x] + rest)[q] == rest[q - 1];
      }
    }
  }

  /** Row r minus t times row p, with t zero at 0, succeeds and keeps r's values at 0. */
  lemma RowMinusAt0(r: seq<R.RatFunc>, t: R.RatFunc, p: seq<R.RatFunc>, from: nat, tLeft: bool, e: seq<real>, ep: seq<real>)
    requires RowAt0(r, e) && RowAt0(p, ep) && |p| == |r| && R.Canonical(t) && At0(t) == 0.0
    ensures RowMinus(RatFuncs(), r, t, p, from, tLeft).Success?
    ensures RowAt0(RowMinus(RatFuncs(), r, t, p, from, tLeft).value, e)
  {
    RowMinusFromAt0(r, t, p, from, tLeft, 0, e, ep);
    assert e[0..] == e;
  }

  /** x / d with d one at 0 succeeds and keeps the value of x at 0. */
  lemma DivAt0(x: R.RatFunc, d: R.RatFunc)
    requires R.Canonical(x) && R.Canonical(d) && At0(d) == 1.0
    ensures RatFuncs().div(x, d).Success?
    ensures R.Canonical(RatFuncs().div(x, d).value) && At0(RatFuncs().div(x, d).value) == At0(x)
  {
    NumeratorAt0(d);
    hide R.Div, R.Build, R.Reduce, R.Make, P.Eval;
    R.CanonicalAtZero(x);
    R.CanonicalAtZero(d);
    var q := R.Div(x, d);
    assert q.Success?;
    S.MulOne(At0(x));
    S.QuotUnique(At0(x), At0(x), 1.0);
    R.CanonicalAtZero(q.value);
  }

  lemma {:induction false} RowDividedFromAt0(r: seq<R.RatFunc>, d: R.RatFunc, k: nat, e: seq<real>)
    requires RowAt0(r, e) && k <= |r| && R.Canonical(d) && At0(d) == 1.0
    ensures RowDividedFrom(RatFuncs(), r, d, k).Success?
    ensures RowAt0(RowDividedFrom(RatFuncs(), r, d, k).value, e[k..])
    decreases |r| - k
  {
    hide R.Div, R.Build, R.Reduce, R.Make, P.Eval;
    if k < |r| {
      RowDividedFromAt0(r, d, k + 1, e);
      var rest := RowDividedFrom(RatFuncs(), r, d, k + 1).value;
      DivAt0(r[k], d);
      var x := RatFuncs().div(r[k], d);
      hide RatFuncs, At0;
      var res := RowDividedFrom(RatFuncs(), r, d, k).value;
      assert res[0] == x.value;
      assert res[1..] == rest;
      forall q | 0 <= q < |res| ensures R.Canonical(res[q]) && At0(res[q]) == e[k..][q] {
        if q > 0 {
          assert res[q] == rest[q - 1];
        }
      }
    }
  }

  // ---------------------------------------------------------------------------------------------
  // The passes keep the identity at 0

  /** The elimination below pivot i, from row j on, succeeds and stays the identity at 0. */
  predicate EliminatesAt0(a: Matrix<R.RatFunc>, b: Matrix<R.RatFunc>, i: nat, j: nat)
    requires Square(a, |a|) && Square(b, |a|) && i < j <= |a|
  {
    var r := EliminateBelow(RatFuncs(), a, b, i, j);
    r.Success? && IdentityAt0(r.value.0, |a|) && IdentityAt0(r.value.1, |a|)
  }

  lemma {:induction false} EliminateBelowAt0(a: Matrix<R.RatFunc>, b: Matrix<R.RatFunc>, i: nat, j: nat)
    requires IdentityAt0(a, |a|) && IdentityAt0(b, |a|) && i < j <= |a|
    ensures EliminatesAt0(a, b, i, j)
    decreases |a| - j
  {
    hide *;
    if j < |a| {
      var a', b' := EliminateStepAt0(a, b, i, j);
      EliminateBelowAt0(a', b', i, j + 1);
    } else {
      EliminateDoneAt0(a, b, i);
    }
  }

  lemma EliminateDoneAt0(a: Matrix<R.RatFunc>, b: Matrix<R.RatFunc>, i: nat)
    requires IdentityAt0(a, |a|) && IdentityAt0(b, |a|) && i < |a|
    ensures EliminatesAt0(a, b, i, |a|)
  {
  }

  /** One row of the elimination below the pivot: the pair it hands to the next row. */
  lemma EliminateStepAt0(a: Matrix<R.RatFunc>, b: Matrix<R.RatFunc>, i: nat, j: nat)
    returns (a': Matrix<R.RatFunc>, b': Matrix<R.RatFunc>)
    requires IdentityAt0(a, |a|) && IdentityAt0(b, |a|) && i < j < |a|
    ensures |a'| == |a| && IdentityAt0(a', |a|) && IdentityAt0(b', |a|)
    ensures EliminateBelow(RatFuncs(), a, b, i, j) == EliminateBelow(RatFuncs(), a', b', i, j + 1)
    ensures EliminatesAt0(a, b, i, j) == EliminatesAt0(a', b', i, j + 1)
  {
    var n := |a|;
    hide RatFuncs, At0, R.Sub, R.Mul, R.Div, R.Build, R.Reduce, R.Make, R.Equal, R.Value, P.Eval, IdentityAt0, RowAt0;
    IdentityAt0Square(a, n);
    IdentityAt0Square(b, n);
    if RatFuncs().isZero(a[j][i]) {
      a', b' := a, b;
    } else {
      RowOf(a, n, i);
      RowOf(a, n, j);
      RowOf(b, n, i);
      RowOf(b, n, j);
      RowEntry(a[i], UnitRow(n, i), i);
      RowEntry(a[j], UnitRow(n, j), i);
      DivAt0(a[j][i], a[i][i]);
      var t := RatFuncs().div(a[j][i], a[i][i]).value;
      RowMinusAt0(b[j], t, b[i], 0, true, UnitRow(n, j), UnitRow(n, i));
      RowMinusAt0(a[j], t, a[i], i, true, UnitRow(n, j), UnitRow(n, i));
      var aj := RowMinus(RatFuncs(), a[j], t, a[i], i, true).value;
      var bj := RowMinus(RatFuncs(), b[j], t, b[i], 0, true).value;
      ReplaceRow(a, n, j, aj);
      ReplaceRow(b, n, j, bj);
      a', b' := a[j := aj], b[j := bj];
    }
  }

  /** An entry of a row with known values at 0. */
  lemma RowEntry(row: seq<R.RatFunc>, e: seq<real>, q: nat)
    requires RowAt0(row, e) && q < |row|
    ensures |row| == |e| && R.Canonical(row[q]) && At0(row[q]) == e[q]
  {
  }

  /** The forward pass finds every pivot in its own row and succeeds. */
  lemma {:induction false} ForwardAt0(a: Matrix<R.RatFunc>, b: Matrix<R.RatFunc>, i: nat)
    requires IdentityAt0(a, |a|) && IdentityAt0(b, |a|) && i <= |a|
    ensures Square(a, |a|) && Square(b, |a|)
    ensures NoExchange(RatFuncs(), a, b, i)
    ensures Forward(RatFuncs(), true, a, b, i).Success?
    ensures IdentityAt0(Forward(RatFuncs(), true, a, b, i).value.0, |a|)
    ensures IdentityAt0(Forward(RatFuncs(), true, a, b, i).value.1, |a|)
    decreases |a| - i
  {
    hide RatFuncs, At0, R.Sub, R.Mul, R.Div, R.Build, R.Reduce, R.Make, R.Equal, R.Value, P.Eval;
    var n := |a|;
    IdentityAt0Square(a, n);
    IdentityAt0Square(b, n);
    if i < n {
      assert RowAt0(a[i], UnitRow(n, i));
      NonzeroAt0(a[i][i]);
      assert FirstNonzero(RatFuncs(), a, i, i) == i;
      EliminateBelowAt0(a, b, i, i + 1);
      assert EliminatesAt0(a, b, i, i + 1);
      var r := EliminateBelow(RatFuncs(), a, b, i, i + 1).value;
      ForwardAt0(r.0, r.1, i + 1);
    }
  }

  lemma {:induction false} SubstituteAt0(a: Matrix<R.RatFunc>, b: Matrix<R.RatFunc>, i: nat, j: nat, row: seq<R.RatFunc>)
    requires IdentityAt0(a, |a|) && IdentityAt0(b, |a|) && i < j <= |a| && RowAt0(row, UnitRow(|a|, i))
    ensures Square(a, |a|) && Square(b, |a|)
    ensures Substitute(RatFuncs(), a, b, i, j, row).Success?
    ensures RowAt0(Substitute(RatFuncs(), a, b, i, j, row).value, UnitRow(|a|, i))
    decreases |a| - j
  {
    hide RatFuncs, At0, R.Sub, R.Mul, R.Div, R.Build, R.Reduce, R.Make, R.Equal, R.Value, P.Eval;
    var n := |a|;
    IdentityAt0Square(a, n);
    IdentityAt0Square(b, n);
    if j < n {
      assert RowAt0(a[i], UnitRow(n, i)) && RowAt0(b[j], UnitRow(n, j));
      RowMinusAt0(row, a[i][j], b[j], 0, false, UnitRow(n, i), UnitRow(n, j));
      SubstituteAt0(a, b, i, j + 1, RowMinus(RatFuncs(), row, a[i][j], b[j], 0, false).value);
    }
  }

  lemma {:induction false} BackAt0(a: Matrix<R.RatFunc>, b: Matrix<R.RatFunc>, m: nat)
    requires IdentityAt0(a, |a|) && IdentityAt0(b, |a|) && m <= |a|
    ensures Square(a, |a|) && Square(b, |a|)
    ensures Back(RatFuncs(), a, b, m).Success?
    ensures IdentityAt0(Back(RatFuncs(), a, b, m).value, |a|)
    decreases m
  {
    hide RatFuncs, At0, R.Sub, R.Mul, R.Div, R.Build, R.Reduce, R.Make, R.Equal, R.Value, P.Eval;
    var n := |a|;
    IdentityAt0Square(a, n);
    IdentityAt0Square(b, n);
    if m > 0 {
      var i := m - 1;
      assert RowAt0(a[i], UnitRow(n, i)) && RowAt0(b[i], UnitRow(n, i));
      SubstituteAt0(a, b, i, i + 1, b[i]);
      var row := Substitute(RatFuncs(), a, b, i, i + 1, b[i]).value;
      NonzeroAt0(a[i][i]);
      RowDividedFromAt0(row, a[i][i], 0, UnitRow(n, i));
      var row' := RowDividedFrom(RatFuncs(), row, a[i][i], 0).value;
      assert UnitRow(n, i)[0..] == UnitRow(n, i);
      BackAt0(a, b[i := row'], i);
    }
  }

  /** The scalar identity matrix is the identity at 0. */
  lemma IdentityIsAt0(n: nat)
    ensures IdentityAt0(Identity(RatFuncs(), n), n)
  {
    var I := Identity(RatFuncs(), n);
    forall r | 0 <= r < n ensures RowAt0(I[r], UnitRow(n, r)) {
      forall c | 0 <= c < n ensures R.Canonical(I[r][c]) && At0(I[r][c]) == UnitRow(n, r)[c] {
      }
    }
  }

  /** For a matrix of canonical functions that is the identity at x = 0, the elimination as
      written exchanges no rows, so it computes what the corrected one does; it never raises, and
      its result is again the identity at x = 0. */
  lemma InverseAt0(a: Matrix<R.RatFunc>)
    requires IdentityAt0(a, |a|)
    ensures Square(a, |a|)
    ensures NoExchange(RatFuncs(), a, Identity(RatFuncs(), |a|), 0)
    ensures GaussianElimination(RatFuncs(), a) == GaussJordan(RatFuncs(), a)
    ensures GaussianElimination(RatFuncs(), a).Success?
    ensures IdentityAt0(GaussianElimination(RatFuncs(), a).value, |a|)
  {
    IdentityAt0Square(a, |a|);
    IdentityIsAt0(|a|);
    ForwardAt0(a, Identity(RatFuncs(), |a|), 0);
    AsWrittenWithoutExchange(RatFuncs(), a);
    var fb := Forward(RatFuncs(), true, a, Identity(RatFuncs(), |a|), 0).value;
    BackAt0(fb.0, fb.1, |a|);
  }
}
