/** The elimination of src/MatrixInversion.h over the exact scalars: it never fails, and when the
    forward pass leaves a nonzero entry on every diagonal position the corrected elimination
    returns a left inverse of its input. The matrix algebra used to state this (a row times a
    matrix, the matrix product) is defined here by finite sums. */
module RealInverse {
  import opened Wrappers
  import S = Scalars
  import opened Matrices

  /** The exact scalars as a field (`Rational<integer>` in the original). */
  function Reals(): Field<real> {
    Field(0.0, 1.0, x => x == 0.0, (x, y) => Success(x + y), (x, y) => Success(x - y), (x, y) => Success(S.Mul(x, y)),
          (x, y) => if y == 0.0 then Failure(ZeroInversion) else Success(S.Quot(x, y)))
  }

  // ---------------------------------------------------------------------------------------------
  // Row operations over the scalars

  lemma RowMinusFromReal(r: seq<real>, t: real, p: seq<real>, from: nat, tLeft: bool, k: nat)
    requires |p| == |r| && k <= |r|
    ensures RowMinusFrom(Reals(), r, t, p, from, tLeft, k).Success?
    ensures forall q | k <= q < |r| :: RowMinusFrom(Reals(), r, t, p, from, tLeft, k).value[q - k] ==
                                         (if q < from then r[q] else r[q] - S.Mul(t, p[q]))
    decreases |r| - k
  {
    if k < |r| {
      RowMinusFromReal(r, t, p, from, tLeft, k + 1);
      S.MulComm(t, p[k]);
    }
  }

  /** Over the scalars a row update succeeds and subtracts t·p[q] at every column from `from` on. */
  lemma RowMinusReal(r: seq<real>, t: real, p: seq<real>, from: nat, tLeft: bool)
    requires |p| == |r|
    ensures RowMinus(Reals(), r, t, p, from, tLeft).Success?
    ensures forall q | 0 <= q < |r| :: RowMinus(Reals(), r, t, p, from, tLeft).value[q] ==
                                         (if q < from then r[q] else r[q] - S.Mul(t, p[q]))
  {
    RowMinusFromReal(r, t, p, from, tLeft, 0);
  }

  lemma RowDividedFromReal(r: seq<real>, d: real, k: nat)
    requires d != 0.0 && k <= |r|
    ensures RowDividedFrom(Reals(), r, d, k).Success?
    ensures forall q | k <= q < |r| :: RowDividedFrom(Reals(), r, d, k).value[q - k] == S.Quot(r[q], d)
    decreases |r| - k
  {
    if k < |r| {
      RowDividedFromReal(r, d, k + 1);
    }
  }

  // ---------------------------------------------------------------------------------------------
  // The elimination never fails over the scalars

  lemma EliminateBelowSucceeds(swapB: bool, a: Matrix<real>, b: Matrix<real>, i: nat, j: nat)
    requires Square(a, |a|) && Square(b, |a|) && i < j <= |a| && a[i][i] != 0.0
    ensures EliminateBelow(Reals(), a, b, i, j).Success?
    ensures EliminateBelow(Reals(), a, b, i, j).value.0[i] == a[i]
    decreases |a| - j
  {
    if j < |a| && a[j][i] != 0.0 {
      var t := S.Quot(a[j][i], a[i][i]);
      RowMinusReal(b[j], t, b[i], 0, true);
      RowMinusReal(a[j], t, a[i], i, true);
      var aj := RowMinus(Reals(), a[j], t, a[i], i, true).value;
      var bj := RowMinus(Reals(), b[j], t, b[i], 0, true).value;
      EliminateBelowSucceeds(swapB, a[j := aj], b[j := bj], i, j + 1);
    }
  }

  lemma ForwardSucceeds(swapB: bool, a: Matrix<real>, b: Matrix<real>, i: nat)
    requires Square(a, |a|) && Square(b, |a|) && i <= |a|
    ensures Forward(Reals(), swapB, a, b, i).Success?
    decreases |a| - i
  {
    if i < |a| {
      var l := FirstNonzero(Reals(), a, i, i);
      if l == |a| {
        ForwardSucceeds(swapB, a, b, i + 1);
      } else {
        var a1 := if l != i then Swap(a, i, l) else a;
        var b1 := if l != i && swapB then Swap(b, i, l) else b;
        EliminateBelowSucceeds(swapB, a1, b1, i, i + 1);
        var r := EliminateBelow(Reals(), a1, b1, i, i + 1).value;
        ForwardSucceeds(swapB, r.0, r.1, i + 1);
      }
    }
  }

  lemma SubstituteSucceeds(a: Matrix<real>, b: Matrix<real>, i: nat, j: nat, row: seq<real>)
    requires Square(a, |a|) && Square(b, |a|) && i < j <= |a| && |row| == |a|
    ensures Substitute(Reals(), a, b, i, j, row).Success?
    decreases |a| - j
  {
    if j < |a| {
      RowMinusReal(row, a[i][j], b[j], 0, false);
      SubstituteSucceeds(a, b, i, j + 1, RowMinus(Reals(), row, a[i][j], b[j], 0, false).value);
    }
  }

  lemma BackSucceeds(a: Matrix<real>, b: Matrix<real>, m: nat)
    requires Square(a, |a|) && Square(b, |a|) && m <= |a|
    ensures Back(Reals(), a, b, m).Success?
    decreases m
  {
    if m > 0 {
      var i := m - 1;
      SubstituteSucceeds(a, b, i, i + 1, b[i]);
      var row := Substitute(Reals(), a, b, i, i + 1, b[i]).value;
      if a[i][i] != 0.0 {
        RowDividedFromReal(row, a[i][i], 0);
        BackSucceeds(a, b[i := RowDividedFrom(Reals(), row, a[i][i], 0).value], i);
      } else {
        BackSucceeds(a, b[i := row], i);
      }
    }
  }

  /** Over the exact scalars the elimination, as written or corrected, never raises: it divides
      only by pivots it has checked to be nonzero. */
  lemma EliminateSucceeds(swapB: bool, a: Matrix<real>)
    requires Square(a, |a|)
    ensures Eliminate(Reals(), swapB, a).Success?
  {
    ForwardSucceeds(swapB, a, Identity(Reals(), |a|), 0);
    var fb := Forward(Reals(), swapB, a, Identity(Reals(), |a|), 0).value;
    BackSucceeds(fb.0, fb.1, |a|);
  }

  // ---------------------------------------------------------------------------------------------
  // Matrix algebra over the scalars

  /** Σ_{q < k} v[q]·A[q][c]: entry c of the row vector v times A, over the first k rows of A. */
  function Dot(v: seq<real>, A: Matrix<real>, c: nat, k: nat): real
    requires Square(A, |v|) && c < |v| && k <= |v|
  {
    if k == 0 then 0.0 else Dot(v, A, c, k - 1) + S.Mul(v[k - 1], A[k - 1][c])
  }

  /** The row vector v times the matrix A is w. */
  predicate Maps(v: seq<real>, A: Matrix<real>, w: seq<real>) {
    Square(A, |v|) && |w| == |v| && forall c | 0 <= c < |v| :: Dot(v, A, c, |v|) == w[c]
  }

  /** The matrix product B·A of two n×n matrices. */
  function Product(B: Matrix<real>, A: Matrix<real>): Matrix<real>
    requires Square(B, |B|) && Square(A, |B|)
  {
    seq(|B|, r requires 0 <= r < |B| => seq(|B|, c requires 0 <= c < |B| => Dot(B[r], A, c, |B|)))
  }

  /** Row r of the n×n identity. */
  function Unit(n: nat, r: nat): seq<real> {
    seq(n, c => if c == r then 1.0 else 0.0)
  }

  lemma MinusTimes(x: real, t: real, y: real, a: real)
    ensures S.Mul(x - S.Mul(t, y), a) == S.Mul(x, a) - S.Mul(t, S.Mul(y, a))
  {
  }

  lemma QuotTimes(dsum: real, x: real, a: real, d: real)
    requires d != 0.0
    ensures S.Quot(dsum, d) + S.Mul(S.Quot(x, d), a) == S.Quot(dsum + S.Mul(x, a), d)
  {
  }

  /** The row r - t·p times A is (r times A) - t·(p times A). */
  lemma {:induction false} DotMinus(r: seq<real>, t: real, p: seq<real>, r2: seq<real>, A: Matrix<real>, c: nat, k: nat)
    requires Square(A, |r|) && |p| == |r| && |r2| == |r| && c < |r| && k <= |r|
    requires forall q | 0 <= q < |r| :: r2[q] == r[q] - S.Mul(t, p[q])
    ensures Dot(r2, A, c, k) == Dot(r, A, c, k) - S.Mul(t, Dot(p, A, c, k))
  {
    hide S.Mul;
    if k == 0 {
      S.MulZero(t, 0.0);
    } else {
      DotMinus(r, t, p, r2, A, c, k - 1);
      MinusTimes(r[k - 1], t, p[k - 1], A[k - 1][c]);
      S.Distrib(t, Dot(p, A, c, k), Dot(p, A, c, k - 1), S.Mul(p[k - 1], A[k - 1][c]));
    }
  }

  /** The row r/d times A is (r times A)/d. */
  lemma {:induction false} DotQuot(r: seq<real>, d: real, r2: seq<real>, A: Matrix<real>, c: nat, k: nat)
    requires Square(A, |r|) && |r2| == |r| && c < |r| && k <= |r| && d != 0.0
    requires forall q | 0 <= q < |r| :: r2[q] == S.Quot(r[q], d)
    ensures Dot(r2, A, c, k) == S.Quot(Dot(r, A, c, k), d)
  {
    hide S.Mul;
    if k == 0 {
      S.MulZero(d, 0.0);
      S.QuotUnique(0.0, 0.0, d);
    } else {
      DotQuot(r, d, r2, A, c, k - 1);
      QuotTimes(Dot(r, A, c, k - 1), r[k - 1], A[k - 1][c], d);
    }
  }

  /** Row r of the identity times A is row r of A. */
  lemma {:induction false} DotUnit(n: nat, r: nat, A: Matrix<real>, c: nat, k: nat)
    requires Square(A, n) && r < n && c < n && k <= n
    ensures Dot(Unit(n, r), A, c, k) == if r < k then A[r][c] else 0.0
  {
    hide S.Mul;
    if k > 0 {
      DotUnit(n, r, A, c, k - 1);
      if k - 1 == r {
        S.MulOne(A[k - 1][c]);
      } else {
        S.MulZero(A[k - 1][c], 0.0);
      }
    }
  }

  // ---------------------------------------------------------------------------------------------
  // The forward pass keeps b·a0 = a and clears the matrix below the diagonal

  /** Below the diagonal, the columns before i are zero. */
  predicate LowerZero(a: Matrix<real>, i: nat) {
    Square(a, |a|) && forall r, c | 0 <= c < i && c < r < |a| :: a[r][c] == 0.0
  }

  /** The forward pass's invariant at column i: every row of b times a0 is the same row of a,
      and a is zero below the diagonal in the columns before i. */
  predicate FwdInv(a0: Matrix<real>, a: Matrix<real>, b: Matrix<real>, i: nat) {
    Square(a0, |a0|) && Square(a, |a0|) && Square(b, |a0|) && i <= |a0| && LowerZero(a, i) &&
    forall r | 0 <= r < |a0| :: Maps(b[r], a0, a[r])
  }

  /** One elimination step keeps the invariant and clears a[j][i]. */
  lemma EliminateRow(a0: Matrix<real>, a: Matrix<real>, b: Matrix<real>, i: nat, j: nat)
    returns (a': Matrix<real>, b': Matrix<real>)
    requires FwdInv(a0, a, b, i) && i < j < |a0| && a[i][i] != 0.0 && a[j][i] != 0.0
    ensures RowMinus(Reals(), a[j], S.Quot(a[j][i], a[i][i]), a[i], i, true).Success?
    ensures RowMinus(Reals(), b[j], S.Quot(a[j][i], a[i][i]), b[i], 0, true).Success?
    ensures a' == a[j := RowMinus(Reals(), a[j], S.Quot(a[j][i], a[i][i]), a[i], i, true).value]
    ensures b' == b[j := RowMinus(Reals(), b[j], S.Quot(a[j][i], a[i][i]), b[i], 0, true).value]
    ensures FwdInv(a0, a', b', i) && a'[j][i] == 0.0
    ensures forall r | 0 <= r < |a0| && r != j :: a'[r] == a[r]
  {
    var n := |a0|;
    var t := S.Quot(a[j][i], a[i][i]);
    RowMinusReal(a[j], t, a[i], i, true);
    RowMinusReal(b[j], t, b[i], 0, true);
    var aj := RowMinus(Reals(), a[j], t, a[i], i, true).value;
    var bj := RowMinus(Reals(), b[j], t, b[i], 0, true).value;
    a' := a[j := aj];
    b' := b[j := bj];
    forall c | 0 <= c < n
      ensures Dot(bj, a0, c, n) == aj[c]
    {
      DotMinus(b[j], t, b[i], bj, a0, c, n);
      if c < i {
        S.MulZero(t, a[i][c]);
      }
    }
    assert Maps(b'[j], a0, a'[j]);
  }

  lemma EliminateBelowKeeps(a0: Matrix<real>, a: Matrix<real>, b: Matrix<real>, i: nat, j: nat)
    requires FwdInv(a0, a, b, i) && i < j <= |a0| && a[i][i] != 0.0
    requires forall r | i < r < j :: a[r][i] == 0.0
    ensures EliminateBelow(Reals(), a, b, i, j).Success?
    ensures FwdInv(a0, EliminateBelow(Reals(), a, b, i, j).value.0, EliminateBelow(Reals(), a, b, i, j).value.1, i + 1)
    decreases |a| - j
  {
    EliminateBelowSucceeds(true, a, b, i, j);
    if j < |a| {
      if a[j][i] == 0.0 {
        EliminateBelowKeeps(a0, a, b, i, j + 1);
      } else {
        var a', b' := EliminateRow(a0, a, b, i, j);
        EliminateBelowKeeps(a0, a', b', i, j + 1);
      }
    }
  }

  lemma SwapKeeps(a0: Matrix<real>, a: Matrix<real>, b: Matrix<real>, i: nat, l: nat)
    requires FwdInv(a0, a, b, i) && i <= l < |a0|
    ensures FwdInv(a0, Swap(a, i, l), Swap(b, i, l), i)
  {
  }

  lemma {:induction false} ForwardKeeps(a0: Matrix<real>, a: Matrix<real>, b: Matrix<real>, i: nat)
    requires FwdInv(a0, a, b, i)
    ensures Forward(Reals(), true, a, b, i).Success?
    ensures FwdInv(a0, Forward(Reals(), true, a, b, i).value.0, Forward(Reals(), true, a, b, i).value.1, |a0|)
    decreases |a0| - i
  {
    if i == |a0| {
      ForwardDone(a0, a, b);
    } else {
      hide *;
      var a2, b2 := ForwardStep(a0, a, b, i);
      ForwardKeeps(a0, a2, b2, i + 1);
    }
  }

  lemma ForwardDone(a0: Matrix<real>, a: Matrix<real>, b: Matrix<real>)
    requires FwdInv(a0, a, b, |a0|)
    ensures Forward(Reals(), true, a, b, |a0|) == Success((a, b))
  {
  }

  /** One column of the forward pass: with or without a pivot, the invariant moves one column on
      and the rest of the pass continues from the new pair. */
  lemma ForwardStep(a0: Matrix<real>, a: Matrix<real>, b: Matrix<real>, i: nat) returns (a2: Matrix<real>, b2: Matrix<real>)
    requires FwdInv(a0, a, b, i) && i < |a0|
    ensures FwdInv(a0, a2, b2, i + 1)
    ensures Forward(Reals(), true, a, b, i) == Forward(Reals(), true, a2, b2, i + 1)
  {
    var l := FirstNonzero(Reals(), a, i, i);
    if l == |a0| {
      a2, b2 := a, b;
    } else {
      var a1 := if l != i then Swap(a, i, l) else a;
      var b1 := if l != i then Swap(b, i, l) else b;
      if l != i {
        SwapKeeps(a0, a, b, i, l);
      }
      EliminateBelowKeeps(a0, a1, b1, i, i + 1);
      var r := EliminateBelow(Reals(), a1, b1, i, i + 1).value;
      a2, b2 := r.0, r.1;
    }
  }

  // ---------------------------------------------------------------------------------------------
  // The back substitution turns each row of b into a row of a0's inverse

  /** The back substitution's invariant at row m of the triangular U with nonzero diagonal: the
      rows from m on of b times a0 are rows of the identity, the rows before m still give U. */
  predicate BackInv(a0: Matrix<real>, U: Matrix<real>, b: Matrix<real>, m: nat) {
    Square(a0, |a0|) && Square(U, |a0|) && Square(b, |a0|) && m <= |a0| && LowerZero(U, |a0|) &&
    (forall r | 0 <= r < |a0| :: U[r][r] != 0.0) &&
    (forall r | m <= r < |a0| :: Maps(b[r], a0, Unit(|a0|, r))) &&
    (forall r | 0 <= r < m :: Maps(b[r], a0, U[r]))
  }

  /** Row i of U with its entries strictly between columns i and j cleared. */
  function Partial(U: Matrix<real>, i: nat, j: nat): seq<real>
    requires i < |U| && |U[i]| == |U|
  {
    seq(|U|, c requires 0 <= c < |U| => if i < c < j then 0.0 else U[i][c])
  }

  lemma {:induction false} SubstituteKeeps(a0: Matrix<real>, U: Matrix<real>, b: Matrix<real>, i: nat, j: nat, row: seq<real>)
    requires BackInv(a0, U, b, i + 1) && i < j <= |a0| && Maps(row, a0, Partial(U, i, j))
    ensures Substitute(Reals(), U, b, i, j, row).Success?
    ensures Maps(Substitute(Reals(), U, b, i, j, row).value, a0, Partial(U, i, |a0|))
    decreases |a0| - j
  {
    var n := |a0|;
    SubstituteSucceeds(U, b, i, j, row);
    if j < n {
      var t := U[i][j];
      RowMinusReal(row, t, b[j], 0, false);
      var row' := RowMinus(Reals(), row, t, b[j], 0, false).value;
      forall c | 0 <= c < n
        ensures Dot(row', a0, c, n) == Partial(U, i, j + 1)[c]
      {
        DotMinus(row, t, b[j], row', a0, c, n);
        if c == j {
          S.MulOne(t);
        } else {
          S.MulZero(t, 0.0);
        }
      }
      SubstituteKeeps(a0, U, b, i, j + 1, row');
    }
  }

  /** Dividing the fully substituted row i by its pivot gives row i of the identity. */
  lemma DivideKeeps(a0: Matrix<real>, U: Matrix<real>, i: nat, row: seq<real>)
    requires Square(a0, |a0|) && Square(U, |a0|) && i < |a0| && LowerZero(U, |a0|) && U[i][i] != 0.0
    requires Maps(row, a0, Partial(U, i, |a0|))
    ensures RowDividedFrom(Reals(), row, U[i][i], 0).Success?
    ensures Maps(RowDividedFrom(Reals(), row, U[i][i], 0).value, a0, Unit(|a0|, i))
  {
    var n := |a0|;
    var d := U[i][i];
    RowDividedFromReal(row, d, 0);
    var row' := RowDividedFrom(Reals(), row, d, 0).value;
    forall c | 0 <= c < n
      ensures Dot(row', a0, c, n) == Unit(n, i)[c]
    {
      DotQuot(row, d, row', a0, c, n);
      if c == i {
        S.MulOne(d);
        S.QuotUnique(1.0, d, d);
      } else {
        S.MulZero(d, 0.0);
        S.QuotUnique(0.0, 0.0, d);
      }
    }
  }

  lemma {:induction false} BackKeeps(a0: Matrix<real>, U: Matrix<real>, b: Matrix<real>, m: nat)
    requires BackInv(a0, U, b, m)
    ensures Back(Reals(), U, b, m).Success?
    ensures forall r | 0 <= r < |a0| :: Maps(Back(Reals(), U, b, m).value[r], a0, Unit(|a0|, r))
    decreases m
  {
    BackSucceeds(U, b, m);
    if m > 0 {
      var n := |a0|;
      var i := m - 1;
      assert Maps(b[i], a0, Partial(U, i, i + 1));
      SubstituteKeeps(a0, U, b, i, i + 1, b[i]);
      var row := Substitute(Reals(), U, b, i, i + 1, b[i]).value;
      DivideKeeps(a0, U, i, row);
      var row' := RowDividedFrom(Reals(), row, U[i][i], 0).value;
      BackKeeps(a0, U, b[i := row'], i);
    }
  }

  // ---------------------------------------------------------------------------------------------
  // The inverse

  /** The triangular form the forward pass reaches has no zero on its diagonal (for the scalars,
      the condition under which the input is invertible). */
  predicate Pivoted(a0: Matrix<real>)
    requires Square(a0, |a0|)
  {
    var f := Forward(Reals(), true, a0, Identity(Reals(), |a0|), 0);
    f.Success? && forall r | 0 <= r < |a0| :: f.value.0[r][r] != 0.0
  }

  /** The identity is a valid start: each of its rows times a0 is the same row of a0. */
  lemma ForwardStart(a0: Matrix<real>)
    requires Square(a0, |a0|)
    ensures FwdInv(a0, a0, Identity(Reals(), |a0|), 0)
  {
    var n := |a0|;
    forall r | 0 <= r < n
      ensures Maps(Identity(Reals(), n)[r], a0, a0[r])
    {
      assert Identity(Reals(), n)[r] == Unit(n, r);
      forall c | 0 <= c < n
        ensures Dot(Unit(n, r), a0, c, n) == a0[r][c]
      {
        DotUnit(n, r, a0, c, n);
      }
    }
  }

  /** The corrected elimination returns a left inverse of every matrix whose forward pass finds
      a pivot in each column. */
  lemma GaussJordanInverse(a0: Matrix<real>)
    requires Square(a0, |a0|) && Pivoted(a0)
    ensures GaussJordan(Reals(), a0).Success?
    ensures Product(GaussJordan(Reals(), a0).value, a0) == Identity(Reals(), |a0|)
  {
    var n := |a0|;
    ForwardStart(a0);
    ForwardKeeps(a0, a0, Identity(Reals(), n), 0);
    var fb := Forward(Reals(), true, a0, Identity(Reals(), n), 0).value;
    assert BackInv(a0, fb.0, fb.1, n);
    BackKeeps(a0, fb.0, fb.1, n);
    var inv := Back(Reals(), fb.0, fb.1, n).value;
    assert GaussJordan(Reals(), a0) == Success(inv);
    ProductIdentity(inv, a0);
  }

  /** A matrix each of whose rows times a0 is the same row of the identity is a left inverse. */
  lemma ProductIdentity(inv: Matrix<real>, a0: Matrix<real>)
    requires Square(a0, |a0|) && Square(inv, |a0|)
    requires forall r | 0 <= r < |a0| :: Maps(inv[r], a0, Unit(|a0|, r))
    ensures Product(inv, a0) == Identity(Reals(), |a0|)
  {
    var n := |a0|;
    forall r | 0 <= r < n
      ensures Product(inv, a0)[r] == Identity(Reals(), n)[r]
    {
      assert Maps(inv[r], a0, Unit(n, r));
    }
  }

  /** The elimination as written returns a left inverse when, besides finding every pivot, its
      forward pass exchanges no rows. */
  lemma GaussianEliminationInverse(a0: Matrix<real>)
    requires Square(a0, |a0|) && Pivoted(a0) && NoExchange(Reals(), a0, Identity(Reals(), |a0|), 0)
    ensures GaussianElimination(Reals(), a0).Success?
    ensures Product(GaussianElimination(Reals(), a0).value, a0) == Identity(Reals(), |a0|)
  {
    AsWrittenWithoutExchange(Reals(), a0);
    GaussJordanInverse(a0);
  }

  // ---------------------------------------------------------------------------------------------
  // The row exchange of line 21 applied to `a` only

  /** The 2×2 exchange matrix: its first column needs a row exchange to find a pivot. */
  const Flip: Matrix<real> := [[0.0, 1.0], [1.0, 0.0]]

  /** The 2×2 identity, written out. */
  const I2: Matrix<real> := [[1.0, 0.0], [0.0, 1.0]]

  lemma IdentityTwo()
    ensures Identity(Reals(), 2) == I2
  {
    assert Identity(Reals(), 2)[0] == I2[0];
    assert Identity(Reals(), 2)[1] == I2[1];
  }

  /** A 2×2 product, written out. */
  lemma ProductTwo(B: Matrix<real>, A: Matrix<real>)
    requires Square(B, 2) && Square(A, 2)
    ensures Product(B, A) == [[S.Mul(B[0][0], A[0][0]) + S.Mul(B[0][1], A[1][0]), S.Mul(B[0][0], A[0][1]) + S.Mul(B[0][1], A[1][1])],
                              [S.Mul(B[1][0], A[0][0]) + S.Mul(B[1][1], A[1][0]), S.Mul(B[1][0], A[0][1]) + S.Mul(B[1][1], A[1][1])]]
  {
    hide S.Mul;
    DotTwo(B[0], A, 0);
    DotTwo(B[0], A, 1);
    DotTwo(B[1], A, 0);
    DotTwo(B[1], A, 1);
    assert Product(B, A)[0] == [Dot(B[0], A, 0, 2), Dot(B[0], A, 1, 2)];
    assert Product(B, A)[1] == [Dot(B[1], A, 0, 2), Dot(B[1], A, 1, 2)];
  }

  lemma DotTwo(v: seq<real>, A: Matrix<real>, c: nat)
    requires |v| == 2 && Square(A, 2) && c < 2
    ensures Dot(v, A, c, 2) == S.Mul(v[0], A[0][c]) + S.Mul(v[1], A[1][c])
  {
    hide S.Mul;
    assert Dot(v, A, c, 1) == 0.0 + S.Mul(v[0], A[0][c]);
  }

  /** The exchange matrix is its own inverse. */
  lemma FlipSelfInverse()
    ensures Product(Flip, Flip) == Identity(Reals(), 2)
  {
    ProductTwo(Flip, Flip);
    IdentityTwo();
  }

  /** The forward pass on the exchange matrix: it exchanges the two rows of a (and of b when
      `swapB` is set) and then has nothing left to eliminate. */
  lemma FlipForward(swapB: bool)
    ensures Forward(Reals(), swapB, Flip, Identity(Reals(), 2), 0) == Success((I2, if swapB then Flip else I2))
  {
    IdentityTwo();
    assert FirstNonzero(Reals(), Flip, 0, 0) == 1;
    assert Swap(Flip, 0, 1) == I2;
    assert Swap(I2, 0, 1) == Flip;
    var b1 := if swapB then Flip else I2;
    assert EliminateBelow(Reals(), I2, b1, 0, 1) == Success((I2, b1));
    assert FirstNonzero(Reals(), I2, 1, 1) == 1;
    assert EliminateBelow(Reals(), I2, b1, 1, 2) == Success((I2, b1));
    assert Forward(Reals(), swapB, I2, b1, 1) == Success((I2, b1));
  }

  /** Subtracting zero multiples of the later rows leaves a row unchanged. */
  lemma {:induction false} SubstituteIdentity(b: Matrix<real>, i: nat, j: nat, row: seq<real>)
    requires Square(b, |b|) && i < j <= |b| && |row| == |b|
    ensures Substitute(Reals(), Identity(Reals(), |b|), b, i, j, row) == Success(row)
    decreases |b| - j
  {
    if j < |b| {
      RowMinusReal(row, 0.0, b[j], 0, false);
      forall q | 0 <= q < |row|
        ensures row[q] - S.Mul(0.0, b[j][q]) == row[q]
      {
        S.MulZero(b[j][q], 0.0);
      }
      assert RowMinus(Reals(), row, 0.0, b[j], 0, false).value == row;
      SubstituteIdentity(b, i, j + 1, row);
    }
  }

  /** Against the identity, the back substitution divides every row by 1 and subtracts nothing,
      so it returns b unchanged. */
  lemma {:induction false} BackIdentity(b: Matrix<real>, m: nat)
    requires Square(b, |b|) && m <= |b|
    ensures Back(Reals(), Identity(Reals(), |b|), b, m) == Success(b)
    decreases m
  {
    if m > 0 {
      var i := m - 1;
      SubstituteIdentity(b, i, i + 1, b[i]);
      RowDividedFromReal(b[i], 1.0, 0);
      forall q | 0 <= q < |b|
        ensures S.Quot(b[i][q], 1.0) == b[i][q]
      {
        S.MulOne(b[i][q]);
        S.QuotUnique(b[i][q], b[i][q], 1.0);
      }
      assert RowDividedFrom(Reals(), b[i], 1.0, 0).value == b[i];
      assert b[i := b[i]] == b;
      BackIdentity(b, i);
    }
  }

  /** As written, the elimination returns the identity for the exchange matrix, which is not its
      inverse: the identity times the exchange matrix is the exchange matrix. */
  lemma FlipAsWrittenWrong()
    ensures GaussianElimination(Reals(), Flip) == Success(Identity(Reals(), 2))
    ensures Product(Identity(Reals(), 2), Flip) == Flip
    ensures Flip != Identity(Reals(), 2)
  {
    IdentityTwo();
    FlipForward(false);
    BackIdentity(I2, 2);
    ProductTwo(I2, Flip);
    assert Flip[0][0] != I2[0][0];
  }

  /** Corrected, the elimination returns the exchange matrix itself, its true inverse. */
  lemma FlipCorrected()
    ensures GaussJordan(Reals(), Flip) == Success(Flip)
    ensures Product(Flip, Flip) == Identity(Reals(), 2)
  {
    IdentityTwo();
    FlipForward(true);
    BackIdentity(Flip, 2);
    FlipSelfInverse();
  }
}
