/** `MatrixInversion<T>::gaussianElimination` (src/MatrixInversion.h): Gauss–Jordan elimination of a
    square matrix over a field, accumulating the inverse in a second matrix `b` that starts as the
    identity. The original is a template; here the element type is a parameter `T` together with a
    record of the field operations it uses, so the same definition serves the exact scalars and the
    rational functions of the generating-function computation. */
module Matrices {
  import opened Wrappers
  import S = Scalars

  /** The operations of the element type that the elimination uses. An arithmetic operation may
      fail (the rational functions' operations raise `ZeroInversion`), and a failure aborts the
      whole elimination, as the exception does in the original. */
  datatype Field<!T> = Field(
    zero: T,
    one: T,
    isZero: T -> bool,
    add: (T, T) -> Result<T>,
    sub: (T, T) -> Result<T>,
    mul: (T, T) -> Result<T>,
    div: (T, T) -> Result<T>)

  type Matrix<T> = seq<seq<T>>

  /** An n×n matrix stored by rows. */
  predicate Square<T>(m: Matrix<T>, n: nat) {
    |m| == n && forall r | 0 <= r < n :: |m[r]| == n
  }

  /** The n×n identity (lines 10-13). */
  function Identity<T>(F: Field<T>, n: nat): (m: Matrix<T>)
    ensures Square(m, n)
    ensures forall r, c | 0 <= r < n && 0 <= c < n :: m[r][c] == if r == c then F.one else F.zero
  {
    seq(n, r => seq(n, c => if r == c then F.one else F.zero))
  }

  /** x - t·y, or x - y·t when `tLeft` is false: the update of one entry. */
  function EntryMinus<T>(F: Field<T>, x: T, t: T, y: T, tLeft: bool): Result<T> {
    var m :- if tLeft then F.mul(t, y) else F.mul(y, t);
    F.sub(x, m)
  }

  /** Entries k.. of row r, each one at a column `>= from` replaced by r[q] - t·p[q]. */
  function RowMinusFrom<T>(F: Field<T>, r: seq<T>, t: T, p: seq<T>, from: nat, tLeft: bool, k: nat)
    : (res: Result<seq<T>>)
    requires |p| == |r| && k <= |r|
    ensures res.Success? ==> |res.value| == |r| - k
    decreases |r| - k
  {
    if k == |r| then Success([])
    else
      var rest :- RowMinusFrom(F, r, t, p, from, tLeft, k + 1);
      if k < from then Success([r[k]] + rest)
      else
        var x :- EntryMinus(F, r[k], t, p[k], tLeft);
        Success([x] + rest)
  }

  /** Row r minus t times row p at the columns from `from` on; the other columns are kept. */
  function RowMinus<T>(F: Field<T>, r: seq<T>, t: T, p: seq<T>, from: nat, tLeft: bool): (res: Result<seq<T>>)
    requires |p| == |r|
    ensures res.Success? ==> |res.value| == |r|
  {
    RowMinusFrom(F, r, t, p, from, tLeft, 0)
  }

  /** Entries k.. of row r, each divided by d. */
  function RowDividedFrom<T>(F: Field<T>, r: seq<T>, d: T, k: nat): (res: Result<seq<T>>)
    requires k <= |r|
    ensures res.Success? ==> |res.value| == |r| - k
    decreases |r| - k
  {
    if k == |r| then Success([])
    else
      var rest :- RowDividedFrom(F, r, d, k + 1);
      var x :- F.div(r[k], d);
      Success([x] + rest)
  }

  /** Lines 15-18: the first row at or after l whose entry in column i is nonzero, or n. */
  function FirstNonzero<T>(F: Field<T>, a: Matrix<T>, i: nat, l: nat): (r: nat)
    requires Square(a, |a|) && i < |a| && l <= |a|
    ensures l <= r <= |a|
    ensures r < |a| ==> !F.isZero(a[r][i])
    ensures forall m | l <= m < r :: F.isZero(a[m][i])
    decreases |a| - l
  {
    if l == |a| || !F.isZero(a[l][i]) then l else FirstNonzero(F, a, i, l + 1)
  }

  /** Rows i and l exchanged. */
  function Swap<T>(m: Matrix<T>, i: nat, l: nat): Matrix<T>
    requires i < |m| && l < |m|
  {
    m[i := m[l]][l := m[i]]
  }

  /** Lines 24-35: clear column i below the pivot a[i][i], from row j on. A row whose entry in
      column i is already zero is skipped; otherwise t = a[j][i] / a[i][i] and row j of `a`
      (columns i..) and of `b` (all columns) lose t times row i. */
  function EliminateBelow<T>(F: Field<T>, a: Matrix<T>, b: Matrix<T>, i: nat, j: nat)
    : (res: Result<(Matrix<T>, Matrix<T>)>)
    requires Square(a, |a|) && Square(b, |a|) && i < j <= |a|
    ensures res.Success? ==> Square(res.value.0, |a|) && Square(res.value.1, |a|)
    decreases |a| - j
  {
    if j == |a| then Success((a, b))
    else if F.isZero(a[j][i]) then EliminateBelow(F, a, b, i, j + 1)
    else
      var t :- F.div(a[j][i], a[i][i]);
      var bj :- RowMinus(F, b[j], t, b[i], 0, true);
      var aj :- RowMinus(F, a[j], t, a[i], i, true);
      EliminateBelow(F, a[j := aj], b[j := bj], i, j + 1)
  }

  /** Lines 14-38, from column i on: find a pivot row, bring it to row i, clear the column below
      it; a column without a pivot is passed over. The original exchanges the rows of `a` only; `swapB` says whether the rows of `b` are
      exchanged with them. */
  function Forward<T>(F: Field<T>, swapB: bool, a: Matrix<T>, b: Matrix<T>, i: nat)
    : (res: Result<(Matrix<T>, Matrix<T>)>)
    requires Square(a, |a|) && Square(b, |a|) && i <= |a|
    ensures res.Success? ==> Square(res.value.0, |a|) && Square(res.value.1, |a|)
    decreases |a| - i
  {
    if i == |a| then Success((a, b))
    else
      var l := FirstNonzero(F, a, i, i);
      if l == |a| then Forward(F, swapB, a, b, i + 1)
      else
        var a1 := if l != i then Swap(a, i, l) else a;
        var b1 := if l != i && swapB then Swap(b, i, l) else b;
        // The test of line 23 always passes: a1[i][i] is the nonzero entry that was found.
        var r :- EliminateBelow(F, a1, b1, i, i + 1);
        Forward(F, swapB, r.0, r.1, i + 1)
  }

  /** Lines 40-44: row `row` (row i of b) loses b[j]·a[i][j] for every later row j. */
  function Substitute<T>(F: Field<T>, a: Matrix<T>, b: Matrix<T>, i: nat, j: nat, row: seq<T>)
    : (res: Result<seq<T>>)
    requires Square(a, |a|) && Square(b, |a|) && i < j <= |a| && |row| == |a|
    ensures res.Success? ==> |res.value| == |a|
    decreases |a| - j
  {
    if j == |a| then Success(row)
    else
      var row' :- RowMinus(F, row, a[i][j], b[j], 0, false);
      Substitute(F, a, b, i, j + 1, row')
  }

  /** Lines 39-52: rows m-1 down to 0 of b, each first reduced by the rows below it and then
      divided by its pivot when the pivot is nonzero. */
  function Back<T>(F: Field<T>, a: Matrix<T>, b: Matrix<T>, m: nat): (res: Result<Matrix<T>>)
    requires Square(a, |a|) && Square(b, |a|) && m <= |a|
    ensures res.Success? ==> Square(res.value, |a|)
    decreases m
  {
    if m == 0 then Success(b)
    else
      var i := m - 1;
      var row :- Substitute(F, a, b, i, i + 1, b[i]);
      var row' :- if !F.isZero(a[i][i]) then RowDividedFrom(F, row, a[i][i], 0) else Success(row);
      Back(F, a, b[i := row'], i)
  }

  /** The whole elimination: the forward pass from the identity, then the back substitution. */
  function Eliminate<T>(F: Field<T>, swapB: bool, a: Matrix<T>): (res: Result<Matrix<T>>)
    requires Square(a, |a|)
    ensures res.Success? ==> Square(res.value, |a|)
  {
    var fb :- Forward(F, swapB, a, Identity(F, |a|), 0);
    Back(F, fb.0, fb.1, |a|)
  }

  /** `gaussianElimination` as written: a pivot row is exchanged in `a` but not in `b`. */
  function GaussianElimination<T>(F: Field<T>, a: Matrix<T>): (res: Result<Matrix<T>>)
    requires Square(a, |a|)
    ensures res.Success? ==> Square(res.value, |a|)
  {
    Eliminate(F, false, a)
  }

  /** The evidently intended elimination: pivot rows are exchanged in both matrices. */
  function GaussJordan<T>(F: Field<T>, a: Matrix<T>): (res: Result<Matrix<T>>)
    requires Square(a, |a|)
    ensures res.Success? ==> Square(res.value, |a|)
  {
    Eliminate(F, true, a)
  }

  /** Every column from i on finds its pivot in its own row (or has none): the forward pass
      exchanges no rows. */
  predicate NoExchange<T>(F: Field<T>, a: Matrix<T>, b: Matrix<T>, i: nat)
    requires Square(a, |a|) && Square(b, |a|) && i <= |a|
    decreases |a| - i
  {
    if i == |a| then true
    else
      var l := FirstNonzero(F, a, i, i);
      if l == |a| then NoExchange(F, a, b, i + 1)
      else
        l == i &&
        var r := EliminateBelow(F, a, b, i, i + 1);
        r.Success? ==> NoExchange(F, r.value.0, r.value.1, i + 1)
  }

  /** Without exchanges, whether `b` would be exchanged too makes no difference. */
  lemma {:induction false} ForwardWithoutExchange<T>(F: Field<T>, a: Matrix<T>, b: Matrix<T>, i: nat)
    requires Square(a, |a|) && Square(b, |a|) && i <= |a| && NoExchange(F, a, b, i)
    ensures Forward(F, false, a, b, i) == Forward(F, true, a, b, i)
    decreases |a| - i
  {
    if i < |a| {
      var l := FirstNonzero(F, a, i, i);
      if l == |a| {
        ForwardWithoutExchange(F, a, b, i + 1);
      } else {
        var r := EliminateBelow(F, a, b, i, i + 1);
        if r.Success? {
          ForwardWithoutExchange(F, r.value.0, r.value.1, i + 1);
        }
      }
    }
  }

  /** So on an input whose forward pass exchanges no rows, the elimination as written computes
      what the corrected one does. */
  lemma AsWrittenWithoutExchange<T>(F: Field<T>, a: Matrix<T>)
    requires Square(a, |a|) && NoExchange(F, a, Identity(F, |a|), 0)
    ensures GaussianElimination(F, a) == GaussJordan(F, a)
  {
    ForwardWithoutExchange(F, a, Identity(F, |a|), 0);
  }
}
