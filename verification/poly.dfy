/** `Polynomial<T>` over an exact field: a coefficient vector, lowest degree first, which every
    constructor trims so that the last stored coefficient is nonzero. Coefficients are exact
    `real`s here (the role `Rational` plays in the original). */
module Polynomials {
  import S = Scalars
  import opened Wrappers

  /** The class invariant kept by `setCoefficients`: no trailing zero coefficient. */
  predicate Trimmed(s: seq<real>) {
    |s| == 0 || s[|s| - 1] != 0.0
  }

  type Poly = p: seq<real> | Trimmed(p) witness []

  /** Coefficient of x^k; zero outside the stored range. */
  function Coef(s: seq<real>, k: int): real {
    if 0 <= k < |s| then s[k] else 0.0
  }

  /** `setCoefficients`: drop trailing zero coefficients. */
  function Trim(s: seq<real>): (r: Poly)
    ensures |r| <= |s| && r == s[..|r|]
    ensures forall k :: |r| <= k < |s| ==> s[k] == 0.0
    ensures forall k :: Coef(r, k) == Coef(s, k)
    ensures Trimmed(s) ==> r == s
    decreases |s|
  {
    if |s| == 0 || s[|s| - 1] != 0.0 then s else Trim(s[..|s| - 1])
  }

  /** Two trimmed vectors with the same coefficients are the same vector. */
  lemma CoefExtensional(a: Poly, b: Poly)
    requires forall k :: Coef(a, k) == Coef(b, k)
    ensures a == b
  {
    if |b| > 0 {
      assert Coef(a, |b| - 1) == Coef(b, |b| - 1);
    }
    if |a| > 0 {
      assert Coef(a, |a| - 1) == Coef(b, |a| - 1);
    }
    assert |a| == |b|;
    forall k | 0 <= k < |a| ensures a[k] == b[k] {
      assert Coef(a, k) == Coef(b, k);
    }
  }

  /** The zero polynomial, as the default constructor builds it. */
  const Zero: Poly := []

  /** A constant polynomial, as `Polynomial({c})` builds it. */
  function Constant(c: real): (r: Poly)
    ensures forall k :: Coef(r, k) == (if k == 0 then c else 0.0)
    ensures r == Zero <==> c == 0.0
  {
    Trim([c])
  }

  /** `degree()`: size - 1 in `unsigned int`, so the zero polynomial wraps to 2^32 - 1. */
  function Degree(p: Poly): (d: nat)
    ensures d < 0x1_0000_0000
    ensures 0 < |p| <= 0x1_0000_0000 ==> d + 1 == |p| && Coef(p, d) != 0.0 && forall k :: k > d ==> Coef(p, k) == 0.0
    ensures p == Zero ==> d == 0xFFFF_FFFF
  {
    (|p| - 1) % 0x1_0000_0000
  }

  /** Unary minus. */
  function Neg(p: Poly): (r: Poly)
    ensures |r| == |p|
    ensures forall k :: Coef(r, k) == -Coef(p, k)
  {
    Trim(seq(|p|, i requires 0 <= i < |p| => -p[i]))
  }

  /** Binary plus: coefficient-wise sum over the longer length, then trimmed. */
  function Add(a: Poly, b: Poly): (r: Poly)
    ensures |r| <= if |a| < |b| then |b| else |a|
    ensures forall k :: Coef(r, k) == Coef(a, k) + Coef(b, k)
  {
    var n := if |a| < |b| then |b| else |a|;
    Trim(seq(n, i => Coef(a, i) + Coef(b, i)))
  }

  /** Binary minus: coefficient-wise difference over the longer length, then trimmed. */
  function Sub(a: Poly, b: Poly): (r: Poly)
    ensures |r| <= if |a| < |b| then |b| else |a|
    ensures forall k :: Coef(r, k) == Coef(a, k) - Coef(b, k)
  {
    var n := if |a| < |b| then |b| else |a|;
    Trim(seq(n, i => Coef(a, i) - Coef(b, i)))
  }

  /** Σ_i a[i]·b[k-i]: the coefficient of x^k in a product, summed over the first factor. */
  function Conv(a: seq<real>, b: seq<real>, k: int): real
    decreases |a|
  {
    if |a| == 0 then 0.0 else S.Mul(a[0], Coef(b, k)) + Conv(a[1..], b, k - 1)
  }

  /** Binary times: the double loop accumulates a[i]·b[j] into slot i+j of a vector of length
      n+m-1; an empty factor gives the zero polynomial. */
  function Mul(a: Poly, b: Poly): (r: Poly)
    ensures forall k :: Coef(r, k) == Conv(a, b, k)
    ensures a != Zero && b != Zero ==> |r| == |a| + |b| - 1
    ensures a == Zero || b == Zero ==> r == Zero
  {
    if |a| == 0 || |b| == 0 then
      assert forall k :: Conv(a, b, k) == 0.0 by {
        forall k ensures Conv(a, b, k) == 0.0 { ConvOutside(a, b, k); }
      }
      Zero
    else
      var s := seq(|a| + |b| - 1, k => Conv(a, b, k));
      forall k ensures Coef(s, k) == Conv(a, b, k) { ConvOutside(a, b, k); }
      ConvTop(a, b);
      S.MulZeroIff(a[|a| - 1], b[|b| - 1]);
      Trim(s)
  }

  /** Outside 0..|a|+|b|-2, and with an empty factor, the convolution vanishes. */
  lemma {:induction false} ConvOutside(a: seq<real>, b: seq<real>, k: int)
    ensures k < 0 || k >= |a| + |b| - 1 || |b| == 0 ==> Conv(a, b, k) == 0.0
    decreases |a|
  {
    if |a| > 0 {
      ConvOutside(a[1..], b, k - 1);
      if k < 0 || k >= |a| + |b| - 1 || |b| == 0 {
        S.MulZero(a[0], Coef(b, k));
      }
    }
  }

  /** The top coefficient of a product is the product of the top coefficients. */
  lemma {:induction false} ConvTop(a: seq<real>, b: seq<real>)
    requires |a| > 0 && |b| > 0
    ensures Conv(a, b, |a| + |b| - 2) == S.Mul(a[|a| - 1], b[|b| - 1])
    decreases |a|
  {
    if |a| == 1 {
      ConvOutside(a[1..], b, |b| - 2);
    } else {
      S.MulZero(a[0], Coef(b, |a| + |b| - 2));
      ConvTop(a[1..], b);
    }
  }


  /** The constant term of a product is the product of the constant terms. */
  lemma ConvAtZero(a: seq<real>, b: seq<real>)
    ensures Conv(a, b, 0) == S.Mul(Coef(a, 0), Coef(b, 0))
  {
    if |a| == 0 {
      S.MulZero(Coef(b, 0), 0.0);
    } else {
      ConvOutside(a[1..], b, -1);
    }
  }

  /** The convolution reads its first factor through `Coef` only: trailing zeros do not matter. */
  lemma {:induction false} ConvCoefs(a: seq<real>, a': seq<real>, b: seq<real>, k: int)
    requires forall j :: Coef(a, j) == Coef(a', j)
    ensures Conv(a, b, k) == Conv(a', b, k)
    decreases |a| + |a'|
  {
    if |a| > 0 && |a'| > 0 {
      assert a[0] == Coef(a, 0) == Coef(a', 0) == a'[0];
      forall j ensures Coef(a[1..], j) == Coef(a'[1..], j) {
        assert Coef(a, j + 1) == Coef(a', j + 1);
      }
      ConvCoefs(a[1..], a'[1..], b, k - 1);
    } else if |a| > 0 {
      ConvVanishes(a, b, k);
    } else if |a'| > 0 {
      ConvVanishes(a', b, k);
    }
  }

  /** A factor whose coefficients are all zero contributes nothing. */
  lemma {:induction false} ConvVanishes(a: seq<real>, b: seq<real>, k: int)
    requires forall j :: Coef(a, j) == 0.0
    ensures Conv(a, b, k) == 0.0
    decreases |a|
  {
    if |a| > 0 {
      assert a[0] == Coef(a, 0);
      forall j ensures Coef(a[1..], j) == 0.0 {
        assert Coef(a, j + 1) == 0.0;
      }
      ConvVanishes(a[1..], b, k - 1);
      S.MulZero(Coef(b, k), a[0]);
    }
  }

  /** Horner evaluation of the coefficients i..n-1, read through `Coef`:
      c_i + x·(c_{i+1} + x·(… + x·c_{n-1})). */
  function Horner(s: seq<real>, i: nat, n: nat, x: real): real
    decreases n - i
  {
    if i >= n then 0.0 else Coef(s, i) + S.Mul(x, Horner(s, i + 1, n, x))
  }

  /** The value of a coefficient vector at x. */
  function Eval(s: seq<real>, x: real): real {
    Horner(s, 0, |s|, x)
  }

  /** x^e. */
  function Power(x: real, e: nat): real {
    if e == 0 then 1.0 else S.Mul(x, Power(x, e - 1))
  }

  /** Σ_{k<n} c_k·x^k: the textbook meaning of a polynomial's value. */
  function PowerSum(s: seq<real>, n: nat, x: real): real {
    if n == 0 then 0.0 else PowerSum(s, n - 1, x) + S.Mul(Coef(s, n - 1), Power(x, n - 1))
  }

  /** `operator()`: from the top coefficient down, multiply the accumulator by x and add the
      next coefficient. The result is the power sum Σ c_k·x^k. */
  method Evaluate(p: Poly, x: real) returns (r: real)
    ensures r == PowerSum(p, |p|, x)
    ensures r == Eval(p, x)
  {
    r := 0.0;
    var i := |p|;
    while i > 0
      invariant 0 <= i <= |p|
      invariant r == Horner(p, i, |p|, x)
    {
      i := i - 1;
      S.MulComm(r, x);
      r := S.Mul(r, x) + p[i];
    }
    HornerIsPowerSum(p, |p|, x);
  }

  lemma HornerUnfold(s: seq<real>, i: nat, n: nat, x: real)
    requires i < n
    ensures Horner(s, i, n, x) == Coef(s, i) + S.Mul(x, Horner(s, i + 1, n, x))
  {
  }

  /** Horner's rule over 0..n-1 is the power sum of the first n coefficients. */
  lemma {:induction false} HornerIsPowerSum(s: seq<real>, n: nat, x: real)
    ensures Horner(s, 0, n, x) == PowerSum(s, n, x)
  {
    if n > 0 {
      HornerIsPowerSum(s, n - 1, x);
      HornerAppend(s, 0, n - 1, x);
    }
  }

  /** Extending the range by one coefficient at the top adds c_n·x^(n-i). */
  lemma {:induction false} HornerAppend(s: seq<real>, i: nat, n: nat, x: real)
    requires i <= n
    ensures Horner(s, i, n + 1, x) == Horner(s, i, n, x) + S.Mul(Coef(s, n), Power(x, n - i))
    decreases n - i
  {
    hide S.Mul;
    HornerUnfold(s, i, n + 1, x);
    if i == n {
      assert Horner(s, i + 1, n + 1, x) == 0.0;
      S.MulZero(x, 0.0);
      S.MulOne(Coef(s, n));
    } else {
      HornerAppend(s, i + 1, n, x);
      HornerUnfold(s, i, n, x);
      AppendStep(x, Coef(s, n), Power(x, n - i - 1), Horner(s, i + 1, n, x), Horner(s, i + 1, n + 1, x));
    }
  }

  lemma AppendStep(x: real, c: real, p: real, h: real, h1: real)
    requires h1 == h + S.Mul(c, p)
    ensures S.Mul(x, h1) == S.Mul(x, h) + S.Mul(c, S.Mul(x, p))
  {
  }

  /** Coefficients at or beyond the stored length contribute nothing. */
  lemma {:induction false} HornerBeyond(s: seq<real>, i: nat, n: nat, x: real)
    requires i >= |s|
    ensures Horner(s, i, n, x) == 0.0
    decreases n - i
  {
    hide S.Mul;
    if i < n {
      HornerBeyond(s, i + 1, n, x);
      HornerUnfold(s, i, n, x);
      S.MulZero(x, Horner(s, i + 1, n, x));
    }
  }

  /** Evaluating over any range that covers the stored coefficients gives the value. */
  lemma {:induction false} HornerPadded(s: seq<real>, i: nat, n: nat, x: real)
    requires i <= |s| <= n
    ensures Horner(s, i, n, x) == Horner(s, i, |s|, x)
    decreases |s| - i
  {
    hide S.Mul;
    if i == |s| {
      HornerBeyond(s, i, n, x);
    } else {
      HornerPadded(s, i + 1, n, x);
      HornerUnfold(s, i, n, x);
      HornerUnfold(s, i, |s|, x);
      S.MulCong(x, Horner(s, i + 1, n, x), Horner(s, i + 1, |s|, x));
    }
  }

  lemma EvalPadded(s: seq<real>, n: nat, x: real)
    requires |s| <= n
    ensures Eval(s, x) == Horner(s, 0, n, x)
  {
    HornerPadded(s, 0, n, x);
  }

  /** Horner evaluation is additive in the coefficients. */
  lemma {:induction false} HornerSum(s: seq<real>, t: seq<real>, u: seq<real>, i: nat, n: nat, x: real)
    requires forall k :: Coef(s, k) == Coef(t, k) + Coef(u, k)
    ensures Horner(s, i, n, x) == Horner(t, i, n, x) + Horner(u, i, n, x)
    decreases n - i
  {
    hide S.Mul;
    if i < n {
      HornerSum(s, t, u, i + 1, n, x);
      HornerUnfold(s, i, n, x);
      HornerUnfold(t, i, n, x);
      HornerUnfold(u, i, n, x);
      assert Coef(s, i) == Coef(t, i) + Coef(u, i);
      S.Distrib(x, Horner(s, i + 1, n, x), Horner(t, i + 1, n, x), Horner(u, i + 1, n, x));
    }
  }

  /** Horner evaluation is homogeneous in the coefficients. */
  lemma {:induction false} HornerScale(s: seq<real>, t: seq<real>, c: real, i: nat, n: nat, x: real)
    requires forall k :: Coef(s, k) == S.Mul(c, Coef(t, k))
    ensures Horner(s, i, n, x) == S.Mul(c, Horner(t, i, n, x))
    decreases n - i
  {
    hide S.Mul;
    if i < n {
      HornerScale(s, t, c, i + 1, n, x);
      HornerUnfold(s, i, n, x);
      HornerUnfold(t, i, n, x);
      S.ScaleStep(x, c, Coef(t, i), Horner(t, i + 1, n, x), Horner(t, i, n, x),
        Coef(s, i), Horner(s, i + 1, n, x), Horner(s, i, n, x));
    } else {
      S.MulZero(c, Horner(t, i, n, x));
    }
  }

  /** Evaluation depends on the coefficients only, not on how many are stored, and is linear. */
  lemma EvalSum(s: seq<real>, t: seq<real>, u: seq<real>, x: real)
    requires forall k :: Coef(s, k) == Coef(t, k) + Coef(u, k)
    ensures Eval(s, x) == Eval(t, x) + Eval(u, x)
  {
    var n := |s| + |t| + |u|;
    EvalPadded(s, n, x);
    EvalPadded(t, n, x);
    EvalPadded(u, n, x);
    HornerSum(s, t, u, 0, n, x);
  }

  lemma EvalScale(s: seq<real>, t: seq<real>, c: real, x: real)
    requires forall k :: Coef(s, k) == S.Mul(c, Coef(t, k))
    ensures Eval(s, x) == S.Mul(c, Eval(t, x))
  {
    var n := |s| + |t|;
    EvalPadded(s, n, x);
    EvalPadded(t, n, x);
    HornerScale(s, t, c, 0, n, x);
  }

  lemma EvalEmpty(x: real)
    ensures Eval([], x) == 0.0
  {
  }

  /** Vectors with the same coefficients evaluate alike. */
  lemma EvalCoefs(s: seq<real>, t: seq<real>, x: real)
    requires forall k :: Coef(s, k) == Coef(t, k)
    ensures Eval(s, x) == Eval(t, x)
  {
    EvalSum(s, t, [], x);
  }

  /** The value of a constant polynomial. */
  lemma EvalConstant(c: real, x: real)
    ensures Eval(Constant(c), x) == c
  {
    EvalCoefs(Constant(c), [c], x);
    HornerUnfold([c], 0, 1, x);
    S.MulZero(x, Horner([c], 1, 1, x));
  }

  /** Negation, sum and difference of polynomials evaluate pointwise. */
  lemma EvalNeg(p: Poly, x: real)
    ensures Eval(Neg(p), x) == -Eval(p, x)
  {
    EvalSum([], Neg(p), p, x);
  }

  lemma EvalAdd(a: Poly, b: Poly, x: real)
    ensures Eval(Add(a, b), x) == Eval(a, x) + Eval(b, x)
  {
    EvalSum(Add(a, b), a, b, x);
  }

  lemma EvalSub(a: Poly, b: Poly, x: real)
    ensures Eval(Sub(a, b), x) == Eval(a, x) - Eval(b, x)
  {
    EvalSum(a, Sub(a, b), b, x);
  }

  /** Shifting the coefficients up by one multiplies the value by x. */
  lemma EvalShift(s: seq<real>, x: real)
    ensures Eval([0.0] + s, x) == S.Mul(x, Eval(s, x))
  {
    var r := [0.0] + s;
    HornerUnfold(r, 0, |r|, x);
    HornerShifted(s, 0, |s|, x);
  }

  lemma {:induction false} HornerShifted(s: seq<real>, i: nat, n: nat, x: real)
    ensures Horner([0.0] + s, i + 1, n + 1, x) == Horner(s, i, n, x)
    decreases n - i
  {
    hide S.Mul;
    if i < n {
      HornerShifted(s, i + 1, n, x);
      HornerUnfold([0.0] + s, i + 1, n + 1, x);
      HornerUnfold(s, i, n, x);
      S.MulCong(x, Horner([0.0] + s, i + 2, n + 1, x), Horner(s, i + 1, n, x));
    }
  }

  /** c·t, coefficient by coefficient. */
  function ScaleSeq(c: real, t: seq<real>): (r: seq<real>)
    ensures |r| == |t|
    ensures forall k :: Coef(r, k) == S.Mul(c, Coef(t, k))
  {
    S.MulZero(c, 0.0);
    seq(|t|, i requires 0 <= i < |t| => S.Mul(c, t[i]))
  }

  /** The value of a nonempty vector is its constant term plus x times the value of its tail. */
  lemma EvalFront(a: seq<real>, x: real)
    requires |a| > 0
    ensures Eval(a, x) == a[0] + S.Mul(x, Eval(a[1..], x))
  {
    HornerUnfold(a, 0, |a|, x);
    HornerTail(a, 1, x);
  }

  lemma {:induction false} HornerTail(a: seq<real>, i: nat, x: real)
    requires 1 <= i <= |a|
    ensures Horner(a, i, |a|, x) == Horner(a[1..], i - 1, |a| - 1, x)
    decreases |a| - i
  {
    hide S.Mul;
    if i < |a| {
      HornerTail(a, i + 1, x);
      HornerUnfold(a, i, |a|, x);
      HornerUnfold(a[1..], i - 1, |a| - 1, x);
      S.MulCong(x, Horner(a, i + 1, |a|, x), Horner(a[1..], i, |a| - 1, x));
    }
  }

  /** Any vector holding the convolution of a and b evaluates to the product of their values. */
  lemma {:induction false} EvalConv(s: seq<real>, a: seq<real>, b: seq<real>, x: real)
    requires forall k :: Coef(s, k) == Conv(a, b, k)
    ensures Eval(s, x) == S.Mul(Eval(a, x), Eval(b, x))
    decreases |a|
  {
    hide S.Mul;
    if |a| == 0 {
      EvalSum(s, [], [], x);
      S.MulZero(Eval(b, x), Eval(a, x));
    } else {
      var a' := a[1..];
      var s' := seq(|a'| + |b|, k => Conv(a', b, k));
      forall k ensures Coef(s', k) == Conv(a', b, k) {
        ConvOutside(a', b, k);
      }
      EvalConv(s', a', b, x);
      var shifted := [0.0] + s';
      var scaled := ScaleSeq(a[0], b);
      forall k ensures Coef(s, k) == Coef(scaled, k) + Coef(shifted, k) {
        ConvOutside(a', b, k - 1);
      }
      EvalSum(s, scaled, shifted, x);
      EvalScale(scaled, b, a[0], x);
      EvalShift(s', x);
      EvalFront(a, x);
      ConvStep(Eval(s, x), Eval(scaled, x), Eval(shifted, x), Eval(s', x), a[0], Eval(a', x), Eval(b, x), Eval(a, x), x);
    }
  }

  lemma ConvStep(es: real, esc: real, esh: real, es': real, a0: real, ea': real, eb: real, ea: real, x: real)
    requires es == esc + esh && esc == S.Mul(a0, eb) && esh == S.Mul(x, es') && es' == S.Mul(ea', eb)
    requires ea == a0 + S.Mul(x, ea')
    ensures es == S.Mul(ea, eb)
  {
  }

  /** The product of polynomials evaluates to the product of the values. */
  lemma EvalMul(a: Poly, b: Poly, x: real)
    ensures Eval(Mul(a, b), x) == S.Mul(Eval(a, x), Eval(b, x))
  {
    EvalConv(Mul(a, b), a, b, x);
  }

  /** Synthetic division by (x - x0): the quotient's coefficient k is the Horner value of the
      coefficients above k at x0. */
  function SynQuot(p: seq<real>, x0: real): (q: seq<real>)
    requires |p| > 0
    ensures |q| == |p| - 1
  {
    seq(|p| - 1, k requires 0 <= k < |p| - 1 => Horner(p, k + 1, |p|, x0))
  }

  /** p = (x - x0)·q + p(x0), coefficient by coefficient. */
  lemma SynCoefs(p: seq<real>, x0: real)
    requires |p| > 0
    ensures forall k :: k >= 1 ==> Coef(p, k) == Coef(SynQuot(p, x0), k - 1) - S.Mul(x0, Coef(SynQuot(p, x0), k))
    ensures Coef(p, 0) == Eval(p, x0) - S.Mul(x0, Coef(SynQuot(p, x0), 0))
  {
    hide S.Mul;
    var q := SynQuot(p, x0);
    var n := |p|;
    forall k | k >= 1 ensures Coef(p, k) == Coef(q, k - 1) - S.Mul(x0, Coef(q, k)) {
      if k < n {
        HornerUnfold(p, k, n, x0);
        if k + 1 < n {
          assert Coef(q, k) == Horner(p, k + 1, n, x0);
        } else {
          assert Horner(p, k + 1, n, x0) == 0.0;
        }
        S.MulCong(x0, Coef(q, k), Horner(p, k + 1, n, x0));
      } else {
        assert Coef(q, k) == 0.0 && Coef(q, k - 1) == 0.0;
        S.MulZero(x0, 0.0);
      }
    }
    HornerUnfold(p, 0, n, x0);
    if n > 1 {
      assert Coef(q, 0) == Horner(p, 1, n, x0);
    } else {
      assert Horner(p, 1, n, x0) == 0.0;
    }
    S.MulCong(x0, Coef(q, 0), Horner(p, 1, n, x0));
  }

  /** p(x) = (x - x0)·q(x) + p(x0). */
  lemma SynEval(p: seq<real>, x0: real, x: real)
    requires |p| > 0
    ensures Eval(p, x) == S.Mul(x - x0, Eval(SynQuot(p, x0), x)) + Eval(p, x0)
  {
    hide S.Mul;
    var q := SynQuot(p, x0);
    SynCoefs(p, x0);
    var sh := [0.0] + q;
    var scaled := ScaleSeq(-x0, q);
    var c := [Eval(p, x0)];
    var rest := seq(|p|, k requires 0 <= k < |p| => Coef(scaled, k) + Coef(c, k));
    forall k ensures Coef(rest, k) == Coef(scaled, k) + Coef(c, k) {
      if k >= |p| {
        assert Coef(scaled, k) == S.Mul(-x0, Coef(q, k));
        S.MulZero(-x0, Coef(q, k));
      }
    }
    forall k ensures Coef(p, k) == Coef(sh, k) + Coef(rest, k) {
      S.NegMul(x0, Coef(q, k));
      assert Coef(scaled, k) == S.Mul(-x0, Coef(q, k));
      if 1 <= k < |p| {
        assert sh[k] == q[k - 1];
        assert Coef(p, k) == Coef(q, k - 1) - S.Mul(x0, Coef(q, k));
        assert Coef(rest, k) == S.Mul(-x0, Coef(q, k));
      } else if k == 0 {
        assert Coef(c, 0) == Eval(p, x0);
        assert Coef(sh, 0) == 0.0;
        assert Coef(rest, 0) == S.Mul(-x0, Coef(q, 0)) + Eval(p, x0);
      } else {
        assert Coef(q, k) == 0.0;
        S.MulZero(-x0, 0.0);
      }
    }
    EvalSum(p, sh, rest, x);
    EvalSum(rest, scaled, c, x);
    EvalScale(scaled, q, -x0, x);
    EvalShift(q, x);
    HornerUnfold(c, 0, 1, x);
    S.MulZero(x, 0.0);
    SynStep(x, x0, Eval(q, x));
  }

  lemma SynStep(x: real, x0: real, v: real)
    ensures S.Mul(x, v) + S.Mul(-x0, v) == S.Mul(x - x0, v)
  {
  }

  /** Pairwise distinct sample points. */
  ghost predicate Distinct(xs: seq<real>) {
    forall i, j :: 0 <= i < j < |xs| ==> xs[i] != xs[j]
  }

  /** A coefficient vector that vanishes at as many distinct points as it has coefficients has
      only zero coefficients. */
  lemma {:induction false} VanishingIsZero(p: seq<real>, xs: seq<real>)
    requires |p| <= |xs| && Distinct(xs)
    requires forall i :: 0 <= i < |xs| ==> Eval(p, xs[i]) == 0.0
    ensures forall k :: Coef(p, k) == 0.0
    decreases |p|
  {
    hide S.Mul;
    if |p| > 0 {
      var x0 := xs[0];
      var q := SynQuot(p, x0);
      var ys := xs[1..];
      forall i | 0 <= i < |ys| ensures Eval(q, ys[i]) == 0.0 {
        assert ys[i] == xs[i + 1] && xs[i + 1] != x0;
        SynEval(p, x0, ys[i]);
        S.MulZeroIff(ys[i] - x0, Eval(q, ys[i]));
      }
      VanishingIsZero(q, ys);
      SynCoefs(p, x0);
      forall k ensures Coef(p, k) == 0.0 {
        assert Coef(q, k) == 0.0 && Coef(q, k - 1) == 0.0;
        S.MulZero(x0, Coef(q, k));
      }
    }
  }

  /** The identity theorem: polynomials that agree at every point are the same polynomial. */
  lemma EvalInjective(a: Poly, b: Poly)
    requires forall x :: Eval(a, x) == Eval(b, x)
    ensures a == b
  {
    var d := Sub(a, b);
    var xs := seq(|d|, i => i as real);
    forall i | 0 <= i < |xs| ensures Eval(d, xs[i]) == 0.0 {
      EvalSub(a, b, xs[i]);
    }
    VanishingIsZero(d, xs);
    forall k ensures Coef(a, k) == Coef(b, k) {
      assert Coef(d, k) == 0.0;
    }
    CoefExtensional(a, b);
  }

  /** Polynomial multiplication is commutative, associative, distributes over addition and
      subtraction, and has the constant 1 as its unit. */
  lemma MulComm(a: Poly, b: Poly)
    ensures Mul(a, b) == Mul(b, a)
  {
    hide S.Mul;
    forall x ensures Eval(Mul(a, b), x) == Eval(Mul(b, a), x) {
      EvalMul(a, b, x);
      EvalMul(b, a, x);
      S.MulComm(Eval(a, x), Eval(b, x));
    }
    EvalInjective(Mul(a, b), Mul(b, a));
  }

  lemma MulAssoc(a: Poly, b: Poly, c: Poly)
    ensures Mul(Mul(a, b), c) == Mul(a, Mul(b, c))
  {
    hide S.Mul;
    forall x ensures Eval(Mul(Mul(a, b), c), x) == Eval(Mul(a, Mul(b, c)), x) {
      EvalMul(Mul(a, b), c, x);
      EvalMul(a, b, x);
      EvalMul(a, Mul(b, c), x);
      EvalMul(b, c, x);
      S.MulAssoc(Eval(a, x), Eval(b, x), Eval(c, x));
    }
    EvalInjective(Mul(Mul(a, b), c), Mul(a, Mul(b, c)));
  }

  lemma MulAddDistrib(a: Poly, b: Poly, c: Poly)
    ensures Mul(Add(a, b), c) == Add(Mul(a, c), Mul(b, c))
  {
    hide S.Mul;
    forall x ensures Eval(Mul(Add(a, b), c), x) == Eval(Add(Mul(a, c), Mul(b, c)), x) {
      EvalMul(Add(a, b), c, x);
      EvalAdd(a, b, x);
      EvalAdd(Mul(a, c), Mul(b, c), x);
      EvalMul(a, c, x);
      EvalMul(b, c, x);
      S.MulComm(Eval(Add(a, b), x), Eval(c, x));
      S.MulComm(Eval(a, x), Eval(c, x));
      S.MulComm(Eval(b, x), Eval(c, x));
      S.Distrib(Eval(c, x), Eval(Add(a, b), x), Eval(a, x), Eval(b, x));
    }
    EvalInjective(Mul(Add(a, b), c), Add(Mul(a, c), Mul(b, c)));
  }

  lemma MulSubDistrib(a: Poly, b: Poly, c: Poly)
    ensures Mul(Sub(a, b), c) == Sub(Mul(a, c), Mul(b, c))
  {
    hide S.Mul;
    forall x ensures Eval(Mul(Sub(a, b), c), x) == Eval(Sub(Mul(a, c), Mul(b, c)), x) {
      EvalMul(Sub(a, b), c, x);
      EvalSub(a, b, x);
      EvalSub(Mul(a, c), Mul(b, c), x);
      EvalMul(a, c, x);
      EvalMul(b, c, x);
      S.MulComm(Eval(Sub(a, b), x), Eval(c, x));
      S.MulComm(Eval(a, x), Eval(c, x));
      S.MulComm(Eval(b, x), Eval(c, x));
      S.DistribSub(Eval(c, x), Eval(Sub(a, b), x), Eval(a, x), Eval(b, x));
    }
    EvalInjective(Mul(Sub(a, b), c), Sub(Mul(a, c), Mul(b, c)));
  }

  lemma MulOne(a: Poly)
    ensures Mul(a, Constant(1.0)) == a
  {
    hide S.Mul;
    forall x ensures Eval(Mul(a, Constant(1.0)), x) == Eval(a, x) {
      EvalMul(a, Constant(1.0), x);
      EvalConstant(1.0, x);
      S.MulOne(Eval(a, x));
    }
    EvalInjective(Mul(a, Constant(1.0)), a);
  }

  /** Multiplying two constants. */
  lemma MulConstants(c: real, d: real)
    ensures Mul(Constant(c), Constant(d)) == Constant(S.Mul(c, d))
  {
    hide S.Mul;
    forall x ensures Eval(Mul(Constant(c), Constant(d)), x) == Eval(Constant(S.Mul(c, d)), x) {
      EvalMul(Constant(c), Constant(d), x);
      EvalConstant(c, x);
      EvalConstant(d, x);
      EvalConstant(S.Mul(c, d), x);
    }
    EvalInjective(Mul(Constant(c), Constant(d)), Constant(S.Mul(c, d)));
  }

  /** `operator==`: equal sizes and equal coefficients, which for trimmed vectors is equality of
      the coefficient functions and, by the identity theorem, of the polynomial functions. */
  function Equal(a: Poly, b: Poly): (r: bool)
    ensures r <==> forall k :: Coef(a, k) == Coef(b, k)
    ensures r <==> a == b
  {
    var r := |a| == |b| && forall i :: 0 <= i < |a| ==> a[i] == b[i];
    assert r <==> a == b;
    SameCoefs(a, b);
    r
  }

  lemma SameCoefs(a: Poly, b: Poly)
    ensures a == b <==> forall k :: Coef(a, k) == Coef(b, k)
  {
    if forall k :: Coef(a, k) == Coef(b, k) {
      CoefExtensional(a, b);
    }
  }

  /** `Equal` holds exactly when the two polynomials agree at every point. */
  lemma EqualIffSameValues(a: Poly, b: Poly)
    ensures Equal(a, b) <==> forall x :: Eval(a, x) == Eval(b, x)
  {
    if forall x :: Eval(a, x) == Eval(b, x) {
      EvalInjective(a, b);
    }
  }

  /** `operator[]` as written: the guard `n > size` lets n == size through to an out-of-range
      read, which is None here. */
  function IndexAsWritten(p: Poly, n: nat): (r: Option<real>)
    ensures r.None? <==> n == |p|
    ensures r.Some? ==> r.value == Coef(p, n)
  {
    if n > |p| then Some(0.0) else if n < |p| then Some(p[n]) else None
  }

  /** The smallest input exposing the unguarded read: index 0 of the zero polynomial. */
  lemma IndexAsWrittenReadsPastEnd()
    ensures IndexAsWritten(Zero, 0).None?
  {
  }

  /** The evidently intended `operator[]`: every index at or beyond the size reads zero, and it
      agrees with the as-written accessor wherever that one reads in range. */
  function Index(p: Poly, n: nat): (r: real)
    ensures n >= |p| ==> r == 0.0
    ensures n < |p| ==> r == p[n]
    ensures IndexAsWritten(p, n).Some? ==> r == IndexAsWritten(p, n).value
  {
    Coef(p, n)
  }

  /** Adding or subtracting the zero polynomial changes nothing; a polynomial minus itself is zero. */
  lemma AddZero(p: Poly)
    ensures Add(p, Zero) == p && Add(Zero, p) == p && Sub(p, Zero) == p
  {
    CoefExtensional(Add(p, Zero), p);
    CoefExtensional(Add(Zero, p), p);
    CoefExtensional(Sub(p, Zero), p);
  }

  lemma SubSelf(p: Poly)
    ensures Sub(p, p) == Zero
  {
    CoefExtensional(Sub(p, p), Zero);
  }

  /** Setting one zero entry of the first factor to t adds t·b shifted by that entry's index. */
  lemma {:induction false} ConvUpdate(q: seq<real>, b: seq<real>, j: nat, t: real, k: int)
    requires j < |q| && q[j] == 0.0
    ensures Conv(q[j := t], b, k) == Conv(q, b, k) + S.Mul(t, Coef(b, k - j))
    decreases |q|
  {
    hide S.Mul;
    if j == 0 {
      assert q[j := t][1..] == q[1..];
      S.MulZero(Coef(b, k), q[0]);
    } else {
      assert q[j := t][1..] == q[1..][j - 1 := t];
      ConvUpdate(q[1..], b, j - 1, t, k - 1);
    }
  }

  /** The value at 0 is the constant term. */
  lemma EvalAtZero(s: seq<real>)
    ensures Eval(s, 0.0) == Coef(s, 0)
  {
    if |s| > 0 {
      HornerUnfold(s, 0, |s|, 0.0);
      S.MulZero(Horner(s, 1, |s|, 0.0), 0.0);
    }
  }
}
