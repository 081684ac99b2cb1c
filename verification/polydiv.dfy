/** `Polynomial::div`, its `/` and `%` projections, and the monic `gcd`. */
module PolyDivision {
  import S = Scalars
  import opened Wrappers
  import opened Polynomials

  /** The loop of `div` from index |rem|-1 down to |b|-1: each pass divides the top remaining
      coefficient by b's leading coefficient, stores it in the quotient at |rem|-|b|, subtracts
      that multiple of b from the entries below, and pops the top entry. */
  function LongDivide(rem: seq<real>, q: seq<real>, b: Poly): (res: (seq<real>, seq<real>))
    requires |b| > 0 && |rem| - |b| < |q|
    requires forall j :: 0 <= j <= |rem| - |b| ==> q[j] == 0.0
    ensures |res.0| == |q|
    ensures |res.1| == if |rem| < |b| then |rem| else |b| - 1
    ensures forall k :: Coef(rem, k) + Conv(q, b, k) == Coef(res.1, k) + Conv(res.0, b, k)
    decreases |rem|
  {
    if |rem| < |b| then (q, rem)
    else
      var i := |rem| - 1;
      var j := i - (|b| - 1);
      var t := S.Quot(rem[i], b[|b| - 1]);
      var q' := q[j := t];
      var rem' := seq(i, k requires 0 <= k < i => if k >= j then rem[k] - S.Mul(t, b[k - j]) else rem[k]);
      DivStep(rem, q, b, t, rem', q');
      LongDivide(rem', q', b)
  }

  /** One pass keeps remainder + quotient·b unchanged, coefficient by coefficient. */
  lemma DivStep(rem: seq<real>, q: seq<real>, b: Poly, t: real, rem': seq<real>, q': seq<real>)
    requires |b| > 0 && |rem| >= |b| && |rem| - |b| < |q| && q[|rem| - |b|] == 0.0
    requires t == S.Quot(rem[|rem| - 1], b[|b| - 1])
    requires q' == q[|rem| - |b| := t]
    requires |rem'| == |rem| - 1
    requires forall k :: 0 <= k < |rem'| ==>
      rem'[k] == if k >= |rem| - |b| then rem[k] - S.Mul(t, b[k - (|rem| - |b|)]) else rem[k]
    ensures forall k :: Coef(rem, k) + Conv(q, b, k) == Coef(rem', k) + Conv(q', b, k)
  {
    hide S.Mul;
    var j := |rem| - |b|;
    forall k ensures Coef(rem, k) + Conv(q, b, k) == Coef(rem', k) + Conv(q', b, k) {
      ConvUpdate(q, b, j, t, k);
      if k < j {
        S.MulZero(t, Coef(b, k - j));
      } else if k < |rem| - 1 {
        assert Coef(b, k - j) == b[k - j];
      } else if k == |rem| - 1 {
        assert Coef(b, k - j) == b[|b| - 1];
      } else {
        S.MulZero(t, Coef(b, k - j));
      }
    }
  }

  /** `div`: fails on a zero divisor; returns (0, a) when the divisor is longer than the
      dividend; otherwise the quotient and remainder of long division. In every successful case
      a = q·b + r with r shorter than b. */
  function Div(a: Poly, b: Poly): (r: Result<(Poly, Poly)>)
    ensures r.Failure? <==> b == Zero
    ensures r.Failure? ==> r.error == ZeroInversion
    ensures r.Success? ==> a == Add(Mul(r.value.0, b), r.value.1) && |r.value.1| < |b|
    ensures r.Success? && |b| > |a| ==> r.value == (Zero, a)
  {
    if |b| == 0 then Failure(ZeroInversion)
    else if |b| > |a| then
      AddZero(a);
      Success((Zero, a))
    else
      var zeros := seq(|a| - |b| + 1, _ => 0.0);
      var res := LongDivide(a, zeros, b);
      var q, rem := Trim(res.0), Trim(res.1);
      DivIdentity(a, b, zeros, res.0, res.1);
      Success((q, rem))
  }

  lemma DivIdentity(a: Poly, b: Poly, zeros: seq<real>, q: seq<real>, rem: seq<real>)
    requires forall k :: Coef(zeros, k) == 0.0
    requires forall k :: Coef(a, k) + Conv(zeros, b, k) == Coef(rem, k) + Conv(q, b, k)
    ensures a == Add(Mul(Trim(q), b), Trim(rem))
  {
    var r := Add(Mul(Trim(q), b), Trim(rem));
    forall k ensures Coef(a, k) == Coef(r, k) {
      ConvVanishes(zeros, b, k);
      ConvCoefs(Trim(q), q, b, k);
    }
    CoefExtensional(a, r);
  }

  /** `operator/` and `operator%`: the two halves of `div`. */
  function Quotient(a: Poly, b: Poly): (r: Result<Poly>)
    ensures r.Failure? <==> b == Zero
    ensures r.Success? ==> |Sub(a, Mul(r.value, b))| < |b|
  {
    var d :- Div(a, b);
    RemainderIsDifference(a, Mul(d.0, b), d.1);
    Success(d.0)
  }

  function Remainder(a: Poly, b: Poly): (r: Result<Poly>)
    ensures r.Failure? <==> b == Zero
    ensures r.Success? ==> |r.value| < |b|
    ensures r.Success? ==> Divides(b, Sub(a, r.value))
  {
    var d :- Div(a, b);
    RemainderMultiple(a, b, d.0, d.1);
    Success(d.1)
  }

  lemma RemainderMultiple(a: Poly, b: Poly, q: Poly, r: Poly)
    requires a == Add(Mul(q, b), r)
    ensures Divides(b, Sub(a, r))
  {
    CoefExtensional(Sub(a, r), Mul(q, b));
  }

  /** Quotient and remainder are unique: any q, r with a = q·b + r and r shorter than b are the
      ones `div` returns. */
  lemma DivUnique(a: Poly, b: Poly, q: Poly, r: Poly)
    requires b != Zero && a == Add(Mul(q, b), r) && |r| < |b|
    ensures Div(a, b) == Success((q, r))
  {
    var d := Div(a, b).value;
    var q', r' := d.0, d.1;
    hide *;
    DivDifference(b, q, r, q', r');
    DivSameQuotient(b, q, r, q', r');
  }

  /** Two ways of writing the same dividend: (q - q')·b = r' - r. */
  lemma DivDifference(b: Poly, q: Poly, r: Poly, q': Poly, r': Poly)
    requires Add(Mul(q, b), r) == Add(Mul(q', b), r')
    ensures Mul(Sub(q, q'), b) == Sub(r', r)
  {
    hide S.Mul;
    forall x ensures Eval(Mul(Sub(q, q'), b), x) == Eval(Sub(r', r), x) {
      EvalMul(Sub(q, q'), b, x);
      EvalSub(q, q', x);
      EvalSub(r', r, x);
      EvalAdd(Mul(q, b), r, x);
      EvalAdd(Mul(q', b), r', x);
      EvalMul(q, b, x);
      EvalMul(q', b, x);
      S.MulComm(Eval(Sub(q, q'), x), Eval(b, x));
      S.MulComm(Eval(q, x), Eval(b, x));
      S.MulComm(Eval(q', x), Eval(b, x));
      S.DistribSub(Eval(b, x), Eval(Sub(q, q'), x), Eval(q, x), Eval(q', x));
    }
    EvalInjective(Mul(Sub(q, q'), b), Sub(r', r));
  }

  /** A multiple of b shorter than b is zero, so both quotients and both remainders agree. */
  lemma DivSameQuotient(b: Poly, q: Poly, r: Poly, q': Poly, r': Poly)
    requires b != Zero && |r| < |b| && |r'| < |b| && Mul(Sub(q, q'), b) == Sub(r', r)
    ensures Success((q, r)) == Success((q', r'))
  {
    hide S.Mul;
    if Sub(q, q') != Zero {
      assert false;
    }
    forall k ensures Coef(q, k) == Coef(q', k) {
      assert Coef(Sub(q, q'), k) == 0.0;
    }
    CoefExtensional(q, q');
    forall k ensures Coef(r, k) == Coef(r', k) {
      assert Coef(Sub(r', r), k) == Coef(Mul(Sub(q, q'), b), k) == 0.0;
    }
    CoefExtensional(r, r');
  }

  /** Round trip: dividing a product by its nonzero factor gives back the other factor with
      remainder zero. */
  lemma DivOfMul(q: Poly, b: Poly)
    requires b != Zero
    ensures Div(Mul(q, b), b) == Success((q, Zero))
  {
    AddZero(Mul(q, b));
    DivUnique(Mul(q, b), b, q, Zero);
  }

  /** d divides p when p is a polynomial multiple of d. */
  ghost predicate Divides(d: Poly, p: Poly) {
    exists q: Poly :: Mul(q, d) == p
  }

  lemma DividesSelf(d: Poly)
    ensures Divides(d, d) && Divides(d, Zero)
  {
    MulComm(Constant(1.0), d);
    MulOne(d);
    assert Mul(Constant(1.0), d) == d;
    assert Mul(Zero, d) == Zero;
  }

  /** Multiples of multiples are multiples; sums and differences of multiples are multiples. */
  lemma DividesMul(d: Poly, p: Poly, c: Poly)
    requires Divides(d, p)
    ensures Divides(d, Mul(p, c))
  {
    var q :| Mul(q, d) == p;
    MulAssoc(q, d, c);
    MulComm(d, c);
    MulAssoc(q, c, d);
    assert Mul(Mul(q, c), d) == Mul(p, c);
  }

  lemma DividesAdd(d: Poly, p: Poly, p': Poly)
    requires Divides(d, p) && Divides(d, p')
    ensures Divides(d, Add(p, p')) && Divides(d, Sub(p, p'))
  {
    var q :| Mul(q, d) == p;
    var q' :| Mul(q', d) == p';
    MulAddDistrib(q, q', d);
    MulSubDistrib(q, q', d);
    assert Mul(Add(q, q'), d) == Add(p, p');
    assert Mul(Sub(q, q'), d) == Sub(p, p');
  }

  /** `a /= Polynomial({a.back()})`: the quotient of a nonzero polynomial by its leading
      coefficient, which has the same degree, leading coefficient 1, and times that coefficient
      gives back the input. */
  function Monic(p: Poly): (r: Poly)
    requires p != Zero
    ensures |r| == |p| && r[|r| - 1] == 1.0
    ensures p == Mul(r, Constant(p[|p| - 1]))
  {
    var c := p[|p| - 1];
    var d := Div(p, Constant(c)).value;
    MonicFacts(p, d.0, d.1);
    d.0
  }

  lemma MonicFacts(p: Poly, q: Poly, rem: Poly)
    requires p != Zero
    requires p == Add(Mul(q, Constant(p[|p| - 1])), rem) && |rem| < |Constant(p[|p| - 1])|
    ensures |q| == |p| && q[|q| - 1] == 1.0 && p == Mul(q, Constant(p[|p| - 1]))
  {
    hide S.Mul;
    var c := p[|p| - 1];
    assert Constant(c) == [c];
    assert rem == Zero;
    AddZero(Mul(q, Constant(c)));
    assert q != Zero;
    ConvTop(q, [c]);
    S.MulCancelOne(q[|q| - 1], c);
  }

  /** Dividing by the leading coefficient is multiplying by its inverse, so multiples of p are
      multiples of `Monic(p)` and back. */
  lemma MonicIsScaling(p: Poly)
    requires p != Zero
    ensures Monic(p) == Mul(p, Constant(S.Quot(1.0, p[|p| - 1])))
  {
    var c := p[|p| - 1];
    var m := Monic(p);
    var inv := S.Quot(1.0, c);
    MulAssoc(m, Constant(c), Constant(inv));
    MulConstants(c, inv);
    S.MulComm(inv, c);
    MulOne(m);
  }

  lemma DividesMonic(e: Poly, p: Poly)
    requires p != Zero
    ensures Divides(e, p) <==> Divides(e, Monic(p))
  {
    if Divides(e, p) {
      MonicIsScaling(p);
      DividesMul(e, p, Constant(S.Quot(1.0, p[|p| - 1])));
    }
    if Divides(e, Monic(p)) {
      DividesMul(e, Monic(p), Constant(p[|p| - 1]));
    }
  }

  /** The body of the `gcd` loop: b is made monic, a is replaced by a % b, and the two swap. */
  function GcdLoop(a: Poly, b: Poly): (g: Poly)
    requires a == Zero || a[|a| - 1] == 1.0
    ensures g == Zero <==> a == Zero && b == Zero
    ensures g != Zero ==> g[|g| - 1] == 1.0
    decreases |b|
  {
    if b == Zero then a
    else
      var b1 := Monic(b);
      GcdLoop(b1, Remainder(a, b1).value)
  }

  /** `gcd`: make a monic (unless zero), then run Euclid's loop. The result is zero exactly when
      both inputs are, and monic otherwise. */
  function Gcd(a: Poly, b: Poly): (g: Poly)
    ensures g == Zero <==> a == Zero && b == Zero
    ensures g != Zero ==> g[|g| - 1] == 1.0
  {
    GcdLoop(if a == Zero then a else Monic(a), b)
  }

  /** The gcd divides both inputs. */
  lemma GcdDivides(a: Poly, b: Poly)
    ensures Divides(Gcd(a, b), a) && Divides(Gcd(a, b), b)
  {
    var a1 := if a == Zero then a else Monic(a);
    GcdLoopDivides(a1, b);
    if a != Zero {
      DividesMonic(Gcd(a, b), a);
    }
  }

  /** Every common divisor of the inputs divides the gcd. */
  lemma GcdGreatest(a: Poly, b: Poly, e: Poly)
    requires Divides(e, a) && Divides(e, b)
    ensures Divides(e, Gcd(a, b))
  {
    var a1 := if a == Zero then a else Monic(a);
    if a != Zero {
      DividesMonic(e, a);
    }
    GcdLoopGreatest(a1, b, e);
  }

  /** Euclid's invariant, upwards: the loop's result divides both of its arguments. */
  lemma {:induction false} GcdLoopDivides(a: Poly, b: Poly)
    requires a == Zero || a[|a| - 1] == 1.0
    ensures Divides(GcdLoop(a, b), a) && Divides(GcdLoop(a, b), b)
    decreases |b|
  {
    hide Mul, Div, Divides;
    if b == Zero {
      DividesSelf(a);
    } else {
      var b1 := Monic(b);
      var r := Remainder(a, b1).value;
      GcdLoopDivides(b1, r);
      var g := GcdLoop(a, b);
      DividesMonic(g, b);
      DividesTrans(g, b1, Sub(a, r));
      DividesAdd(g, Sub(a, r), r);
      SubAddBack(a, r);
    }
  }

  /** Euclid's invariant, downwards: every common divisor of the arguments divides the result. */
  lemma {:induction false} GcdLoopGreatest(a: Poly, b: Poly, e: Poly)
    requires a == Zero || a[|a| - 1] == 1.0
    requires Divides(e, a) && Divides(e, b)
    ensures Divides(e, GcdLoop(a, b))
    decreases |b|
  {
    hide Mul, Div, Divides;
    if b != Zero {
      var b1 := Monic(b);
      var r := Remainder(a, b1).value;
      DividesMonic(e, b);
      assert Divides(e, b1);
      DividesTrans(e, b1, Sub(a, r));
      DividesAdd(e, a, Sub(a, r));
      SubAddBack(a, r);
      assert Divides(e, r);
      GcdLoopGreatest(b1, r, e);
      assert GcdLoop(a, b) == GcdLoop(b1, r);
    }
  }

  /** Divisibility is transitive. */
  lemma DividesTrans(g: Poly, d: Poly, p: Poly)
    requires Divides(g, d) && Divides(d, p)
    ensures Divides(g, p)
  {
    var q :| Mul(q, d) == p;
    var q' :| Mul(q', g) == d;
    MulAssoc(q, q', g);
    assert Mul(Mul(q, q'), g) == p;
  }

  /** (a - r) + r = a and a - (a - r) = r. */
  lemma SubAddBack(a: Poly, r: Poly)
    ensures Add(Sub(a, r), r) == a && Sub(a, Sub(a, r)) == r
  {
    CoefExtensional(Add(Sub(a, r), r), a);
    CoefExtensional(Sub(a, Sub(a, r)), r);
  }

  /** From a = m + r: r = a - m. */
  lemma RemainderIsDifference(a: Poly, m: Poly, r: Poly)
    requires a == Add(m, r)
    ensures r == Sub(a, m)
  {
    CoefExtensional(r, Sub(a, m));
  }

  /** Dividing by a divisor is exact: the quotient times the divisor gives back the dividend. */
  lemma QuotientExact(p: Poly, d: Poly)
    requires d != Zero && Divides(d, p)
    ensures Quotient(p, d).Success? && Mul(Quotient(p, d).value, d) == p
    ensures Remainder(p, d) == Success(Zero)
  {
    var q :| Mul(q, d) == p;
    DivOfMul(q, d);
  }

  /** A nonzero constant divides every polynomial. */
  lemma ConstantDivides(c: real, p: Poly)
    requires c != 0.0
    ensures Divides(Constant(c), p)
  {
    hide S.Mul;
    var inv := S.Quot(1.0, c);
    MulAssoc(p, Constant(inv), Constant(c));
    MulConstants(inv, c);
    MulOne(p);
    assert Mul(Mul(p, Constant(inv)), Constant(c)) == p;
  }

  /** A divisor of a nonzero polynomial is no longer than it. */
  lemma DividesLength(d: Poly, p: Poly)
    requires Divides(d, p) && p != Zero
    ensures |d| <= |p|
  {
    var q :| Mul(q, d) == p;
  }

  /** Where a product of polynomials is nonzero, so is each factor. */
  lemma EvalFactorNonzero(a: Poly, b: Poly, x: real)
    requires Eval(Mul(a, b), x) != 0.0
    ensures Eval(a, x) != 0.0 && Eval(b, x) != 0.0
  {
    EvalMul(a, b, x);
    S.MulZeroIff(Eval(a, x), Eval(b, x));
  }

  /** With a zero first argument the gcd is the second made monic. */
  lemma GcdZeroLeft(d: Poly)
    requires d != Zero
    ensures Gcd(Zero, d) == Monic(d)
  {
    var m := Monic(d);
    assert Remainder(Zero, m) == Success(Zero);
    assert GcdLoop(Zero, d) == GcdLoop(m, Zero) == m;
  }
}
