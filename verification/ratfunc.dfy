/** `RationalFunction<T>`: a numerator and a denominator polynomial. Construction rejects a zero
    denominator and by default reduces: both parts are divided by their polynomial gcd and then
    by the denominator's constant term. */
module RationalFunctions {
  import S = Scalars
  import opened Wrappers
  import P = Polynomials
  import D = PolyDivision

  datatype RatFunc = RatFunc(num: P.Poly, den: P.Poly)

  /** The form reduction produces: a nonzero denominator whose constant term is 1. */
  predicate Canonical(f: RatFunc) {
    f.den != P.Zero && f.den[0] == 1.0
  }

  /** Numerator and denominator have no common factor of positive degree. */
  ghost predicate LowestTerms(f: RatFunc) {
    forall e :: D.Divides(e, f.num) && D.Divides(e, f.den) ==> |e| <= 1
  }

  /** The function is defined at x when its denominator does not vanish there. */
  predicate DefinedAt(f: RatFunc, x: real) {
    P.Eval(f.den, x) != 0.0
  }

  /** num(x) / den(x) where the denominator does not vanish. */
  function Value(f: RatFunc, x: real): real
    requires DefinedAt(f, x)
  {
    S.Quot(P.Eval(f.num, x), P.Eval(f.den, x))
  }

  /** `operator()`: num(x) / den(x); the division fails where the denominator vanishes. */
  function EvalAt(f: RatFunc, x: real): (r: Result<real>)
    ensures r.Failure? <==> P.Eval(f.den, x) == 0.0
    ensures r.Failure? ==> r.error == ZeroInversion
    ensures r.Success? ==> S.Mul(r.value, P.Eval(f.den, x)) == P.Eval(f.num, x)
  {
    var n := P.Eval(f.num, x);
    var d := P.Eval(f.den, x);
    if d == 0.0 then Failure(ZeroInversion) else Success(S.Quot(n, d))
  }

  /** The default constructor: 0/1. */
  function Default(): (r: RatFunc)
    ensures Canonical(r) && r.num == P.Zero
    ensures forall x :: DefinedAt(r, x) && Value(r, x) == 0.0
  {
    var r := RatFunc(P.Zero, P.Constant(1.0));
    forall x ensures DefinedAt(r, x) && Value(r, x) == 0.0 {
      P.EvalConstant(1.0, x);
    }
    r
  }

  /** The scalar constructor: c/1. */
  function FromScalar(c: real): (r: RatFunc)
    ensures Canonical(r)
    ensures forall x :: DefinedAt(r, x) && Value(r, x) == c
  {
    var r := RatFunc(P.Constant(c), P.Constant(1.0));
    forall x ensures DefinedAt(r, x) && Value(r, x) == c {
      P.EvalConstant(1.0, x);
      P.EvalConstant(c, x);
    }
    r
  }

  /** The coefficient-vector constructor: p/1, with p trimmed as the polynomial constructor does. */
  function FromCoefficients(v: seq<real>): (r: RatFunc)
    ensures Canonical(r)
    ensures forall x :: DefinedAt(r, x) && Value(r, x) == P.Eval(v, x)
  {
    var r := RatFunc(P.Trim(v), P.Constant(1.0));
    forall x ensures DefinedAt(r, x) && Value(r, x) == P.Eval(v, x) {
      P.EvalConstant(1.0, x);
      P.EvalCoefs(P.Trim(v), v, x);
    }
    r
  }

  /** `setNumeratorAndDenominator` (and the two-polynomial constructors): a zero denominator
      fails; otherwise the pair is stored as given, or reduced when `reduce` is set. */
  function Make(n: P.Poly, d: P.Poly, reduce: bool): (r: Result<RatFunc>)
    ensures d == P.Zero ==> r == Failure(ZeroInversion)
    ensures d != P.Zero && !reduce ==> r == Success(RatFunc(n, d))
    ensures d != P.Zero && reduce ==> r == Reduce(RatFunc(n, d))
  {
    if d == P.Zero then Failure(ZeroInversion)
    else if reduce then Reduce(RatFunc(n, d))
    else Success(RatFunc(n, d))
  }

  /** `reduce`: divide both parts by their gcd, then both by the constant polynomial holding the
      reduced denominator's constant term; that last division fails when the term is zero. */
  function Reduce(f: RatFunc): (r: Result<RatFunc>)
    requires f.den != P.Zero
    ensures r.Failure? ==> r.error == ZeroInversion && P.Eval(f.den, 0.0) == 0.0
    ensures P.Eval(f.den, 0.0) != 0.0 ==> r.Success?
    ensures r.Success? ==> Canonical(r.value)
    ensures r.Success? ==> (r.value.num == P.Zero <==> f.num == P.Zero)
  {
    var g := D.Gcd(f.num, f.den);
    D.GcdDivides(f.num, f.den);
    D.QuotientExact(f.num, g);
    D.QuotientExact(f.den, g);
    var n1 := D.Quotient(f.num, g).value;
    var d1 := D.Quotient(f.den, g).value;
    var c := P.Index(d1, 0);
    ReduceScaling(f, g, n1, d1, c);
    var n2 :- D.Quotient(n1, P.Constant(c));
    var d2 := D.Quotient(d1, P.Constant(c)).value;
    Success(RatFunc(n2, d2))
  }

  /** The facts `Reduce` needs about its last step, dividing by the constant c = d1[0]. */
  lemma ReduceScaling(f: RatFunc, g: P.Poly, n1: P.Poly, d1: P.Poly, c: real)
    requires f.den != P.Zero && g != P.Zero
    requires P.Mul(n1, g) == f.num && P.Mul(d1, g) == f.den && c == P.Coef(d1, 0)
    ensures c == 0.0 <==> P.Constant(c) == P.Zero
    ensures c == 0.0 ==> P.Eval(f.den, 0.0) == 0.0
    ensures c != 0.0 ==> D.Quotient(n1, P.Constant(c)).Success? && D.Quotient(d1, P.Constant(c)).Success?
    ensures c != 0.0 ==> Canonical(RatFunc(D.Quotient(n1, P.Constant(c)).value, D.Quotient(d1, P.Constant(c)).value))
    ensures c != 0.0 ==> (D.Quotient(n1, P.Constant(c)).value == P.Zero <==> f.num == P.Zero)
    ensures P.Eval(f.den, 0.0) != 0.0 ==> c != 0.0
  {
    hide S.Mul;
    P.EvalMul(d1, g, 0.0);
    P.EvalAtZero(d1);
    if c == 0.0 {
      S.MulZero(P.Eval(g, 0.0), c);
    } else {
      var k := P.Constant(c);
      D.ConstantDivides(c, n1);
      D.ConstantDivides(c, d1);
      D.QuotientExact(n1, k);
      D.QuotientExact(d1, k);
      var d2 := D.Quotient(d1, k).value;
      assert d2 != P.Zero;
      P.ConvAtZero(d2, k);
      assert P.Coef(d1, 0) == S.Mul(P.Coef(d2, 0), c);
      S.MulCancelOne(P.Coef(d2, 0), c);
    }
  }

  /** The pieces `Reduce` computes, named for the lemmas below. */
  lemma ReduceParts(f: RatFunc) returns (g: P.Poly, n1: P.Poly, d1: P.Poly, c: real)
    requires f.den != P.Zero && Reduce(f).Success?
    ensures g == D.Gcd(f.num, f.den) && g != P.Zero
    ensures P.Mul(n1, g) == f.num && P.Mul(d1, g) == f.den
    ensures c != 0.0 && c == P.Coef(d1, 0)
    ensures P.Mul(Reduce(f).value.num, P.Constant(c)) == n1 && P.Mul(Reduce(f).value.den, P.Constant(c)) == d1
  {
    g := D.Gcd(f.num, f.den);
    D.GcdDivides(f.num, f.den);
    D.QuotientExact(f.num, g);
    D.QuotientExact(f.den, g);
    n1 := D.Quotient(f.num, g).value;
    d1 := D.Quotient(f.den, g).value;
    c := P.Index(d1, 0);
    ReduceScaling(f, g, n1, d1, c);
    D.ConstantDivides(c, n1);
    D.ConstantDivides(c, d1);
    D.QuotientExact(n1, P.Constant(c));
    D.QuotientExact(d1, P.Constant(c));
  }

  /** A successful reduction is the same fraction with a common nonzero factor cancelled. */
  lemma ReduceEquivalent(f: RatFunc) returns (k: P.Poly)
    requires f.den != P.Zero && Reduce(f).Success?
    ensures k != P.Zero
    ensures f.num == P.Mul(Reduce(f).value.num, k) && f.den == P.Mul(Reduce(f).value.den, k)
  {
    var r := Reduce(f).value;
    var g, n1, d1, c := ReduceParts(f);
    k := P.Mul(P.Constant(c), g);
    P.MulAssoc(r.num, P.Constant(c), g);
    P.MulAssoc(r.den, P.Constant(c), g);
  }

  /** Reduction preserves the value wherever the original denominator does not vanish. */
  lemma ReducePreservesValue(f: RatFunc, x: real)
    requires f.den != P.Zero && Reduce(f).Success? && DefinedAt(f, x)
    ensures DefinedAt(Reduce(f).value, x) && Value(Reduce(f).value, x) == Value(f, x)
  {
    hide S.Mul;
    var r := Reduce(f).value;
    var k := ReduceEquivalent(f);
    P.EvalMul(r.num, k, x);
    P.EvalMul(r.den, k, x);
    D.EvalFactorNonzero(r.den, k, x);
    S.QuotCancel(P.Eval(r.num, x), P.Eval(r.den, x), P.Eval(k, x));
  }

  /** A successful reduction leaves no common factor of positive degree. */
  lemma ReduceLowest(f: RatFunc)
    requires f.den != P.Zero && Reduce(f).Success?
    ensures LowestTerms(Reduce(f).value)
  {
    var r := Reduce(f).value;
    var g, n1, d1, c := ReduceParts(f);
    forall e | D.Divides(e, r.num) && D.Divides(e, r.den) ensures |e| <= 1 {
      D.DividesMul(e, r.num, P.Constant(c));
      D.DividesMul(e, r.den, P.Constant(c));
      DividesBoth(e, n1, g);
      DividesBoth(e, d1, g);
      D.GcdGreatest(f.num, f.den, P.Mul(e, g));
      D.DividesLength(P.Mul(e, g), g);
    }
  }

  /** If e divides p then e·g divides p·g. */
  lemma DividesBoth(e: P.Poly, p: P.Poly, g: P.Poly)
    requires D.Divides(e, p)
    ensures D.Divides(P.Mul(e, g), P.Mul(p, g))
  {
    var q :| P.Mul(q, e) == p;
    P.MulAssoc(q, e, g);
  }

  /** A zero numerator reduces to the canonical 0/1. */
  lemma ReduceZero(d: P.Poly)
    requires d != P.Zero
    ensures Reduce(RatFunc(P.Zero, d)) == Success(Default())
  {
    var m := D.Monic(d);
    var top := d[|d| - 1];
    D.GcdZeroLeft(d);
    hide D.Gcd, D.GcdLoop, D.Monic, P.Mul, D.Divides;
    assert D.Quotient(P.Zero, m) == Success(P.Zero);
    P.MulComm(m, P.Constant(top));
    D.DivOfMul(P.Constant(top), m);
    assert D.Quotient(d, m) == Success(P.Constant(top));
    assert P.Constant(top) == [top];
    P.MulConstants(1.0, top);
    S.MulOne(top);
    D.DivOfMul(P.Constant(1.0), P.Constant(top));
    assert D.Quotient(P.Constant(top), P.Constant(top)) == Success(P.Constant(1.0));
  }

  /** Reducing a reduced value changes nothing. */
  lemma ReduceIdempotent(f: RatFunc)
    requires Canonical(f) && LowestTerms(f)
    ensures Reduce(f) == Success(f)
  {
    hide D.Gcd, D.GcdLoop, D.Monic, P.Mul, D.Divides;
    var g := D.Gcd(f.num, f.den);
    D.GcdDivides(f.num, f.den);
    assert |g| <= 1;
    var one := P.Constant(1.0);
    assert g == [1.0] == one;
    P.MulOne(f.num);
    P.MulOne(f.den);
    D.DivOfMul(f.num, one);
    D.DivOfMul(f.den, one);
    assert D.Quotient(f.den, g) == Success(f.den);
  }

  /** The step `+`, `-`, `*` and `/` share: a zero numerator gives the canonical 0/1; otherwise
      the pair n/d is built with reduction. */
  function Build(n: P.Poly, d: P.Poly): (r: Result<RatFunc>)
    requires d != P.Zero
    ensures r.Failure? ==> r.error == ZeroInversion && P.Eval(d, 0.0) == 0.0
    ensures P.Eval(d, 0.0) != 0.0 ==> r.Success?
    ensures r.Success? ==> Canonical(r.value)
    ensures r.Success? && r.value.num == P.Zero ==> r.value == Default()
    ensures r.Success? ==> forall x :: P.Eval(d, x) != 0.0 ==>
      DefinedAt(r.value, x) && Value(r.value, x) == S.Quot(P.Eval(n, x), P.Eval(d, x))
  {
    BuildValue(n, d);
    if n == P.Zero then Success(Default()) else Make(n, d, true)
  }

  lemma BuildValue(n: P.Poly, d: P.Poly)
    requires d != P.Zero
    ensures n == P.Zero ==> forall x :: P.Eval(d, x) != 0.0 ==>
      DefinedAt(Default(), x) && Value(Default(), x) == S.Quot(P.Eval(n, x), P.Eval(d, x))
    ensures n != P.Zero && Reduce(RatFunc(n, d)).Success? ==> forall x :: P.Eval(d, x) != 0.0 ==>
      DefinedAt(Reduce(RatFunc(n, d)).value, x) && Value(Reduce(RatFunc(n, d)).value, x) == S.Quot(P.Eval(n, x), P.Eval(d, x))
  {
    if n != P.Zero && Reduce(RatFunc(n, d)).Success? {
      forall x | P.Eval(d, x) != 0.0 ensures DefinedAt(Reduce(RatFunc(n, d)).value, x) &&
        Value(Reduce(RatFunc(n, d)).value, x) == S.Quot(P.Eval(n, x), P.Eval(d, x)) {
        ReducePreservesValue(RatFunc(n, d), x);
      }
    }
  }

  /** A canonical denominator is 1 at x = 0. */
  lemma CanonicalAtZero(f: RatFunc)
    requires Canonical(f)
    ensures P.Eval(f.den, 0.0) == 1.0
  {
    P.EvalAtZero(f.den);
  }

  /** A product of two denominators, its value, and its constant term. */
  lemma DenProduct(a: P.Poly, b: P.Poly, x: real)
    requires a != P.Zero && b != P.Zero
    ensures P.Mul(a, b) != P.Zero
    ensures P.Eval(P.Mul(a, b), x) == S.Mul(P.Eval(a, x), P.Eval(b, x))
    ensures P.Eval(a, x) != 0.0 && P.Eval(b, x) != 0.0 ==> P.Eval(P.Mul(a, b), x) != 0.0
    ensures P.Eval(a, 0.0) == 1.0 && P.Eval(b, 0.0) == 1.0 ==> P.Eval(P.Mul(a, b), 0.0) == 1.0
  {
    P.EvalMul(a, b, x);
    P.EvalMul(a, b, 0.0);
    S.MulZeroIff(P.Eval(a, x), P.Eval(b, x));
    S.MulOne(1.0);
  }

  /** Unary minus: -num over the same denominator, reduced. */
  function Neg(f: RatFunc): (r: Result<RatFunc>)
    requires f.den != P.Zero
    ensures r.Failure? ==> r.error == ZeroInversion
    ensures Canonical(f) ==> r.Success?
    ensures r.Success? ==> Canonical(r.value)
    ensures r.Success? ==> forall x :: DefinedAt(f, x) ==> DefinedAt(r.value, x) && Value(r.value, x) == -Value(f, x)
  {
    NegValue(f);
    Make(P.Neg(f.num), f.den, true)
  }

  lemma NegValue(f: RatFunc)
    requires f.den != P.Zero
    ensures Canonical(f) ==> Reduce(RatFunc(P.Neg(f.num), f.den)).Success?
    ensures Reduce(RatFunc(P.Neg(f.num), f.den)).Success? ==> forall x :: DefinedAt(f, x) ==>
      DefinedAt(Reduce(RatFunc(P.Neg(f.num), f.den)).value, x) &&
      Value(Reduce(RatFunc(P.Neg(f.num), f.den)).value, x) == -Value(f, x)
  {
    var g := RatFunc(P.Neg(f.num), f.den);
    hide D.Gcd, D.GcdLoop, D.Monic, P.Mul, D.Divides, Reduce;
    if Canonical(f) {
      CanonicalAtZero(f);
    }
    if Reduce(g).Success? {
      forall x | DefinedAt(f, x) ensures DefinedAt(Reduce(g).value, x) && Value(Reduce(g).value, x) == -Value(f, x) {
        ReducePreservesValue(g, x);
        P.EvalNeg(f.num, x);
        S.QuotNeg(P.Eval(f.num, x), P.Eval(f.den, x));
      }
    }
  }

  /** `+`: a.num·b.den + a.den·b.num over a.den·b.den. Canonical operands always succeed. */
  function Add(a: RatFunc, b: RatFunc): (r: Result<RatFunc>)
    requires a.den != P.Zero && b.den != P.Zero
    ensures r.Failure? ==> r.error == ZeroInversion
    ensures Canonical(a) && Canonical(b) ==> r.Success?
    ensures r.Success? ==> Canonical(r.value)
    ensures r.Success? && r.value.num == P.Zero ==> r.value == Default()
    ensures r.Success? ==> forall x :: DefinedAt(a, x) && DefinedAt(b, x) ==>
      DefinedAt(r.value, x) && Value(r.value, x) == Value(a, x) + Value(b, x)
  {
    var n := P.Add(P.Mul(a.num, b.den), P.Mul(a.den, b.num));
    var d := P.Mul(a.den, b.den);
    AddFacts(a, b);
    Build(n, d)
  }

  lemma AddFacts(a: RatFunc, b: RatFunc)
    requires a.den != P.Zero && b.den != P.Zero
    ensures P.Mul(a.den, b.den) != P.Zero
    ensures Canonical(a) && Canonical(b) ==> P.Eval(P.Mul(a.den, b.den), 0.0) != 0.0
    ensures forall x :: DefinedAt(a, x) && DefinedAt(b, x) ==>
      P.Eval(P.Mul(a.den, b.den), x) != 0.0 && S.Quot(P.Eval(P.Add(P.Mul(a.num, b.den), P.Mul(a.den, b.num)), x), P.Eval(P.Mul(a.den, b.den), x)) == Value(a, x) + Value(b, x)
  {
    DenProduct(a.den, b.den, 0.0);
    if Canonical(a) && Canonical(b) {
      CanonicalAtZero(a);
      CanonicalAtZero(b);
    }
    forall x | DefinedAt(a, x) && DefinedAt(b, x) ensures P.Eval(P.Mul(a.den, b.den), x) != 0.0 &&
      S.Quot(P.Eval(P.Add(P.Mul(a.num, b.den), P.Mul(a.den, b.num)), x), P.Eval(P.Mul(a.den, b.den), x)) == Value(a, x) + Value(b, x) {
      AddAt(a, b, x);
    }
  }

  lemma AddAt(a: RatFunc, b: RatFunc, x: real)
    requires a.den != P.Zero && b.den != P.Zero && DefinedAt(a, x) && DefinedAt(b, x)
    ensures P.Eval(P.Mul(a.den, b.den), x) != 0.0
    ensures S.Quot(P.Eval(P.Add(P.Mul(a.num, b.den), P.Mul(a.den, b.num)), x), P.Eval(P.Mul(a.den, b.den), x)) == Value(a, x) + Value(b, x)
  {
    hide P.Eval, P.Mul, P.Add, S.Mul;
    DenProduct(a.den, b.den, x);
    P.EvalAdd(P.Mul(a.num, b.den), P.Mul(a.den, b.num), x);
    P.EvalMul(a.num, b.den, x);
    P.EvalMul(a.den, b.num, x);
    S.QuotAdd(P.Eval(a.num, x), P.Eval(a.den, x), P.Eval(b.num, x), P.Eval(b.den, x));
  }

  /** `-`: a.num·b.den - a.den·b.num over a.den·b.den. Canonical operands always succeed. */
  function Sub(a: RatFunc, b: RatFunc): (r: Result<RatFunc>)
    requires a.den != P.Zero && b.den != P.Zero
    ensures r.Failure? ==> r.error == ZeroInversion
    ensures Canonical(a) && Canonical(b) ==> r.Success?
    ensures r.Success? ==> Canonical(r.value)
    ensures r.Success? && r.value.num == P.Zero ==> r.value == Default()
    ensures r.Success? ==> forall x :: DefinedAt(a, x) && DefinedAt(b, x) ==>
      DefinedAt(r.value, x) && Value(r.value, x) == Value(a, x) - Value(b, x)
  {
    var n := P.Sub(P.Mul(a.num, b.den), P.Mul(a.den, b.num));
    var d := P.Mul(a.den, b.den);
    SubFacts(a, b);
    Build(n, d)
  }

  lemma SubFacts(a: RatFunc, b: RatFunc)
    requires a.den != P.Zero && b.den != P.Zero
    ensures P.Mul(a.den, b.den) != P.Zero
    ensures Canonical(a) && Canonical(b) ==> P.Eval(P.Mul(a.den, b.den), 0.0) != 0.0
    ensures forall x :: DefinedAt(a, x) && DefinedAt(b, x) ==>
      P.Eval(P.Mul(a.den, b.den), x) != 0.0 && S.Quot(P.Eval(P.Sub(P.Mul(a.num, b.den), P.Mul(a.den, b.num)), x), P.Eval(P.Mul(a.den, b.den), x)) == Value(a, x) - Value(b, x)
  {
    DenProduct(a.den, b.den, 0.0);
    if Canonical(a) && Canonical(b) {
      CanonicalAtZero(a);
      CanonicalAtZero(b);
    }
    forall x | DefinedAt(a, x) && DefinedAt(b, x) ensures P.Eval(P.Mul(a.den, b.den), x) != 0.0 &&
      S.Quot(P.Eval(P.Sub(P.Mul(a.num, b.den), P.Mul(a.den, b.num)), x), P.Eval(P.Mul(a.den, b.den), x)) == Value(a, x) - Value(b, x) {
      DenProduct(a.den, b.den, x);
      P.EvalSub(P.Mul(a.num, b.den), P.Mul(a.den, b.num), x);
      P.EvalMul(a.num, b.den, x);
      P.EvalMul(a.den, b.num, x);
      S.QuotSub(P.Eval(a.num, x), P.Eval(a.den, x), P.Eval(b.num, x), P.Eval(b.den, x));
    }
  }

  /** `*`: a.num·b.num over a.den·b.den. Canonical operands always succeed. */
  function Mul(a: RatFunc, b: RatFunc): (r: Result<RatFunc>)
    requires a.den != P.Zero && b.den != P.Zero
    ensures r.Failure? ==> r.error == ZeroInversion
    ensures Canonical(a) && Canonical(b) ==> r.Success?
    ensures r.Success? ==> Canonical(r.value)
    ensures r.Success? && r.value.num == P.Zero ==> r.value == Default()
    ensures r.Success? ==> forall x :: DefinedAt(a, x) && DefinedAt(b, x) ==>
      DefinedAt(r.value, x) && Value(r.value, x) == S.Mul(Value(a, x), Value(b, x))
  {
    var n := P.Mul(a.num, b.num);
    var d := P.Mul(a.den, b.den);
    MulFacts(a, b);
    Build(n, d)
  }

  lemma MulFacts(a: RatFunc, b: RatFunc)
    requires a.den != P.Zero && b.den != P.Zero
    ensures P.Mul(a.den, b.den) != P.Zero
    ensures Canonical(a) && Canonical(b) ==> P.Eval(P.Mul(a.den, b.den), 0.0) != 0.0
    ensures forall x :: DefinedAt(a, x) && DefinedAt(b, x) ==>
      P.Eval(P.Mul(a.den, b.den), x) != 0.0 && S.Quot(P.Eval(P.Mul(a.num, b.num), x), P.Eval(P.Mul(a.den, b.den), x)) == S.Mul(Value(a, x), Value(b, x))
  {
    DenProduct(a.den, b.den, 0.0);
    if Canonical(a) && Canonical(b) {
      CanonicalAtZero(a);
      CanonicalAtZero(b);
    }
    forall x | DefinedAt(a, x) && DefinedAt(b, x) ensures P.Eval(P.Mul(a.den, b.den), x) != 0.0 &&
      S.Quot(P.Eval(P.Mul(a.num, b.num), x), P.Eval(P.Mul(a.den, b.den), x)) == S.Mul(Value(a, x), Value(b, x)) {
      DenProduct(a.den, b.den, x);
      P.EvalMul(a.num, b.num, x);
      S.QuotMul(P.Eval(a.num, x), P.Eval(a.den, x), P.Eval(b.num, x), P.Eval(b.den, x));
    }
  }

  /** `/`: fails on a zero divisor; otherwise a.num·b.den over a.den·b.num. */
  function Div(a: RatFunc, b: RatFunc): (r: Result<RatFunc>)
    requires a.den != P.Zero && b.den != P.Zero
    ensures b.num == P.Zero ==> r == Failure(ZeroInversion)
    ensures r.Failure? ==> r.error == ZeroInversion
    ensures Canonical(a) && P.Eval(b.num, 0.0) != 0.0 ==> r.Success?
    ensures r.Success? ==> Canonical(r.value)
    ensures r.Success? && r.value.num == P.Zero ==> r.value == Default()
    ensures r.Success? ==> forall x :: DefinedAt(a, x) && DefinedAt(b, x) && P.Eval(b.num, x) != 0.0 ==>
      DefinedAt(r.value, x) && Value(r.value, x) == S.Quot(Value(a, x), Value(b, x))
  {
    if b.num == P.Zero then Failure(ZeroInversion)
    else
      var n := P.Mul(a.num, b.den);
      var d := P.Mul(a.den, b.num);
      DivFacts(a, b);
      Build(n, d)
  }

  lemma DivFacts(a: RatFunc, b: RatFunc)
    requires a.den != P.Zero && b.den != P.Zero && b.num != P.Zero
    ensures P.Mul(a.den, b.num) != P.Zero
    ensures Canonical(a) && P.Eval(b.num, 0.0) != 0.0 ==> P.Eval(P.Mul(a.den, b.num), 0.0) != 0.0
    ensures forall x :: DefinedAt(a, x) && DefinedAt(b, x) && P.Eval(b.num, x) != 0.0 ==>
      P.Eval(P.Mul(a.den, b.num), x) != 0.0 && Value(b, x) != 0.0 &&
      S.Quot(P.Eval(P.Mul(a.num, b.den), x), P.Eval(P.Mul(a.den, b.num), x)) == S.Quot(Value(a, x), Value(b, x))
  {
    DenProduct(a.den, b.num, 0.0);
    if Canonical(a) {
      CanonicalAtZero(a);
    }
    forall x | DefinedAt(a, x) && DefinedAt(b, x) && P.Eval(b.num, x) != 0.0 ensures
      P.Eval(P.Mul(a.den, b.num), x) != 0.0 && Value(b, x) != 0.0 &&
      S.Quot(P.Eval(P.Mul(a.num, b.den), x), P.Eval(P.Mul(a.den, b.num), x)) == S.Quot(Value(a, x), Value(b, x)) {
      DenProduct(a.den, b.num, x);
      P.EvalMul(a.num, b.den, x);
      S.QuotDiv(P.Eval(a.num, x), P.Eval(a.den, x), P.Eval(b.num, x), P.Eval(b.den, x));
    }
  }

  /** `operator==`: cross-multiplication. For functions with nonzero denominators this holds
      exactly when the two agree wherever both are defined, whatever their representations. */
  function Equal(a: RatFunc, b: RatFunc): (r: bool)
    ensures a.den != P.Zero && b.den != P.Zero ==>
      (r <==> forall x :: DefinedAt(a, x) && DefinedAt(b, x) ==> Value(a, x) == Value(b, x))
  {
    EqualMeaning(a, b);
    P.Equal(P.Mul(a.num, b.den), P.Mul(a.den, b.num))
  }

  lemma EqualMeaning(a: RatFunc, b: RatFunc)
    ensures a.den != P.Zero && b.den != P.Zero ==>
      (P.Mul(a.num, b.den) == P.Mul(a.den, b.num) <==>
       forall x :: DefinedAt(a, x) && DefinedAt(b, x) ==> Value(a, x) == Value(b, x))
  {
    if a.den != P.Zero && b.den != P.Zero {
      var l, r := P.Mul(a.num, b.den), P.Mul(a.den, b.num);
      if l == r {
        forall x | DefinedAt(a, x) && DefinedAt(b, x) ensures Value(a, x) == Value(b, x) {
          P.EvalMul(a.num, b.den, x);
          P.EvalMul(a.den, b.num, x);
          S.QuotCross(P.Eval(a.num, x), P.Eval(a.den, x), P.Eval(b.num, x), P.Eval(b.den, x));
        }
      }
      if forall x :: DefinedAt(a, x) && DefinedAt(b, x) ==> Value(a, x) == Value(b, x) {
        SameValuesCross(a, b);
      }
    }
  }

  /** Agreement wherever both are defined forces equal cross products: (l - r)·a.den·b.den
      vanishes everywhere, so it is the zero polynomial, and the denominators are not. */
  lemma SameValuesCross(a: RatFunc, b: RatFunc)
    requires a.den != P.Zero && b.den != P.Zero
    requires forall x :: DefinedAt(a, x) && DefinedAt(b, x) ==> Value(a, x) == Value(b, x)
    ensures P.Mul(a.num, b.den) == P.Mul(a.den, b.num)
  {
    var l, r := P.Mul(a.num, b.den), P.Mul(a.den, b.num);
    var diff := P.Sub(l, r);
    var den := P.Mul(a.den, b.den);
    forall x ensures P.Eval(P.Mul(diff, den), x) == P.Eval(P.Zero, x) {
      P.EvalMul(diff, den, x);
      DenProduct(a.den, b.den, x);
      if DefinedAt(a, x) && DefinedAt(b, x) {
        P.EvalSub(l, r, x);
        P.EvalMul(a.num, b.den, x);
        P.EvalMul(a.den, b.num, x);
        S.QuotCross(P.Eval(a.num, x), P.Eval(a.den, x), P.Eval(b.num, x), P.Eval(b.den, x));
        S.MulZero(P.Eval(den, x), P.Eval(diff, x));
      } else {
        S.MulZeroIff(P.Eval(a.den, x), P.Eval(b.den, x));
        S.MulZero(P.Eval(diff, x), P.Eval(den, x));
      }
    }
    P.EvalInjective(P.Mul(diff, den), P.Zero);
    assert diff == P.Zero;
    D.SubAddBack(l, r);
    P.AddZero(r);
  }
}
