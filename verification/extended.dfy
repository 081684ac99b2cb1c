/** `ExtendedRationalFunction` (src/ExtendedRationalFunction.h): a rational function written as
    a polynomial part plus a proper fraction whose denominator is a list of factors with
    multiplicities. The constructor splits off the quotient of numerator by denominator, and
    `decompose` factors the denominator: every candidate rational root c found to be a root
    contributes the factor 1 - x/c as often as it divides, and what is left over is either kept as
    one more factor or, when it is a constant, moved into the numerator. */
module ExtendedRationalFunctions {
  import opened Wrappers
  import S = Scalars
  import P = Polynomials
  import D = PolyDivision
  import R = RationalFunctions

  /** `std::pair<Polynomial, unsigned int>`: a factor of the denominator and its multiplicity. */
  datatype Factor = Factor(poly: P.Poly, multiplicity: nat)

  datatype Extended = Extended(rest: P.Poly, numerator: P.Poly, denominator: seq<Factor>)

  /** Line 88: the polynomial 1 - x/c. */
  function RootFactor(c: real): (b: P.Poly)
    requires c != 0.0
    ensures |b| == 2 && b[0] == 1.0 && P.Eval(b, c) == 0.0
  {
    var t := S.Quot(-1.0, c);
    RootFactorFacts(c);
    [1.0, t]
  }

  lemma RootFactorFacts(c: real)
    requires c != 0.0
    ensures S.Quot(-1.0, c) != 0.0
    ensures P.Eval([1.0, S.Quot(-1.0, c)], c) == 0.0
  {
    var t := S.Quot(-1.0, c);
    var s := [1.0, t];
    S.MulComm(t, c);
    if t == 0.0 {
      S.MulZero(c, t);
    }
    P.HornerUnfold(s, 0, 2, c);
    P.HornerUnfold(s, 1, 2, c);
    S.MulZero(c, 0.0);
  }

  /** A root c of a (c nonzero) makes 1 - x/c an exact divisor: the quotient is one shorter. */
  lemma FactorDivides(a: P.Poly, c: real)
    requires a != P.Zero && c != 0.0 && P.Eval(a, c) == 0.0
    ensures D.Div(a, RootFactor(c)).Success?
    ensures D.Div(a, RootFactor(c)).value.1 == P.Zero
    ensures a == P.Mul(D.Div(a, RootFactor(c)).value.0, RootFactor(c))
    ensures |D.Div(a, RootFactor(c)).value.0| == |a| - 1
  {
    hide S.Mul;
    var b := RootFactor(c);
    var qr := D.Div(a, b).value;
    var q, r := qr.0, qr.1;
    P.EvalAdd(P.Mul(q, b), r, c);
    P.EvalMul(q, b, c);
    S.MulZero(P.Eval(q, c), 0.0);
    P.HornerUnfold(r, 0, 1, c);
    S.MulZero(c, 0.0);
    assert r == P.Zero;
    P.AddZero(P.Mul(q, b));
  }

  /** Lines 91-94: divide by 1 - x/c, counting, as long as c is still a root. The result is the
      cofactor, which no longer vanishes at c, and the multiplicity, at least 1. */
  function DivideOut(a: P.Poly, c: real): (r: (P.Poly, nat))
    requires a != P.Zero && c != 0.0 && P.Eval(a, c) == 0.0
    ensures r.0 != P.Zero && |r.0| < |a| && r.1 >= 1 && P.Eval(r.0, c) != 0.0
    decreases |a|
  {
    FactorDivides(a, c);
    var q := D.Div(a, RootFactor(c)).value.0;
    if P.Eval(q, c) == 0.0 then
      var r := DivideOut(q, c);
      (r.0, r.1 + 1)
    else (q, 1)
  }

  /** One round of the do-while: the quotient by 1 - x/c and what the rest of the loop makes
      of it. */
  lemma DivideOutStep(a: P.Poly, c: real) returns (q: P.Poly)
    requires a != P.Zero && c != 0.0 && P.Eval(a, c) == 0.0
    ensures q != P.Zero && |q| < |a| && a == P.Mul(q, RootFactor(c))
    ensures DivideOut(a, c) == if P.Eval(q, c) == 0.0 then (DivideOut(q, c).0, DivideOut(q, c).1 + 1) else (q, 1)
  {
    hide D.Div, RootFactor, P.Mul, P.Eval, S.Mul;
    FactorDivides(a, c);
    q := D.Div(a, RootFactor(c)).value.0;
  }

  /** What `DivideOut` removed, in values: a(x) = (1 - x/c)^m · a'(x). */
  lemma {:induction false} DivideOutValue(a: P.Poly, c: real, x: real)
    requires a != P.Zero && c != 0.0 && P.Eval(a, c) == 0.0
    ensures P.Eval(a, x) == S.Mul(P.Power(P.Eval(RootFactor(c), x), DivideOut(a, c).1), P.Eval(DivideOut(a, c).0, x))
    decreases |a|
  {
    hide S.Mul, D.Div, RootFactor, P.Mul, P.Eval, DivideOut;
    var q := DivideOutStep(a, c);
    var b := RootFactor(c);
    var bx, qx := P.Eval(b, x), P.Eval(q, x);
    P.EvalMul(q, b, x);
    S.MulComm(qx, bx);
    assert P.Eval(a, x) == S.Mul(bx, qx);
    if P.Eval(q, c) == 0.0 {
      DivideOutValue(q, c, x);
      var m := DivideOut(q, c);
      assert P.Power(bx, m.1 + 1) == S.Mul(bx, P.Power(bx, m.1));
      S.MulAssoc(bx, P.Power(bx, m.1), P.Eval(m.0, x));
    } else {
      assert P.Power(bx, 1) == S.Mul(bx, 1.0);
      S.MulOne(bx);
    }
  }

  /** The factor is 1 - x/c for a nonzero candidate c that is a root of a. */
  predicate FromCandidateRoot(f: Factor, a: P.Poly, cands: seq<real>) {
    exists k | 0 <= k < |cands| :: cands[k] != 0.0 && P.Eval(a, cands[k]) == 0.0 && f.poly == RootFactor(cands[k])
  }

  /** Factors found among the later candidates, at roots of b, come from candidate roots of a
      whenever every root of b is a root of a. */
  lemma FromLaterRoots(fs: seq<Factor>, a: P.Poly, b: P.Poly, cands: seq<real>)
    requires cands != []
    requires forall i | 0 <= i < |fs| :: FromCandidateRoot(fs[i], b, cands[1..])
    requires forall x | P.Eval(b, x) == 0.0 :: P.Eval(a, x) == 0.0
    ensures forall i | 0 <= i < |fs| :: FromCandidateRoot(fs[i], a, cands)
  {
    forall i | 0 <= i < |fs| ensures FromCandidateRoot(fs[i], a, cands) {
      var k :| 0 <= k < |cands[1..]| && cands[1..][k] != 0.0 && P.Eval(b, cands[1..][k]) == 0.0
        && fs[i].poly == RootFactor(cands[1..][k]);
      assert cands[k + 1] == cands[1..][k];
    }
  }

  /** The factor divided out for the first candidate, put in front of those found among the
      later candidates in the cofactor, keeps the shape and the origin of every factor. */
  lemma ConsFactor(a: P.Poly, cands: seq<real>, m: (P.Poly, nat), fs: seq<Factor>)
    requires cands != [] && cands[0] != 0.0 && a != P.Zero && P.Eval(a, cands[0]) == 0.0
    requires m == DivideOut(a, cands[0])
    requires forall i | 0 <= i < |fs| :: fs[i].multiplicity >= 1 && |fs[i].poly| == 2 && fs[i].poly[0] == 1.0
    requires forall i | 0 <= i < |fs| :: FromCandidateRoot(fs[i], m.0, cands[1..])
    ensures forall i | 0 <= i < |[Factor(RootFactor(cands[0]), m.1)] + fs| ::
      var f := ([Factor(RootFactor(cands[0]), m.1)] + fs)[i];
      f.multiplicity >= 1 && |f.poly| == 2 && f.poly[0] == 1.0
    ensures forall i | 0 <= i < |[Factor(RootFactor(cands[0]), m.1)] + fs| ::
      FromCandidateRoot(([Factor(RootFactor(cands[0]), m.1)] + fs)[i], a, cands)
  {
    hide DivideOut, RootFactor, P.Eval;
    var c := cands[0];
    DivideOutRoots(a, c);
    FromLaterRoots(fs, a, m.0, cands);
    var head := Factor(RootFactor(c), m.1);
    assert FromCandidateRoot(head, a, cands);
    forall i | 0 <= i < |[head] + fs| ensures ([head] + fs)[i] == if i == 0 then head else fs[i - 1] {
    }
  }

  /** Every root of the cofactor is a root of a. */
  lemma DivideOutRoots(a: P.Poly, c: real)
    requires a != P.Zero && c != 0.0 && P.Eval(a, c) == 0.0
    ensures forall x | P.Eval(DivideOut(a, c).0, x) == 0.0 :: P.Eval(a, x) == 0.0
  {
    forall x | P.Eval(DivideOut(a, c).0, x) == 0.0 ensures P.Eval(a, x) == 0.0 {
      DivideOutValue(a, c, x);
      S.MulZeroIff(P.Power(P.Eval(RootFactor(c), x), DivideOut(a, c).1), P.Eval(DivideOut(a, c).0, x));
    }
  }

  /** The value of a factor list: the product of the factors' values, each raised to its
      multiplicity. */
  function DenValue(fs: seq<Factor>, x: real): real {
    if fs == [] then 1.0 else S.Mul(P.Power(P.Eval(fs[0].poly, x), fs[0].multiplicity), DenValue(fs[1..], x))
  }

  lemma {:induction false} DenValueAppend(fs: seq<Factor>, f: Factor, x: real)
    ensures DenValue(fs + [f], x) == S.Mul(DenValue(fs, x), P.Power(P.Eval(f.poly, x), f.multiplicity))
  {
    if fs == [] {
      assert DenValue([f], x) == S.Mul(P.Power(P.Eval(f.poly, x), f.multiplicity), DenValue([], x));
    } else {
      assert (fs + [f])[1..] == fs[1..] + [f];
      DenValueAppend(fs[1..], f, x);
    }
  }

  /** Lines 85-97: for each candidate in turn that is a root of what is left of a, divide it
      out and record the factor 1 - x/c with its multiplicity. A zero candidate that is a root
      makes `Rational(-1) / candidate` throw. */
  function FactorOut(a: P.Poly, cands: seq<real>): (r: Result<(seq<Factor>, P.Poly)>)
    requires a != P.Zero
    ensures r.Failure? ==> r.error == ZeroInversion && 0.0 in cands
    ensures r.Success? ==> r.value.1 != P.Zero && |r.value.1| <= |a|
    ensures r.Success? ==> forall i | 0 <= i < |r.value.0| ::
      r.value.0[i].multiplicity >= 1 && |r.value.0[i].poly| == 2 && r.value.0[i].poly[0] == 1.0
    ensures r.Success? ==> forall i | 0 <= i < |r.value.0| :: FromCandidateRoot(r.value.0[i], a, cands)
    decreases |cands|
  {
    if cands == [] then Success(([], a))
    else
      hide FromCandidateRoot, RootFactor, DivideOut, P.Eval;
      var c := cands[0];
      if P.Eval(a, c) != 0.0 then
        var r := FactorOut(a, cands[1..]);
        if r.Success? then FromLaterRoots(r.value.0, a, a, cands); r else r
      else if c == 0.0 then Failure(ZeroInversion)
      else
        var m := DivideOut(a, c);
        var r :- FactorOut(m.0, cands[1..]);
        ConsFactor(a, cands, m, r.0);
        Success(([Factor(RootFactor(c), m.1)] + r.0, r.1))
  }

  /** The factors and the leftover multiply back to a: a(x) = Π f_i(x)^m_i · left(x). */
  lemma {:induction false} FactorOutValue(a: P.Poly, cands: seq<real>, x: real)
    requires a != P.Zero && FactorOut(a, cands).Success?
    ensures P.Eval(a, x) == S.Mul(DenValue(FactorOut(a, cands).value.0, x), P.Eval(FactorOut(a, cands).value.1, x))
    decreases |cands|
  {
    if cands == [] {
      S.MulOne(P.Eval(a, x));
    } else {
      var c := cands[0];
      if P.Eval(a, c) != 0.0 {
        FactorOutValue(a, cands[1..], x);
      } else {
        var m := DivideOut(a, c);
        DivideOutValue(a, c, x);
        FactorOutValue(m.0, cands[1..], x);
        var fs := FactorOut(a, cands).value.0;
        assert fs[1..] == FactorOut(m.0, cands[1..]).value.0;
        S.MulAssoc(P.Power(P.Eval(RootFactor(c), x), m.1), DenValue(fs[1..], x), P.Eval(FactorOut(a, cands).value.1, x));
      }
    }
  }

  /** Every root among the candidates is divided out completely: the leftover vanishes at none
      of them. */
  lemma {:induction false} FactorOutNoRoot(a: P.Poly, cands: seq<real>)
    requires a != P.Zero && FactorOut(a, cands).Success?
    ensures forall k | 0 <= k < |cands| :: P.Eval(FactorOut(a, cands).value.1, cands[k]) != 0.0
    decreases |cands|
  {
    if cands != [] {
      var c := cands[0];
      var left := FactorOut(a, cands).value.1;
      if P.Eval(a, c) != 0.0 {
        FactorOutNoRoot(a, cands[1..]);
        FactorOutValue(a, cands[1..], c);
        S.MulZeroIff(DenValue(FactorOut(a, cands[1..]).value.0, c), P.Eval(left, c));
      } else {
        var m := DivideOut(a, c);
        FactorOutNoRoot(m.0, cands[1..]);
        FactorOutValue(m.0, cands[1..], c);
        S.MulZeroIff(DenValue(FactorOut(m.0, cands[1..]).value.0, c), P.Eval(left, c));
      }
      forall k | 0 <= k < |cands| ensures P.Eval(left, cands[k]) != 0.0 {
        if k > 0 {
          assert cands[k] == cands[1..][k - 1];
        }
      }
    }
  }

  /** A polynomial that does not vanish at 0 never meets the zero candidate as a root, so the
      factoring cannot fail. */
  lemma {:induction false} FactorOutSucceeds(a: P.Poly, cands: seq<real>)
    requires a != P.Zero && P.Eval(a, 0.0) != 0.0
    ensures FactorOut(a, cands).Success?
    decreases |cands|
  {
    if cands != [] {
      var c := cands[0];
      if P.Eval(a, c) != 0.0 {
        FactorOutSucceeds(a, cands[1..]);
      } else {
        var m := DivideOut(a, c);
        DivideOutValue(a, c, 0.0);
        S.MulZeroIff(P.Power(P.Eval(RootFactor(c), 0.0), m.1), P.Eval(m.0, 0.0));
        FactorOutSucceeds(m.0, cands[1..]);
      }
    }
  }

  /** Lines 24-104 without the search for candidates: a is first multiplied by g, the gcd of
      its coefficients' denominators (lines 25-29); the candidate roots are divided out; a
      leftover of positive degree becomes the last factor (lines 98-99), and a constant one
      divides the numerator instead (lines 100-101). The result is the new numerator and the
      factor list. */
  function Decompose(a: P.Poly, g: real, cands: seq<real>, numerator: P.Poly): (r: Result<(P.Poly, seq<Factor>)>)
    requires a != P.Zero && g != 0.0
    ensures r.Failure? ==> r.error == ZeroInversion && 0.0 in cands
    ensures r.Success? ==> forall i | 0 <= i < |r.value.1| :: r.value.1[i].multiplicity >= 1
  {
    var a1 := P.Mul(a, P.Constant(g));
    var fl :- FactorOut(a1, cands);
    var left := fl.1;
    if P.Degree(left) > 0 then Success((numerator, fl.0 + [Factor(left, 1)]))
    else Success((D.Quotient(numerator, left).value, fl.0))
  }

  /** What `Decompose` computes, in values: numerator over factors is the given numerator over
      g·a, wherever a does not vanish. Needs a to have at most 2^32 coefficients, so that
      `degree()` does not wrap. */
  lemma DecomposeValue(a: P.Poly, g: real, cands: seq<real>, numerator: P.Poly, x: real)
    requires a != P.Zero && g != 0.0 && |a| <= 0x1_0000_0000 && P.Eval(a, x) != 0.0
    requires Decompose(a, g, cands, numerator).Success?
    ensures S.Mul(P.Eval(a, x), g) != 0.0
    ensures DenValue(Decompose(a, g, cands, numerator).value.1, x) != 0.0
    ensures S.Quot(P.Eval(Decompose(a, g, cands, numerator).value.0, x), DenValue(Decompose(a, g, cands, numerator).value.1, x))
         == S.Quot(P.Eval(numerator, x), S.Mul(P.Eval(a, x), g))
  {
    hide S.Mul, P.Eval, FactorOut, DenValue, D.Quotient;
    var gc := P.Constant(g);
    assert gc == [g];
    var a1 := P.Mul(a, gc);
    P.EvalMul(a, gc, x);
    P.EvalConstant(g, x);
    S.MulZeroIff(P.Eval(a, x), g);
    var fl := FactorOut(a1, cands).value;
    var fs, left := fl.0, fl.1;
    var dv, lx := DenValue(fs, x), P.Eval(left, x);
    FactorOutValue(a1, cands, x);
    S.MulZeroIff(dv, lx);
    var r := Decompose(a, g, cands, numerator).value;
    if P.Degree(left) > 0 {
      assert r == (numerator, fs + [Factor(left, 1)]);
      DenValueAppend(fs, Factor(left, 1), x);
      assert P.Power(lx, 1) == S.Mul(lx, 1.0);
      S.MulOne(lx);
    } else {
      assert |left| == 1;
      assert left == P.Constant(left[0]);
      D.ConstantDivides(left[0], numerator);
      D.QuotientExact(numerator, left);
      var n := D.Quotient(numerator, left).value;
      assert r == (n, fs);
      P.EvalMul(n, left, x);
      S.QuotCancel(P.Eval(n, x), dv, lx);
    }
  }

  /** The value of an extended rational function where its factors do not vanish:
      rest(x) + numerator(x) / Π f_i(x)^m_i. */
  function Value(e: Extended, x: real): real
    requires DenValue(e.denominator, x) != 0.0
  {
    P.Eval(e.rest, x) + S.Quot(P.Eval(e.numerator, x), DenValue(e.denominator, x))
  }

  /** The constructor (lines 17-22): the quotient of numerator by denominator becomes `rest`,
      the remainder the numerator, and the denominator is decomposed with the candidate roots
      `cands` and the gcd g of its coefficients' denominators. The original leaves the remainder
      unscaled although the denominator is multiplied by g; `scaleNumerator` says whether the
      remainder is multiplied by g as well. */
  function Extend(f: R.RatFunc, g: real, cands: seq<real>, scaleNumerator: bool): (r: Result<Extended>)
    requires f.den != P.Zero && g != 0.0
    ensures r.Failure? ==> r.error == ZeroInversion && 0.0 in cands
    ensures r.Success? ==> forall i | 0 <= i < |r.value.denominator| :: r.value.denominator[i].multiplicity >= 1
  {
    var qr := D.Div(f.num, f.den).value;
    var numerator := if scaleNumerator then P.Mul(qr.1, P.Constant(g)) else qr.1;
    var nd :- Decompose(f.den, g, cands, numerator);
    Success(Extended(qr.0, nd.0, nd.1))
  }

  /** q(x) + r(x)/d(x) is the value of (q·d + r)/d. */
  lemma SplitValue(q: real, r: real, d: real)
    requires d != 0.0
    ensures S.Quot(S.Mul(q, d) + r, d) == q + S.Quot(r, d)
  {
  }

  /** The constructor as written: where f is defined, the result is q(x) + r(x)/(g·den(x)) for
      the quotient q and remainder r of num by den, while f itself is q(x) + r(x)/den(x). The
      two agree only when g is 1. */
  lemma AsWrittenValue(f: R.RatFunc, g: real, cands: seq<real>, x: real)
    requires f.den != P.Zero && g != 0.0 && |f.den| <= 0x1_0000_0000 && R.DefinedAt(f, x)
    requires Extend(f, g, cands, false).Success?
    ensures DenValue(Extend(f, g, cands, false).value.denominator, x) != 0.0
    ensures S.Mul(P.Eval(f.den, x), g) != 0.0
    ensures Value(Extend(f, g, cands, false).value, x)
         == P.Eval(D.Div(f.num, f.den).value.0, x) + S.Quot(P.Eval(D.Div(f.num, f.den).value.1, x), S.Mul(P.Eval(f.den, x), g))
    ensures R.Value(f, x)
         == P.Eval(D.Div(f.num, f.den).value.0, x) + S.Quot(P.Eval(D.Div(f.num, f.den).value.1, x), P.Eval(f.den, x))
  {
    hide S.Mul, P.Eval, Decompose, DenValue, D.Div;
    var qr := D.Div(f.num, f.den).value;
    DecomposeValue(f.den, g, cands, qr.1, x);
    P.EvalAdd(P.Mul(qr.0, f.den), qr.1, x);
    P.EvalMul(qr.0, f.den, x);
    SplitValue(P.Eval(qr.0, x), P.Eval(qr.1, x), P.Eval(f.den, x));
  }

  /** With the remainder scaled too, the extended function has the value of f wherever f is
      defined. */
  lemma CorrectedValue(f: R.RatFunc, g: real, cands: seq<real>, x: real)
    requires f.den != P.Zero && g != 0.0 && |f.den| <= 0x1_0000_0000 && R.DefinedAt(f, x)
    requires Extend(f, g, cands, true).Success?
    ensures DenValue(Extend(f, g, cands, true).value.denominator, x) != 0.0
    ensures Value(Extend(f, g, cands, true).value, x) == R.Value(f, x)
  {
    hide S.Mul, P.Eval, Decompose, DenValue, D.Div;
    var qr := D.Div(f.num, f.den).value;
    var gc := P.Constant(g);
    var n := P.Mul(qr.1, gc);
    DecomposeValue(f.den, g, cands, n, x);
    P.EvalMul(qr.1, gc, x);
    P.EvalConstant(g, x);
    S.QuotCancel(P.Eval(qr.1, x), P.Eval(f.den, x), g);
    P.EvalAdd(P.Mul(qr.0, f.den), qr.1, x);
    P.EvalMul(qr.0, f.den, x);
    SplitValue(P.Eval(qr.0, x), P.Eval(qr.1, x), P.Eval(f.den, x));
  }

  /** When g is 1, the case of every reduced rational function (its denominator's constant
      term is 1, whose denominator is 1), scaling the remainder changes nothing. */
  lemma GcdOne(f: R.RatFunc, cands: seq<real>)
    requires f.den != P.Zero
    ensures Extend(f, 1.0, cands, false) == Extend(f, 1.0, cands, true)
  {
    P.MulOne(D.Div(f.num, f.den).value.1);
  }

  /** A denominator that does not vanish at 0, so every reduced one, is always decomposed: the
      zero candidate is never a root. */
  lemma ExtendSucceeds(f: R.RatFunc, g: real, cands: seq<real>, scaleNumerator: bool)
    requires f.den != P.Zero && g != 0.0 && R.DefinedAt(f, 0.0)
    ensures Extend(f, g, cands, scaleNumerator).Success?
  {
    hide S.Mul, P.Eval, FactorOut;
    var gc := P.Constant(g);
    P.EvalMul(f.den, gc, 0.0);
    P.EvalConstant(g, 0.0);
    S.MulZeroIff(P.Eval(f.den, 0.0), g);
    FactorOutSucceeds(P.Mul(f.den, gc), cands);
  }

  lemma CanonicalSucceeds(f: R.RatFunc, g: real, cands: seq<real>, scaleNumerator: bool)
    requires R.Canonical(f) && g != 0.0
    ensures Extend(f, g, cands, scaleNumerator).Success?
  {
    P.EvalAtZero(f.den);
    ExtendSucceeds(f, g, cands, scaleNumerator);
  }

  /** 1/((1 + x)/2), kept unreduced: its denominator's coefficients are 1/2 and 1/2, so g is 2.
      The constructor as written yields 1/(1 + x), which is 1 at x = 0 where f is 2. */
  lemma AsWrittenLosesGcd()
    ensures var f := R.RatFunc([1.0], [0.5, 0.5]);
      Extend(f, 2.0, [], false).Success? && R.DefinedAt(f, 0.0) && R.Value(f, 0.0) == 2.0 &&
      DenValue(Extend(f, 2.0, [], false).value.denominator, 0.0) != 0.0 &&
      Value(Extend(f, 2.0, [], false).value, 0.0) == 1.0
  {
    var f := R.RatFunc([1.0], [0.5, 0.5]);
    P.EvalAtZero(f.den);
    P.EvalAtZero(f.num);
    P.EvalAtZero(P.Zero);
    ExtendSucceeds(f, 2.0, [], false);
    AsWrittenValue(f, 2.0, [], 0.0);
  }
}
