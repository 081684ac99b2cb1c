/** `Rational`: a numerator/denominator pair of integers. Every construction path that the model
    uses leaves a positive denominator; `Value` is the exact number the pair denotes, and every
    operation is proved to agree with the corresponding operation on Dafny's exact `real`s. */
module Rationals {
  import opened Operators
  import opened Wrappers

  datatype Rational = Rational(num: int, den: int)

  /** The class invariant that every constructor call of the model establishes. */
  predicate Valid(q: Rational) {
    q.den > 0
  }

  /** The number a pair denotes. */
  function Value(q: Rational): real
    requires q.den != 0
  {
    q.num as real / q.den as real
  }

  /** No integer other than 1 and -1 divides both parts. */
  ghost predicate Lowest(q: Rational) {
    forall c :: Divides(c, q.num) && Divides(c, q.den) ==> c == 1 || c == -1
  }

  /** The default constructor: 0/1. */
  function Zero(): (r: Rational)
    ensures Valid(r) && Value(r) == 0.0 && Lowest(r)
  {
    LowestWithUnitDenominator(0);
    Rational(0, 1)
  }

  /** The one-argument constructor: n/1. */
  function FromInt(n: int): (r: Rational)
    ensures Valid(r) && Value(r) == n as real && Lowest(r) && r.num == n
  {
    LowestWithUnitDenominator(n);
    Rational(n, 1)
  }

  lemma LowestWithUnitDenominator(n: int)
    ensures Lowest(Rational(n, 1))
  {
    forall c | Divides(c, n) && Divides(c, 1)
      ensures c == 1 || c == -1
    {
      var k := DividesWitness(c, 1);
      UnitFactor(c, k);
    }
  }

  /** A factor of 1 is 1 or -1. */
  lemma UnitFactor(c: int, k: int)
    requires c * k == 1
    ensures c == 1 || c == -1
  {
    MulAbsGrows(k, c);
    MulAbsGrows(c, k);
  }

  /** setNumeratorAndDenominator: optionally divides both parts by their (possibly negative) gcd,
      then moves a negative sign from the denominator to the numerator. A reduction of 0/0 divides
      by a zero gcd, which the original does not survive, so it is excluded. */
  function Make(n: int, d: int, reduce: bool): (r: Rational)
    requires !(reduce && n == 0 && d == 0)
    ensures r.den >= 0
    ensures d != 0 ==> r.den > 0 && Value(r) == n as real / d as real
    ensures reduce ==> Lowest(r)
    ensures !reduce ==> (r.num == n && r.den == d) || (r.num == -n && r.den == -d)
    ensures !reduce && Lowest(Rational(n, d)) ==> Lowest(r)
  {
    if reduce then
      var g := Gcd(n, d);
      ReducedValue(n, d, g);
      ReducedLowest(n, d, g);
      SignFix(TruncDiv(n, g), TruncDiv(d, g))
    else SignFix(n, d)
  }

  /** Moves a negative sign from the denominator to the numerator. */
  function SignFix(n: int, d: int): (r: Rational)
    ensures r.den >= 0
    ensures d != 0 ==> r.den > 0 && Value(r) == n as real / d as real
    ensures (r.num == n && r.den == d) || (r.num == -n && r.den == -d)
    ensures Lowest(Rational(n, d)) ==> Lowest(r)
  {
    if d < 0 then
      NegatedValue(n, d);
      NegatedLowest(n, d, -n, -d);
      Rational(-n, -d)
    else Rational(n, d)
  }

  /** Dividing both parts by a common divisor keeps the value. */
  lemma ReducedValue(n: int, d: int, g: int)
    requires g == Gcd(n, d) && g != 0
    ensures d != 0 ==> TruncDiv(d, g) != 0
    ensures d != 0 ==> TruncDiv(n, g) as real / TruncDiv(d, g) as real == n as real / d as real
  {
    ExactQuotient(n, g);
    ExactQuotient(d, g);
    ScaledValue(TruncDiv(n, g), TruncDiv(d, g), g, n, d);
  }

  /** n1/d1 == (n1*g)/(d1*g). */
  lemma ScaledValue(n1: int, d1: int, g: int, n: int, d: int)
    requires n == n1 * g && d == d1 * g
    ensures d != 0 ==> d1 != 0 && n1 as real / d1 as real == n as real / d as real
  {
    if d != 0 {
      CrossScaled(n1, d1, g);
      CrossEq(n1, d1, n, d);
    }
  }

  lemma CrossScaled(n1: int, d1: int, g: int)
    ensures n1 * (d1 * g) == (n1 * g) * d1
  {
    Assoc3(n1, g, d1);
  }

  /** (-n)/(-d) denotes n/d. */
  lemma NegatedValue(n: int, d: int)
    requires d != 0
    ensures (-n) as real / (-d) as real == n as real / d as real
  {
    assert (-n) as real == -(n as real) && (-d) as real == -(d as real);
  }

  /** Dividing by the gcd leaves no common factor. */
  lemma ReducedLowest(n: int, d: int, g: int)
    requires g == Gcd(n, d) && g != 0
    ensures Lowest(Rational(TruncDiv(n, g), TruncDiv(d, g)))
  {
    var n1 := TruncDiv(n, g);
    var d1 := TruncDiv(d, g);
    ExactQuotient(n, g);
    ExactQuotient(d, g);
    forall c | Divides(c, n1) && Divides(c, d1)
      ensures c == 1 || c == -1
    {
      var kn := DividesWitness(c, n1);
      var kd := DividesWitness(c, d1);
      ScaledDivisor(c, kn, g, n1, n);
      ScaledDivisor(c, kd, g, d1, d);
      GcdGreatest(n, d, c * g);
      var k := DividesWitness(c * g, g);
      CancelFactor(c, k, g);
      UnitFactor(c, k);
    }
  }

  /** If n1 == c*k and n == n1*g, then c*g divides n. */
  lemma ScaledDivisor(c: int, k: int, g: int, n1: int, n: int)
    requires n1 == c * k && n == n1 * g
    ensures Divides(c * g, n)
  {
    assert n == (c * g) * k by { Assoc3(c, k, g); Assoc3(c, g, k); }
    MultipleDivides(c * g, k);
  }

  lemma GcdGreatest(n: int, d: int, c: int)
    requires Divides(c, n) && Divides(c, d)
    ensures Divides(c, Gcd(n, d))
  {
  }

  /** g == (c*g)*k with g nonzero forces c*k == 1. */
  lemma CancelFactor(c: int, k: int, g: int)
    requires g != 0 && g == (c * g) * k
    ensures c * k == 1
  {
    assert g * (c * k) == g * 1 by { Assoc3(c, g, k); }
  }

  lemma NegatedLowest(n: int, d: int, n2: int, d2: int)
    requires n2 == -n && d2 == -d
    ensures Lowest(Rational(n, d)) ==> Lowest(Rational(n2, d2))
  {
    if Lowest(Rational(n, d)) {
      forall c | Divides(c, n2) && Divides(c, d2)
        ensures c == 1 || c == -1
      {
        DividesMultiple(c, n2, -1);
        DividesMultiple(c, d2, -1);
      }
    }
  }

  /** Truncating division by a divisor is exact. */
  lemma ExactQuotient(n: int, g: int)
    requires g != 0 && Divides(g, n)
    ensures n == TruncDiv(n, g) * g
  {
    var k := DividesWitness(g, n);
    var q := TruncDiv(n, g);
    var r := TruncRem(n, g);
    assert n == g * q + r;
    assert g * (k - q) == r by { MulSub(g, k, q); }
    if k - q != 0 {
      MulAbsGrows(g, k - q);
      assert false;
    }
  }

  lemma MulSub(g: int, k: int, q: int)
    ensures g * (k - q) == g * k - g * q
  {
  }

  lemma CrossEq(n1: int, d1: int, n2: int, d2: int)
    requires d1 != 0 && d2 != 0 && n1 * d2 == n2 * d1
    ensures n1 as real / d1 as real == n2 as real / d2 as real
  {
    assert (n1 * d2) as real == n1 as real * d2 as real;
    assert (n2 * d1) as real == n2 as real * d1 as real;
  }

  lemma CrossCompare(n1: int, d1: int, n2: int, d2: int)
    requires d1 > 0 && d2 > 0
    ensures n1 * d2 < n2 * d1 <==> n1 as real / d1 as real < n2 as real / d2 as real
    ensures n1 * d2 == n2 * d1 <==> n1 as real / d1 as real == n2 as real / d2 as real
  {
    assert (n1 * d2) as real == n1 as real * d2 as real;
    assert (n2 * d1) as real == n2 as real * d1 as real;
  }

  /** Unary minus: rebuilds -n/d with reduction. */
  function Neg(a: Rational): (r: Rational)
    requires Valid(a)
    ensures Valid(r) && Value(r) == -Value(a) && Lowest(r)
  {
    NegValue(a.num, a.den);
    Make(-a.num, a.den, true)
  }

  lemma NegValue(n: int, d: int)
    requires d != 0
    ensures (-n) as real / d as real == -(n as real / d as real)
  {
    assert (-n) as real == -(n as real);
  }

  /** a/b + c/d over the common denominator (b/g)·d, where g = gcd(b, d), then reduced. */
  function Add(a: Rational, b: Rational): (r: Rational)
    requires Valid(a) && Valid(b)
    ensures Valid(r) && Lowest(r)
    ensures Value(r) == Value(a) + Value(b)
  {
    var g := Gcd(a.den, b.den);
    var x := TruncDiv(a.den, g);
    var y := TruncDiv(b.den, g);
    SumValue(a.num, a.den, b.num, b.den, g);
    Make(a.num * y + b.num * x, x * b.den, true)
  }

  /** a/b - c/d, computed like `Add` with the second numerator subtracted. */
  function Sub(a: Rational, b: Rational): (r: Rational)
    requires Valid(a) && Valid(b)
    ensures Valid(r) && Lowest(r)
    ensures Value(r) == Value(a) - Value(b)
  {
    var g := Gcd(a.den, b.den);
    var x := TruncDiv(a.den, g);
    var y := TruncDiv(b.den, g);
    SumValue(a.num, a.den, -b.num, b.den, g);
    NegValue(b.num, b.den);
    assert a.num * y - b.num * x == a.num * y + (-b.num) * x;
    Make(a.num * y - b.num * x, x * b.den, true)
  }

  /** The gcd-scaled common denominator gives the sum of the two fractions. */
  lemma SumValue(p: int, b: int, q: int, d: int, g: int)
    requires b > 0 && d > 0 && g == Gcd(b, d)
    ensures TruncDiv(b, g) * d > 0
    ensures (p * TruncDiv(d, g) + q * TruncDiv(b, g)) as real / (TruncDiv(b, g) * d) as real
         == p as real / b as real + q as real / d as real
  {
    ExactQuotient(b, g);
    ExactQuotient(d, g);
    SumValueScaled(p, b, q, d, g, TruncDiv(b, g), TruncDiv(d, g));
  }

  lemma SumValueScaled(p: int, b: int, q: int, d: int, g: int, x: int, y: int)
    requires b > 0 && d > 0 && g >= 0 && b == x * g && d == y * g
    ensures x * d > 0
    ensures (p * y + q * x) as real / (x * d) as real == p as real / b as real + q as real / d as real
  {
    PositiveQuotient(b, g, x);
    assert x * d > 0 by { MulGrows(d, x); }
    var n := p * y + q * x;
    var n2 := p * d + q * b;
    assert n2 == n * g by { SumScaled(p, q, x, y, g); }
    assert n * (b * d) == n2 * (x * d) by { Regroup4(n, x, g, d); }
    CrossEq(n, x * d, n2, b * d);
    SumOfFractions(p, b, q, d);
  }

  lemma Regroup4(n: int, x: int, g: int, d: int)
    ensures n * ((x * g) * d) == (n * g) * (x * d)
  {
    Assoc3(x, d, g);
    Assoc3(n, g, x * d);
  }

  lemma PositiveQuotient(b: int, g: int, x: int)
    requires b > 0 && g >= 0 && b == x * g
    ensures x > 0
  {
    if x <= 0 {
      MulGrows(g, -x + 1);
      assert false;
    }
  }

  lemma SumScaled(p: int, q: int, x: int, y: int, g: int)
    ensures p * (y * g) + q * (x * g) == (p * y + q * x) * g
  {
    Assoc3(p, g, y);
    Assoc3(q, g, x);
  }

  lemma SumOfFractions(p: int, b: int, q: int, d: int)
    requires b > 0 && d > 0
    ensures (p * d + q * b) as real / (b * d) as real == p as real / b as real + q as real / d as real
  {
    assert (p * d + q * b) as real == p as real * d as real + q as real * b as real;
    assert (b * d) as real == b as real * d as real;
  }

  /** Cross-cancels a's numerator against b's denominator and b's numerator against a's
      denominator, multiplies, and fixes the sign without reducing again. */
  function Mul(a: Rational, b: Rational): (r: Rational)
    requires Valid(a) && Valid(b)
    ensures Valid(r)
    ensures Value(r) == Value(a) * Value(b)
    ensures Lowest(a) && Lowest(b) ==> Lowest(r)
  {
    var g1 := Gcd(a.num, b.den);
    var g2 := Gcd(b.num, a.den);
    var n := TruncDiv(a.num, g1) * TruncDiv(b.num, g2);
    var d := TruncDiv(a.den, g2) * TruncDiv(b.den, g1);
    MulValue(a, b, g1, g2);
    MulLowest(a, b, g1, g2);
    Make(n, d, false)
  }

  /** Cross-cancelling two fractions in lowest terms leaves a product in lowest terms. */
  lemma MulLowest(a: Rational, b: Rational, g1: int, g2: int)
    requires Valid(a) && Valid(b)
    requires g1 == Gcd(a.num, b.den) && g2 == Gcd(b.num, a.den)
    ensures g1 != 0 && g2 != 0
    ensures Lowest(a) && Lowest(b) ==>
      Lowest(Rational(TruncDiv(a.num, g1) * TruncDiv(b.num, g2), TruncDiv(a.den, g2) * TruncDiv(b.den, g1)))
  {
    if Lowest(a) && Lowest(b) {
      MulLowestCase(a, b, g1, g2);
    }
  }

  lemma MulLowestCase(a: Rational, b: Rational, g1: int, g2: int)
    requires Valid(a) && Valid(b) && Lowest(a) && Lowest(b)
    requires g1 == Gcd(a.num, b.den) && g2 == Gcd(b.num, a.den)
    ensures g1 != 0 && g2 != 0
    ensures Lowest(Rational(TruncDiv(a.num, g1) * TruncDiv(b.num, g2), TruncDiv(a.den, g2) * TruncDiv(b.den, g1)))
  {
    var an, bd := TruncDiv(a.num, g1), TruncDiv(b.den, g1);
    var bn, ad := TruncDiv(b.num, g2), TruncDiv(a.den, g2);
    ExactQuotient(a.num, g1);
    ExactQuotient(b.den, g1);
    ExactQuotient(b.num, g2);
    ExactQuotient(a.den, g2);
    ReducedLowest(a.num, b.den, g1);
    ReducedLowest(b.num, a.den, g2);
    hide *;
    FactorsCoprime(a.num, a.den, an, g1, ad, g2);
    FactorsCoprime(b.num, b.den, bn, g2, bd, g1);
    CoprimeMul(an, ad, bd);
    CoprimeMul(bn, ad, bd);
    CoprimeSym(an, ad * bd);
    CoprimeSym(bn, ad * bd);
    CoprimeMul(ad * bd, an, bn);
    CoprimeSym(ad * bd, an * bn);
  }

  /** Factors of two coprime numbers are coprime. */
  lemma FactorsCoprime(n: int, d: int, n1: int, g: int, d1: int, h: int)
    requires Lowest(Rational(n, d)) && n == n1 * g && d == d1 * h
    ensures Lowest(Rational(n1, d1))
  {
    forall c | Divides(c, n1) && Divides(c, d1)
      ensures c == 1 || c == -1
    {
      DividesMultiple(c, n1, g);
      DividesMultiple(c, d1, h);
    }
  }

  lemma CoprimeSym(x: int, y: int)
    ensures Lowest(Rational(x, y)) <==> Lowest(Rational(y, x))
  {
  }

  /** Coprime numbers combine to 1. */
  lemma CoprimeBezout(x: int, y: int) returns (s: int, t: int)
    requires Lowest(Rational(x, y))
    ensures s * x + t * y == 1
  {
    hide *;
    var g := Gcd(x, y);
    var s0, t0 := Bezout(x, y);
    LowestUnit(x, y, g);
    if g == 1 {
      s, t := s0, t0;
    } else {
      s, t := -s0, -t0;
      NegateSum(s0, x, t0, y);
    }
  }

  lemma NegateSum(s: int, x: int, t: int, y: int)
    ensures (-s) * x + (-t) * y == -(s * x + t * y)
  {
  }

  lemma LowestUnit(x: int, y: int, c: int)
    requires Lowest(Rational(x, y)) && Divides(c, x) && Divides(c, y)
    ensures c == 1 || c == -1
  {
  }

  /** A number coprime to y and to z is coprime to y * z. */
  lemma CoprimeMul(x: int, y: int, z: int)
    requires Lowest(Rational(x, y)) && Lowest(Rational(x, z))
    ensures Lowest(Rational(x, y * z))
  {
    var s, t := CoprimeBezout(x, y);
    var u, v := CoprimeBezout(x, z);
    var p := s * u * x + s * v * z + t * u * y;
    CombineOnes(x, y, z, s, t, u, v, p);
    forall c | Divides(c, x) && Divides(c, y * z)
      ensures c == 1 || c == -1
    {
      DividesCombination(c, x, y * z, p, t * v);
      var k := DividesWitness(c, 1);
      UnitFactor(c, k);
    }
  }

  lemma CombineOnes(x: int, y: int, z: int, s: int, t: int, u: int, v: int, p: int)
    requires s * x + t * y == 1 && u * x + v * z == 1 && p == s * u * x + s * v * z + t * u * y
    ensures p * x + (t * v) * (y * z) == 1
  {
    calc {
      1;
      (s * x + t * y) * (u * x + v * z);
      (s * u * x + s * v * z + t * u * y) * x + (t * v) * (y * z);
    }
  }

  lemma MulValue(a: Rational, b: Rational, g1: int, g2: int)
    requires Valid(a) && Valid(b) && g1 != 0 && g2 != 0
    requires Divides(g1, a.num) && Divides(g1, b.den) && Divides(g2, b.num) && Divides(g2, a.den)
    ensures TruncDiv(a.den, g2) * TruncDiv(b.den, g1) != 0
    ensures (TruncDiv(a.num, g1) * TruncDiv(b.num, g2)) as real
          / (TruncDiv(a.den, g2) * TruncDiv(b.den, g1)) as real == Value(a) * Value(b)
  {
    ExactQuotient(a.num, g1);
    ExactQuotient(b.den, g1);
    ExactQuotient(b.num, g2);
    ExactQuotient(a.den, g2);
    MulValueScaled(a, b, g1, g2, TruncDiv(a.num, g1), TruncDiv(b.den, g1), TruncDiv(b.num, g2), TruncDiv(a.den, g2));
  }

  lemma MulValueScaled(a: Rational, b: Rational, g1: int, g2: int, an: int, bd: int, bn: int, ad: int)
    requires Valid(a) && Valid(b)
    requires a.num == an * g1 && b.den == bd * g1 && b.num == bn * g2 && a.den == ad * g2
    ensures ad * bd != 0
    ensures (an * bn) as real / (ad * bd) as real == Value(a) * Value(b)
  {
    var v := ad * bd;
    assert v != 0 by { NonzeroProduct(ad, bd); }
    var u := an * bn;
    var w := g1 * g2;
    assert a.num * b.num == u * w by { Regroup(an, g1, bn, g2); }
    assert a.den * b.den == v * w by { Regroup(ad, g2, bd, g1); assert g2 * g1 == w; }
    assert u * (v * w) == (u * w) * v by { Assoc3(u, w, v); }
    CrossEq(u, v, a.num * b.num, a.den * b.den);
    ProductOfFractions(a.num, a.den, b.num, b.den);
  }

  lemma NonzeroProduct(x: int, y: int)
    requires x != 0 && y != 0
    ensures x * y != 0
  {
    MulAbsGrows(x, y);
  }

  lemma Regroup(x: int, g: int, y: int, h: int)
    ensures (x * g) * (y * h) == (x * y) * (g * h)
  {
    Assoc3(x * g, h, y);
    Assoc3(x, g * h, y);
  }

  lemma ProductOfFractions(p: int, b: int, q: int, d: int)
    requires b > 0 && d > 0
    ensures (p * q) as real / (b * d) as real == (p as real / b as real) * (q as real / d as real)
  {
    assert (p * q) as real == p as real * q as real;
    assert (b * d) as real == b as real * d as real;
  }

  /** Division multiplies by the swapped pair; a divisor with zero numerator raises. */
  function Div(a: Rational, b: Rational): (r: Result<Rational>)
    requires Valid(a) && Valid(b)
    ensures r.Failure? <==> b.num == 0
    ensures r.Success? ==> Valid(r.value) && Value(r.value) == Value(a) / Value(b)
    ensures r.Success? && Lowest(a) && Lowest(b) ==> Lowest(r.value)
  {
    if b.num == 0 then Failure(ZeroInversion)
    else
      var inv := Make(b.den, b.num, false);
      MulInverse(a, b, inv);
      CoprimeSym(b.num, b.den);
      Success(Mul(a, inv))
  }

  lemma MulInverse(a: Rational, b: Rational, inv: Rational)
    requires Valid(a) && Valid(b) && b.num != 0 && inv == Make(b.den, b.num, false)
    ensures Valid(inv) && Value(Mul(a, inv)) == Value(a) / Value(b)
  {
    InverseValue(b, inv);
    hide *;
    TimesInverse(Value(a), Value(b), Value(inv));
  }

  lemma InverseValue(b: Rational, inv: Rational)
    requires Valid(b) && b.num != 0 && inv == Make(b.den, b.num, false)
    ensures Valid(inv) && Value(b) != 0.0 && Value(inv) == 1.0 / Value(b)
  {
    var x := b.num as real;
    var y := b.den as real;
    assert Value(b) == x / y;
    assert Value(inv) == y / x;
    assert (y / x) * (x / y) == 1.0;
  }

  lemma TimesInverse(x: real, y: real, z: real)
    requires y != 0.0 && z == 1.0 / y
    ensures x * z == x / y
  {
  }

  /** Cross-multiplication orders pairs with positive denominators the way their values are ordered. */
  lemma CompareValues(a: Rational, b: Rational)
    ensures Valid(a) && Valid(b) ==>
      (a.num * b.den < b.num * a.den <==> Value(a) < Value(b)) &&
      (a.num * b.den == b.num * a.den <==> Value(a) == Value(b))
  {
    if Valid(a) && Valid(b) {
      CrossCompare(a.num, a.den, b.num, b.den);
    }
  }

  /** `==`: cross-multiplication. */
  function Eq(a: Rational, b: Rational): (r: bool)
    ensures Valid(a) && Valid(b) ==> (r <==> Value(a) == Value(b))
  {
    CompareValues(a, b);
    a.num * b.den == b.num * a.den
  }

  /** `<`: cross-multiplication, which is the order of values for positive denominators. */
  function Less(a: Rational, b: Rational): (r: bool)
    ensures Valid(a) && Valid(b) ==> (r <==> Value(a) < Value(b))
  {
    CompareValues(a, b);
    a.num * b.den < b.num * a.den
  }

  /** `<=`: cross-multiplication. */
  function LessEq(a: Rational, b: Rational): (r: bool)
    ensures Valid(a) && Valid(b) ==> (r <==> Value(a) <= Value(b))
  {
    CompareValues(a, b);
    a.num * b.den <= b.num * a.den
  }

  /** `>`: cross-multiplication. */
  function Greater(a: Rational, b: Rational): (r: bool)
    ensures Valid(a) && Valid(b) ==> (r <==> Value(a) > Value(b))
  {
    CompareValues(a, b);
    a.num * b.den > b.num * a.den
  }

  /** `>=`: cross-multiplication. */
  function GreaterEq(a: Rational, b: Rational): (r: bool)
    ensures Valid(a) && Valid(b) ==> (r <==> Value(a) >= Value(b))
  {
    CompareValues(a, b);
    a.num * b.den >= b.num * a.den
  }
}
