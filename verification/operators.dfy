/** Integer helpers of the number tower: C++ truncating division, Euclid's gcd and trial-division
    prime factorisation, over unbounded integers (the original uses arbitrary-precision integers). */
module Operators {

  function Abs(a: int): nat {
    if a < 0 then -a else a
  }

  /** `d` divides `n`; zero divides only zero. */
  predicate Divides(d: int, n: int) {
    if d == 0 then n == 0 else n % d == 0
  }

  /** C++ `/` on integers: the quotient is truncated toward zero. */
  function TruncDiv(a: int, b: int): int
    requires b != 0
  {
    if a >= 0 then (if b > 0 then a / b else -(a / -b))
    else (if b > 0 then -((-a) / b) else (-a) / (-b))
  }

  /** C++ `%` on integers: the remainder carries the sign of the dividend. */
  function TruncRem(a: int, b: int): (r: int)
    requires b != 0
    ensures a == b * TruncDiv(a, b) + r
    ensures Abs(r) < Abs(b)
    ensures a >= 0 ==> r >= 0
    ensures a <= 0 ==> r <= 0
  {
    TruncDivRem(a, b);
    if a >= 0 then a % Abs(b) else -((-a) % Abs(b))
  }

  lemma TruncDivRem(a: int, b: int)
    requires b != 0
    ensures a >= 0 ==> a == b * TruncDiv(a, b) + a % Abs(b)
    ensures a < 0 ==> a == b * TruncDiv(a, b) - (-a) % Abs(b)
  {
    if a >= 0 {
      if b > 0 {
        assert a == b * (a / b) + a % b;
      } else {
        assert a == (-b) * (a / -b) + a % (-b);
        assert b * -(a / -b) == (-b) * (a / -b);
      }
    } else {
      if b > 0 {
        assert -a == b * ((-a) / b) + (-a) % b;
        assert b * -((-a) / b) == -(b * ((-a) / b));
      } else {
        assert -a == (-b) * ((-a) / -b) + (-a) % (-b);
        assert b * ((-a) / -b) == -((-b) * ((-a) / -b));
      }
    }
  }

  lemma MulGrows(x: int, y: int)
    requires x >= 0 && y >= 1
    ensures x * y >= x
  {
  }

  lemma MulAbsGrows(d: int, m: int)
    requires m != 0
    ensures Abs(d * m) >= Abs(d)
  {
    if m > 0 {
      if d >= 0 { MulGrows(d, m); } else { MulGrows(-d, m); assert (-d) * m == -(d * m); }
    } else {
      if d >= 0 { MulGrows(d, -m); assert d * (-m) == -(d * m); } else { MulGrows(-d, -m); assert (-d) * (-m) == d * m; }
    }
  }

  lemma MultipleDivides(d: int, k: int)
    ensures Divides(d, d * k)
  {
    if d != 0 {
      var n := d * k;
      var q := n / d;
      var r := n % d;
      assert n == d * q + r;
      assert d * (k - q) == r;
      if k - q != 0 {
        MulAbsGrows(d, k - q);
        assert false;
      }
    }
  }

  lemma DividesWitness(d: int, n: int) returns (k: int)
    requires Divides(d, n)
    ensures n == d * k
  {
    if d == 0 {
      k := 0;
    } else {
      k := n / d;
      assert n == d * (n / d) + n % d;
    }
  }

  /** Divisibility is closed under integer linear combinations. */
  lemma DividesCombination(d: int, x: int, y: int, p: int, q: int)
    requires Divides(d, x) && Divides(d, y)
    ensures Divides(d, p * x + q * y)
  {
    var kx := DividesWitness(d, x);
    var ky := DividesWitness(d, y);
    assert p * x == d * (p * kx);
    assert q * y == d * (q * ky);
    assert p * x + q * y == d * (p * kx + q * ky);
    MultipleDivides(d, p * kx + q * ky);
  }

  lemma DividesTransitive(c: int, d: int, n: int)
    requires Divides(c, d) && Divides(d, n)
    ensures Divides(c, n)
  {
    var k1 := DividesWitness(c, d);
    var k2 := DividesWitness(d, n);
    assert n == c * (k1 * k2);
    MultipleDivides(c, k1 * k2);
  }

  lemma DividesMultiple(d: int, a: int, m: int)
    requires Divides(d, a)
    ensures Divides(d, a * m)
  {
    var k := DividesWitness(d, a);
    assert a * m == d * (k * m);
    MultipleDivides(d, k * m);
  }

  /** Euclid's algorithm as the original runs it, with the truncating `%`; the result may be
      negative. It divides both inputs, every common divisor divides it, and it is zero only for
      two zero inputs. */
  function Gcd(a: int, b: int): (g: int)
    decreases Abs(b)
    ensures Divides(g, a) && Divides(g, b)
    ensures forall c :: Divides(c, a) && Divides(c, b) ==> Divides(c, g)
    ensures g == 0 <==> a == 0 && b == 0
    ensures b == 0 ==> g == a
    ensures a >= 0 && b >= 0 ==> g >= 0
  {
    if b == 0 then a
    else
      var r := TruncRem(a, b);
      var g := Gcd(b, r);
      GcdStep(a, b, r, g);
      g
  }

  lemma GcdStep(a: int, b: int, r: int, g: int)
    requires b != 0 && r == TruncRem(a, b)
    requires Divides(g, b) && Divides(g, r)
    ensures Divides(g, a)
    ensures forall c :: Divides(c, a) && Divides(c, b) ==> Divides(c, r)
  {
    hide *;
    var q := TruncDiv(a, b);
    assert a == b * q + r;
    DividesQuotientSum(g, a, b, q, r);
    forall c | Divides(c, a) && Divides(c, b)
      ensures Divides(c, r)
    {
      DividesQuotientRest(c, a, b, q, r);
    }
  }

  /** A common divisor of `b` and `r` divides `b * q + r`. */
  lemma DividesQuotientSum(d: int, a: int, b: int, q: int, r: int)
    requires a == b * q + r && Divides(d, b) && Divides(d, r)
    ensures Divides(d, a)
  {
    assert a == q * b + 1 * r;
    DividesCombination(d, b, r, q, 1);
  }

  /** A common divisor of `a` and `b` divides `a - b * q`. */
  lemma DividesQuotientRest(d: int, a: int, b: int, q: int, r: int)
    requires a == b * q + r && Divides(d, a) && Divides(d, b)
    ensures Divides(d, r)
  {
    assert r == 1 * a + (-q) * b;
    DividesCombination(d, a, b, 1, -q);
  }

  /** Bezout's identity for the gcd as Euclid computes it: it is an integer combination of the
      two inputs. */
  lemma {:induction false} Bezout(a: int, b: int) returns (s: int, t: int)
    ensures s * a + t * b == Gcd(a, b)
    decreases Abs(b)
  {
    if b == 0 {
      s, t := 1, 0;
    } else {
      var q, r := TruncDiv(a, b), TruncRem(a, b);
      assert Gcd(a, b) == Gcd(b, r);
      var s', t' := Bezout(b, r);
      BezoutStep(a, b, q, r, s', t');
      s, t := t', s' - t' * q;
    }
  }

  lemma BezoutStep(a: int, b: int, q: int, r: int, s: int, t: int)
    requires a == b * q + r
    ensures t * a + (s - t * q) * b == s * b + t * r
  {
    assert t * a == t * (b * q) + t * r;
    assert t * (b * q) == (t * q) * b;
  }

  /** `p` is a prime number. */
  predicate IsPrime(p: int) {
    p >= 2 && forall d :: 2 <= d < p ==> p % d != 0
  }

  function Pow(b: int, e: nat): int {
    if e == 0 then 1 else b * Pow(b, e - 1)
  }

  /** The product of p^e over a factor list. */
  function Product(factors: seq<(int, nat)>): int {
    if |factors| == 0 then 1 else Product(factors[..|factors| - 1]) * Pow(factors[|factors| - 1].0, factors[|factors| - 1].1)
  }

  lemma PowPositive(b: int, e: nat)
    requires b >= 1
    ensures Pow(b, e) >= 1
  {
    if e > 0 {
      PowPositive(b, e - 1);
      assert b * Pow(b, e - 1) >= 1 * Pow(b, e - 1);
    }
  }

  lemma PowAtLeastBase(b: int, e: nat)
    requires b >= 2 && e >= 1
    ensures Pow(b, e) >= 2
  {
    PowPositive(b, e - 1);
    assert b * Pow(b, e - 1) >= 2 * 1;
  }

  lemma ProductAtLeast2(factors: seq<(int, nat)>)
    requires |factors| > 0
    requires forall k :: 0 <= k < |factors| ==> factors[k].0 >= 2 && factors[k].1 >= 1
    ensures Product(factors) >= 2
  {
    var init := factors[..|factors| - 1];
    var last := factors[|factors| - 1];
    PowAtLeastBase(last.0, last.1);
    if |init| > 0 {
      ProductAtLeast2(init);
    }
    assert Product(init) >= 1;
    assert Product(init) * Pow(last.0, last.1) >= 1 * 2;
  }

  /** If `i` divides `a` and nothing in [2, i) does, then `i` is prime. */
  lemma SmallestDivisorIsPrime(a: int, i: int)
    requires a >= 1 && i >= 2 && a % i == 0
    requires forall d :: 2 <= d < i ==> a % d != 0
    ensures IsPrime(i)
  {
    forall d | 2 <= d < i
      ensures i % d != 0
    {
      if i % d == 0 {
        DividesTransitive(d, i, a);
      }
    }
  }

  lemma ProductAppend(factors: seq<(int, nat)>, p: (int, nat))
    ensures Product(factors + [p]) == Product(factors) * Pow(p.0, p.1)
  {
    assert (factors + [p])[..|factors|] == factors;
  }

  /** Trial-division factorisation of |a|: strictly increasing primes, each with exponent at least
      one, whose powers multiply back to |a|; |a| = 1 gives the empty list. The original loops
      forever on 0, which is therefore excluded. */
  method PrimeFactors(a0: int) returns (factors: seq<(int, nat)>)
    requires a0 != 0
    ensures forall k :: 0 <= k < |factors| ==> IsPrime(factors[k].0) && factors[k].1 >= 1
    ensures forall k, l :: 0 <= k < l < |factors| ==> factors[k].0 < factors[l].0
    ensures Product(factors) == Abs(a0)
    ensures Abs(a0) == 1 <==> factors == []
  {
    var a := if a0 < 0 then -a0 else a0;
    var i := 2;
    factors := [];
    while a != 1
      invariant a >= 1 && i >= 2
      invariant Product(factors) * a == Abs(a0)
      invariant forall k :: 0 <= k < |factors| ==> IsPrime(factors[k].0) && factors[k].1 >= 1
      invariant forall k :: 0 <= k < |factors| ==> factors[k].0 < i
      invariant forall k, l :: 0 <= k < l < |factors| ==> factors[k].0 < factors[l].0
      invariant forall d :: 2 <= d < i ==> a % d != 0
      invariant a != 1 ==> i <= a
      decreases a - i + 1
    {
      if a % i == 0 {
        SmallestDivisorIsPrime(a, i);
        a, factors := DivideOut(a, i, factors, a0);
      }
      i := i + 1;
      assert a % a == 0;
    }
    if Abs(a0) == 1 && factors != [] {
      ProductAtLeast2(factors);
    }
  }

  /** The inner do-while loop: divides `i` out of `a` as often as it goes and records (i, e). */
  method DivideOut(a0: int, i: int, factors0: seq<(int, nat)>, ghost n: int) returns (a: int, factors: seq<(int, nat)>)
    requires a0 >= 1 && i >= 2 && a0 % i == 0 && IsPrime(i)
    requires Product(factors0) * a0 == Abs(n)
    requires forall d :: 2 <= d < i ==> a0 % d != 0
    ensures a >= 1 && a < a0 && a % i != 0
    ensures |factors| == |factors0| + 1 && factors[..|factors0|] == factors0
    ensures factors[|factors0|].0 == i && factors[|factors0|].1 >= 1
    ensures Product(factors) * a == Abs(n)
    ensures forall d :: 2 <= d < i + 1 ==> a % d != 0
  {
    var e: nat := 0;
    a := a0;
    while a % i == 0
      invariant a >= 1
      invariant a * Pow(i, e) == a0
      invariant e == 0 ==> a == a0
      invariant forall d :: 2 <= d < i ==> a % d != 0
      decreases a
    {
      var q := a / i;
      DivideOutStep(a, q, i, e, a0);
      a := q;
      e := e + 1;
    }
    factors := factors0 + [(i, e)];
    DivideOutFinish(a, i, e, a0, factors0, factors, n);
  }

  lemma DivideOutFinish(a: int, i: int, e: nat, a0: int, factors0: seq<(int, nat)>, factors: seq<(int, nat)>, n: int)
    requires a >= 1 && i >= 2 && a * Pow(i, e) == a0 && a0 % i == 0 && a % i != 0
    requires e == 0 ==> a == a0
    requires Product(factors0) * a0 == Abs(n)
    requires factors == factors0 + [(i, e)]
    ensures e >= 1 && a < a0
    ensures Product(factors) * a == Abs(n)
  {
    hide Pow, Product;
    assert e != 0;
    var w := Pow(i, e);
    PowAtLeastBase(i, e);
    ScaledUp(a, w, a0);
    ProductAppend(factors0, (i, e));
    Assoc3(Product(factors0), w, a);
  }

  lemma ScaledUp(a: int, w: int, a0: int)
    requires a >= 1 && w >= 2 && a * w == a0
    ensures a < a0
  {
    MulGrows(a, w - 1);
    assert a * w == a * (w - 1) + a;
  }

  lemma Assoc3(p: int, w: int, a: int)
    ensures (p * w) * a == p * (a * w)
  {
  }

  lemma DivideOutStep(a: int, q: int, i: int, e: nat, a0: int)
    requires a >= 1 && i >= 2 && a % i == 0 && q == a / i && a * Pow(i, e) == a0
    requires forall d :: 2 <= d < i ==> a % d != 0
    ensures q >= 1 && q < a
    ensures q * Pow(i, e + 1) == a0
    ensures forall d :: 2 <= d < i ==> q % d != 0
  {
    ExactQuotient(a, q, i);
    PowShift(q, i, e, a, a0);
    forall d | 2 <= d < i
      ensures q % d != 0
    {
      if q % d == 0 {
        assert Divides(d, q);
        DividesProduct(d, q, i, a);
        assert false;
      }
    }
  }

  /** Dividing out an exact factor i >= 2 leaves a positive, strictly smaller quotient. */
  lemma ExactQuotient(a: int, q: int, i: int)
    requires a >= 1 && i >= 2 && a % i == 0 && q == a / i
    ensures a == q * i && q >= 1 && q < a
  {
    assert a == i * q + a % i;
    MulGrows(q, i - 1);
  }

  lemma PowShift(q: int, i: int, e: nat, a: int, a0: int)
    requires a == q * i && a * Pow(i, e) == a0
    ensures q * Pow(i, e + 1) == a0
  {
    var w := Pow(i, e);
    assert Pow(i, e + 1) == i * w;
    assert q * (i * w) == (q * i) * w;
  }

  lemma DividesProduct(d: int, q: int, i: int, a: int)
    requires Divides(d, q) && a == q * i
    ensures Divides(d, a)
  {
    DividesMultiple(d, q, i);
  }
}
