/** The coefficient field shared by `Polynomial`, `RationalFunction` and `MatrixInversion`.
    The original is templated over the coefficient type and instantiated with `Rational<integer>`;
    here the coefficients are exact `real`s, and multiplication is a named function so that the
    structural proofs can treat it as an uninterpreted operation (`hide Mul;`) and take the
    algebra they need from the small lemmas below. */
module Scalars {

  /** Field multiplication. */
  function Mul(a: real, b: real): real {
    a * b
  }

  lemma MulComm(a: real, b: real)
    ensures Mul(a, b) == Mul(b, a)
  {
  }

  lemma MulAssoc(a: real, b: real, c: real)
    ensures Mul(Mul(a, b), c) == Mul(a, Mul(b, c))
  {
  }

  lemma MulZero(a: real, z: real)
    requires z == 0.0
    ensures Mul(a, z) == 0.0 && Mul(z, a) == 0.0
  {
  }

  lemma MulOne(a: real)
    ensures Mul(a, 1.0) == a && Mul(1.0, a) == a
  {
  }

  lemma MulCong(x: real, a: real, b: real)
    requires a == b
    ensures Mul(x, a) == Mul(x, b) && Mul(a, x) == Mul(b, x)
  {
  }

  /** x·(b + c) = x·b + x·c. */
  lemma Distrib(x: real, a: real, b: real, c: real)
    requires a == b + c
    ensures Mul(x, a) == Mul(x, b) + Mul(x, c)
  {
  }

  /** x·(b - c) = x·b - x·c. */
  lemma DistribSub(x: real, a: real, b: real, c: real)
    requires a == b - c
    ensures Mul(x, a) == Mul(x, b) - Mul(x, c)
  {
  }

  /** x·(-b) = -(x·b). */
  lemma MulNeg(x: real, a: real, b: real)
    requires a == -b
    ensures Mul(x, a) == -Mul(x, b)
  {
  }

  /** (-a)·b = -(a·b). */
  lemma NegMul(a: real, b: real)
    ensures Mul(-a, b) == -Mul(a, b)
  {
  }

  /** A product is zero exactly when a factor is. */
  lemma MulZeroIff(a: real, b: real)
    ensures Mul(a, b) == 0.0 <==> a == 0.0 || b == 0.0
  {
  }

  /** One Horner step of a scaled vector: if h is t0 + x·g and r is c·t0 + x·(c·g), then r = c·h. */
  lemma ScaleStep(x: real, c: real, t0: real, g: real, h: real, s0: real, sg: real, r: real)
    requires h == t0 + Mul(x, g) && r == s0 + Mul(x, sg) && s0 == Mul(c, t0) && sg == Mul(c, g)
    ensures r == Mul(c, h)
  {
  }

  /** Field division by a nonzero element: the r with r·b = a. */
  function Quot(a: real, b: real): (r: real)
    requires b != 0.0
    ensures Mul(r, b) == a
  {
    a / b
  }

  /** Quotients are unique: r·b = a determines r. */
  lemma QuotUnique(r: real, a: real, b: real)
    requires b != 0.0 && Mul(r, b) == a
    ensures r == Quot(a, b)
  {
  }

  /** x·c = c with c nonzero forces x = 1. */
  lemma MulCancelOne(x: real, c: real)
    requires c != 0.0 && Mul(x, c) == c
    ensures x == 1.0
  {
    assert (x - 1.0) * c == 0.0;
  }

  /** Fractions with nonzero denominators are equal exactly when their cross products are. */
  lemma QuotCross(n1: real, d1: real, n2: real, d2: real)
    requires d1 != 0.0 && d2 != 0.0
    ensures Quot(n1, d1) == Quot(n2, d2) <==> Mul(n1, d2) == Mul(d1, n2)
  {
  }

  /** n·k / d·k = n / d. */
  lemma QuotCancel(n: real, d: real, k: real)
    requires d != 0.0 && k != 0.0
    ensures Mul(d, k) != 0.0 && Quot(Mul(n, k), Mul(d, k)) == Quot(n, d)
  {
  }

  /** Sum, difference, product and quotient of fractions. */
  lemma QuotAdd(n1: real, d1: real, n2: real, d2: real)
    requires d1 != 0.0 && d2 != 0.0
    ensures Mul(d1, d2) != 0.0
    ensures Quot(n1, d1) + Quot(n2, d2) == Quot(Mul(n1, d2) + Mul(d1, n2), Mul(d1, d2))
  {
  }

  lemma QuotSub(n1: real, d1: real, n2: real, d2: real)
    requires d1 != 0.0 && d2 != 0.0
    ensures Mul(d1, d2) != 0.0
    ensures Quot(n1, d1) - Quot(n2, d2) == Quot(Mul(n1, d2) - Mul(d1, n2), Mul(d1, d2))
  {
  }

  lemma QuotMul(n1: real, d1: real, n2: real, d2: real)
    requires d1 != 0.0 && d2 != 0.0
    ensures Mul(d1, d2) != 0.0
    ensures Mul(Quot(n1, d1), Quot(n2, d2)) == Quot(Mul(n1, n2), Mul(d1, d2))
  {
  }

  lemma QuotDiv(n1: real, d1: real, n2: real, d2: real)
    requires d1 != 0.0 && d2 != 0.0 && n2 != 0.0
    ensures Quot(n2, d2) != 0.0 && Mul(d1, n2) != 0.0
    ensures Quot(Quot(n1, d1), Quot(n2, d2)) == Quot(Mul(n1, d2), Mul(d1, n2))
  {
  }

  lemma QuotNeg(n: real, d: real)
    requires d != 0.0
    ensures Quot(-n, d) == -Quot(n, d)
  {
  }
}
