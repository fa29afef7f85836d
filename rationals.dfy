/**
 * The value of a MyFrac instance: its numerator and denominator, the
 * normalisation that every construction performs, the four arithmetic
 * operations, and the cross-multiplication order behind CompareTo.
 *
 * Each operation is specified against exact rational arithmetic: `Val`
 * reads a fraction as a Dafny `real`, which is an exact rational number.
 */
module Rationals {
  import opened Arith

  /** The two fields of a MyFrac. */
  datatype Frac = Frac(nom: int, denom: int)

  /** The one failure of the type: a zero denominator or a zero divisor. */
  datatype Error = DivideByZero(message: string)

  datatype Result<T> = Success(value: T) | Failure(error: Error)

  /**
   * The invariant every constructed MyFrac satisfies: the sign is on the
   * numerator, the denominator is positive, and the two share no factor.
   */
  predicate Canonical(f: Frac)
  {
    f.denom > 0 && Gcd(Abs(f.nom), f.denom) == 1
  }

  /** The rational number a fraction stands for. */
  function Val(f: Frac): (v: real)
    requires f.denom != 0
  {
    f.nom as real / f.denom as real
  }

  // ---------------------------------------------------------------------
  // Normalisation

  /**
   * Lowest terms of n/d: divide both by gcd(|n|, |d|) and put the sign of
   * the denominator onto the numerator.
   */
  function Reduce(n: int, d: int): (r: Frac)
    requires d != 0
    ensures Canonical(r)
    ensures r.nom * d == n * r.denom
  {
    var g := Gcd(Abs(n), Abs(d));
    assert g > 0;
    var r := Frac(if d < 0 then -(n / g) else n / g, Abs(d) / g);
    ReduceFacts(n, d, g, r);
    r
  }

  lemma ReduceFacts(n: int, d: int, g: nat, r: Frac)
    requires d != 0 && g == Gcd(Abs(n), Abs(d)) && g > 0
    requires r == Frac(if d < 0 then -(n / g) else n / g, Abs(d) / g)
    ensures Canonical(r) && r.nom * d == n * r.denom
  {
    GcdSplits(n, d, g);
    var n', d' := n / g, d / g;
    QuotientsCoprime(n, d, g, n', d');
    AbsMul(g, d');
    MultipleDivides(g, Abs(d'));
    assert Abs(d) / g == Abs(d');
    assert Abs(r.nom) == Abs(n');
    assert Canonical(r);
    var s := if d < 0 then -1 else 1;
    assert r.nom == s * n' && r.denom == s * d';
    assert r.nom * d == (s * n') * (g * d');
    assert n * r.denom == (g * n') * (s * d');
    Rearrange(s, n', g, d');
  }

  lemma Rearrange(a: int, b: int, c: int, d: int)
    ensures (a * b) * (c * d) == (c * b) * (a * d)
  {
  }

  /** Dividing n and d by gcd(|n|, |d|) leaves coprime quotients. */
  lemma QuotientsCoprime(n: int, d: int, g: nat, n': int, d': int)
    requires g == Gcd(Abs(n), Abs(d)) && g > 0
    requires n == g * n' && d == g * d'
    ensures Gcd(Abs(n'), Abs(d')) == 1
  {
    AbsMul(g, n');
    AbsMul(g, d');
    ScaledGcd(g, Abs(n), Abs(d), Abs(n'), Abs(d'));
    CancelToOne(g, Gcd(Abs(n'), Abs(d')));
  }

  lemma ScaledGcd(g: nat, x: nat, y: nat, a: nat, b: nat)
    requires g > 0 && x == g * a && y == g * b
    ensures Gcd(x, y) == g * Gcd(a, b)
  {
    GcdScale(g, a, b);
  }

  lemma CancelToOne(g: int, h: int)
    requires g > 0 && g * h == g
    ensures h == 1
  {
    assert g * (h - 1) == g * h - g;
    MulSmall(g, h - 1);
  }

  lemma GcdSplits(n: int, d: int, g: nat)
    requires d != 0 && g == Gcd(Abs(n), Abs(d))
    ensures g > 0 && n == g * (n / g) && d == g * (d / g)
  {
    GcdDivides(Abs(n), Abs(d));
    DividesSigned(g, n);
    DividesSigned(g, d);
    DividesQuotient(g, n);
    DividesQuotient(g, d);
  }

  lemma AbsMul(g: nat, x: int)
    ensures Abs(g * x) == g * Abs(x)
  {
    if x < 0 {
      assert g * x == -(g * -x);
    }
  }

  lemma DividesSigned(g: nat, x: int)
    requires Divides(g, Abs(x))
    ensures Divides(g, x)
  {
    DividesNeg(g, Abs(x));
  }

  // ---------------------------------------------------------------------
  // Value and uniqueness of the canonical form

  lemma RealMul(x: int, y: int)
    ensures (x * y) as real == x as real * y as real
  {
  }

  /** Two fractions denote the same rational exactly when their cross products agree. */
  lemma ValEqCross(x: Frac, y: Frac)
    requires x.denom != 0 && y.denom != 0
    ensures Val(x) == Val(y) <==> x.nom * y.denom == y.nom * x.denom
  {
    RealMul(x.nom, y.denom);
    RealMul(y.nom, x.denom);
    var xn, xd, yn, yd := x.nom as real, x.denom as real, y.nom as real, y.denom as real;
    assert Val(x) * xd == xn;
    assert Val(y) * yd == yn;
    if Val(x) == Val(y) {
      assert xn * yd == Val(x) * xd * yd;
      assert yn * xd == Val(y) * yd * xd;
    }
  }

  /**
   * The canonical form is unique: two canonical fractions with equal cross
   * products have identical fields.
   */
  lemma CanonicalUnique(x: Frac, y: Frac)
    requires Canonical(x) && Canonical(y)
    requires x.nom * y.denom == y.nom * x.denom
    ensures x == y
  {
    DenominatorDivides(x, y);
    DenominatorDivides(y, x);
    DivisorLe(x.denom, y.denom);
    DivisorLe(y.denom, x.denom);
    assert (x.nom - y.nom) * x.denom == 0;
    MulSmall(x.denom, x.nom - y.nom);
  }

  /** With equal cross products, x's denominator divides y's (Euclid's lemma). */
  lemma DenominatorDivides(x: Frac, y: Frac)
    requires Canonical(x) && Canonical(y)
    requires x.nom * y.denom == y.nom * x.denom
    ensures Divides(x.denom, y.denom)
  {
    var a: nat, b: nat, n: nat := Abs(x.nom), y.denom, x.denom;
    assert Abs(x.nom * y.denom) == a * b;
    assert Abs(y.nom * x.denom) == Abs(y.nom) * n;
    MultipleDivides(n, Abs(y.nom));
    assert Abs(y.nom) * n == n * Abs(y.nom);
    CoprimeDivides(a, b, n);
  }

  /** Canonical fractions of equal value have identical fields. */
  lemma {:induction false} CanonicalUniqueVal(x: Frac, y: Frac)
    requires Canonical(x) && Canonical(y)
    ensures Val(x) == Val(y) <==> x == y
  {
    if Val(x) == Val(y) {
      ValEqCross(x, y);
      CanonicalUnique(x, y);
    }
  }

  /** Reduction leaves a canonical fraction unchanged, so normalising twice is normalising once. */
  lemma ReduceCanonical(f: Frac)
    requires Canonical(f)
    ensures Reduce(f.nom, f.denom) == f
  {
    var r := Reduce(f.nom, f.denom);
    CanonicalUnique(r, f);
  }

  /** A zero numerator always normalises to 0/1. */
  lemma ReduceZero(d: int)
    requires d != 0
    ensures Reduce(0, d) == Frac(0, 1)
  {
    var r := Reduce(0, d);
    assert r.nom * d == 0;
    MulSmall(Abs(d), r.nom);
    assert Gcd(0, 1) == 1;
    CanonicalUnique(r, Frac(0, 1));
  }

  /** Reduction keeps the value. */
  lemma ReduceVal(n: int, d: int)
    requires d != 0
    ensures Val(Reduce(n, d)) == Val(Frac(n, d))
  {
    ValEqCross(Reduce(n, d), Frac(n, d));
  }

  // ---------------------------------------------------------------------
  // Construction

  /**
   * `new MyFrac(n, d)`: a zero denominator fails; otherwise the result is
   * the canonical fraction of value n/d.
   */
  function Make(n: int, d: int): (r: Result<Frac>)
    ensures r.Failure? <==> d == 0
    ensures r.Failure? ==> r.error == DivideByZero("Denominator cannot be zero.")
    ensures r.Success? ==> Canonical(r.value) && r.value.nom * d == n * r.value.denom
  {
    if d == 0 then Failure(DivideByZero("Denominator cannot be zero."))
    else Success(Reduce(n, d))
  }

  /** Fractions constructed from pairs of equal value have identical fields. */
  lemma MakeEqualValue(n1: int, d1: int, n2: int, d2: int)
    requires d1 != 0 && d2 != 0
    ensures Make(n1, d1) == Make(n2, d2) <==> n1 * d2 == n2 * d1
  {
    var r1, r2 := Reduce(n1, d1), Reduce(n2, d2);
    ReduceVal(n1, d1);
    ReduceVal(n2, d2);
    ValEqCross(Frac(n1, d1), Frac(n2, d2));
    CanonicalUniqueVal(r1, r2);
  }

  // ---------------------------------------------------------------------
  // Arithmetic

  function Add(a: Frac, b: Frac): (r: Frac)
    requires Canonical(a) && Canonical(b)
    ensures Canonical(r) && Val(r) == Val(a) + Val(b)
  {
    var n, d := a.nom * b.denom + b.nom * a.denom, a.denom * b.denom;
    MulPositive(a.denom, b.denom);
    ReduceVal(n, d);
    SumVal(a, b);
    Reduce(n, d)
  }

  function Subtract(a: Frac, b: Frac): (r: Frac)
    requires Canonical(a) && Canonical(b)
    ensures Canonical(r) && Val(r) == Val(a) - Val(b)
  {
    var n, d := a.nom * b.denom - b.nom * a.denom, a.denom * b.denom;
    MulPositive(a.denom, b.denom);
    ReduceVal(n, d);
    DifferenceVal(a, b);
    Reduce(n, d)
  }

  function Multiply(a: Frac, b: Frac): (r: Frac)
    requires Canonical(a) && Canonical(b)
    ensures Canonical(r) && Val(r) == Val(a) * Val(b)
  {
    var n, d := a.nom * b.nom, a.denom * b.denom;
    MulPositive(a.denom, b.denom);
    ReduceVal(n, d);
    ProductVal(a.nom, a.denom, b.nom, b.denom);
    Reduce(n, d)
  }

  /** Division fails on a zero divisor; otherwise it is the exact quotient. */
  function Divide(a: Frac, b: Frac): (r: Result<Frac>)
    requires Canonical(a) && Canonical(b)
    ensures r.Failure? <==> b.nom == 0
    ensures r.Failure? ==> r.error == DivideByZero("Cannot divide by zero.")
    ensures r.Success? ==> Canonical(r.value) && Val(b) != 0.0 && Val(r.value) == Val(a) / Val(b)
  {
    if b.nom == 0 then Failure(DivideByZero("Cannot divide by zero."))
    else
      var n, d := a.nom * b.denom, a.denom * b.nom;
      NonZeroProduct(a.denom, b.nom);
      ReduceVal(n, d);
      QuotientVal(a, b);
      Success(Reduce(n, d))
  }

  lemma NonZeroProduct(x: int, y: int)
    requires x != 0 && y != 0
    ensures x * y != 0
  {
    if x * y == 0 {
      MulSmall(Abs(x), y);
    }
  }

  lemma ProductVal(an: int, ad: int, bn: int, bd: int)
    requires ad != 0 && bd != 0
    ensures ad * bd != 0
    ensures Val(Frac(an * bn, ad * bd)) == Val(Frac(an, ad)) * Val(Frac(bn, bd))
  {
    NonZeroProduct(ad, bd);
    RealMul(an, bn);
    RealMul(ad, bd);
  }

  lemma SumVal(a: Frac, b: Frac)
    requires a.denom > 0 && b.denom > 0
    ensures a.denom * b.denom != 0
    ensures Val(Frac(a.nom * b.denom + b.nom * a.denom, a.denom * b.denom)) == Val(a) + Val(b)
  {
    NonZeroProduct(a.denom, b.denom);
    RealMul(a.nom, b.denom);
    RealMul(b.nom, a.denom);
    RealMul(a.denom, b.denom);
  }

  lemma DifferenceVal(a: Frac, b: Frac)
    requires a.denom > 0 && b.denom > 0
    ensures a.denom * b.denom != 0
    ensures Val(Frac(a.nom * b.denom - b.nom * a.denom, a.denom * b.denom)) == Val(a) - Val(b)
  {
    NonZeroProduct(a.denom, b.denom);
    RealMul(a.nom, b.denom);
    RealMul(b.nom, a.denom);
    RealMul(a.denom, b.denom);
  }

  lemma QuotientVal(a: Frac, b: Frac)
    requires a.denom > 0 && b.denom > 0 && b.nom != 0
    ensures a.denom * b.nom != 0 && Val(b) != 0.0
    ensures Val(Frac(a.nom * b.denom, a.denom * b.nom)) == Val(a) / Val(b)
  {
    NonZeroProduct(a.denom, b.nom);
    RealMul(a.nom, b.denom);
    RealMul(a.denom, b.nom);
  }

  // ---------------------------------------------------------------------
  // Order

  /** BigInteger.CompareTo: -1, 0 or 1 as x is below, equal to or above y. */
  function CompareInt(x: int, y: int): (c: int)
    ensures c == -1 || c == 0 || c == 1
    ensures c < 0 <==> x < y
    ensures c == 0 <==> x == y
    ensures c > 0 <==> x > y
  {
    if x < y then -1 else if x == y then 0 else 1
  }

  /** MyFrac.CompareTo: compare a.nom * b.denom against a.denom * b.nom. */
  function Compare(a: Frac, b: Frac): (c: int)
    requires Canonical(a) && Canonical(b)
    ensures c == -1 || c == 0 || c == 1
    ensures c < 0 <==> Val(a) < Val(b)
    ensures c == 0 <==> Val(a) == Val(b)
    ensures c > 0 <==> Val(a) > Val(b)
  {
    CompareVal(a, b);
    CompareInt(a.nom * b.denom, a.denom * b.nom)
  }

  lemma CompareVal(a: Frac, b: Frac)
    requires a.denom > 0 && b.denom > 0
    ensures a.nom * b.denom < a.denom * b.nom <==> Val(a) < Val(b)
    ensures a.nom * b.denom == a.denom * b.nom <==> Val(a) == Val(b)
  {
    ValEqCross(a, b);
    RealMul(a.nom, b.denom);
    RealMul(a.denom, b.nom);
    var an, ad, bn, bd := a.nom as real, a.denom as real, b.nom as real, b.denom as real;
    assert Val(a) * ad == an;
    assert Val(b) * bd == bn;
    assert an * bd == Val(a) * (ad * bd);
    assert ad * bn == Val(b) * (ad * bd);
    assert ad * bd > 0.0;
  }

  /** CompareTo returns 0 exactly on identical fields. */
  lemma CompareZeroIffEqual(a: Frac, b: Frac)
    requires Canonical(a) && Canonical(b)
    ensures Compare(a, b) == 0 <==> a == b
  {
    CanonicalUniqueVal(a, b);
  }

  lemma CompareAntisymmetric(a: Frac, b: Frac)
    requires Canonical(a) && Canonical(b)
    ensures Compare(a, b) == -Compare(b, a)
  {
  }

  lemma CompareTransitive(a: Frac, b: Frac, c: Frac)
    requires Canonical(a) && Canonical(b) && Canonical(c)
    requires Compare(a, b) <= 0 && Compare(b, c) <= 0
    ensures Compare(a, c) <= 0
    ensures Compare(a, b) < 0 || Compare(b, c) < 0 ==> Compare(a, c) < 0
  {
  }

  // ---------------------------------------------------------------------
  // The identities exercised by the test harness, and a round trip

  /** (a+b)*(a+b) and a*a + (a*b + a*b) + b*b have identical fields. */
  lemma SumSquare(a: Frac, b: Frac)
    requires Canonical(a) && Canonical(b)
    ensures var s := Add(a, b);
            Multiply(s, s) == Add(Add(Multiply(a, a), Add(Multiply(a, b), Multiply(a, b))), Multiply(b, b))
  {
    var va, vb := Val(a), Val(b);
    AddCongruence(a, b, va, vb);
    SquareOfSumValue(Add(a, b), va, vb);
    SumSquareRight(a, b, va, vb);
    var s := Add(a, b);
    EqualByValue(Multiply(s, s), Add(Add(Multiply(a, a), Add(Multiply(a, b), Multiply(a, b))), Multiply(b, b)),
                 va * va + 2.0 * va * vb + vb * vb);
  }

  lemma SquareOfSumValue(s: Frac, va: real, vb: real)
    requires Canonical(s) && Val(s) == va + vb
    ensures Val(Multiply(s, s)) == va * va + 2.0 * va * vb + vb * vb
  {
    MultiplyCongruence(s, s, va + vb, va + vb);
    SquareOfSum(va, vb);
  }

  lemma SumSquareRight(a: Frac, b: Frac, va: real, vb: real)
    requires Canonical(a) && Canonical(b) && Val(a) == va && Val(b) == vb
    ensures Val(Add(Add(Multiply(a, a), Add(Multiply(a, b), Multiply(a, b))), Multiply(b, b)))
            == va * va + 2.0 * va * vb + vb * vb
  {
    var aa, ab, bb := Multiply(a, a), Multiply(a, b), Multiply(b, b);
    MultiplyCongruence(a, a, va, va);
    MultiplyCongruence(a, b, va, vb);
    MultiplyCongruence(b, b, vb, vb);
    AddCongruence(ab, ab, va * vb, va * vb);
    AddCongruence(aa, Add(ab, ab), va * va, va * vb + va * vb);
    AddCongruence(Add(aa, Add(ab, ab)), bb, va * va + (va * vb + va * vb), vb * vb);
  }

  lemma SquareOfSum(x: real, y: real)
    ensures (x + y) * (x + y) == x * x + 2.0 * x * y + y * y
  {
  }

  /** (a-b)*(a+b) and a*a - b*b have identical fields. */
  lemma DifferenceOfSquares(a: Frac, b: Frac)
    requires Canonical(a) && Canonical(b)
    ensures Multiply(Subtract(a, b), Add(a, b)) == Subtract(Multiply(a, a), Multiply(b, b))
  {
    var va, vb := Val(a), Val(b);
    SubtractCongruence(a, b, va, vb);
    AddCongruence(a, b, va, vb);
    DifferenceTimesSum(Subtract(a, b), Add(a, b), va, vb);
    DifferenceOfSquaresRight(a, b, va, vb);
    EqualByValue(Multiply(Subtract(a, b), Add(a, b)), Subtract(Multiply(a, a), Multiply(b, b)), va * va - vb * vb);
  }

  lemma DifferenceTimesSum(d: Frac, s: Frac, va: real, vb: real)
    requires Canonical(d) && Canonical(s) && Val(d) == va - vb && Val(s) == va + vb
    ensures Val(Multiply(d, s)) == va * va - vb * vb
  {
    MultiplyCongruence(d, s, va - vb, va + vb);
    ProductOfSumAndDifference(va, vb);
  }

  lemma DifferenceOfSquaresRight(a: Frac, b: Frac, va: real, vb: real)
    requires Canonical(a) && Canonical(b) && Val(a) == va && Val(b) == vb
    ensures Val(Subtract(Multiply(a, a), Multiply(b, b))) == va * va - vb * vb
  {
    MultiplyCongruence(a, a, va, va);
    MultiplyCongruence(b, b, vb, vb);
    SubtractCongruence(Multiply(a, a), Multiply(b, b), va * va, vb * vb);
  }

  lemma ProductOfSumAndDifference(x: real, y: real)
    ensures (x - y) * (x + y) == x * x - y * y
  {
  }

  lemma AddCongruence(x: Frac, y: Frac, vx: real, vy: real)
    requires Canonical(x) && Canonical(y) && Val(x) == vx && Val(y) == vy
    ensures Val(Add(x, y)) == vx + vy
  {
  }

  lemma SubtractCongruence(x: Frac, y: Frac, vx: real, vy: real)
    requires Canonical(x) && Canonical(y) && Val(x) == vx && Val(y) == vy
    ensures Val(Subtract(x, y)) == vx - vy
  {
  }

  lemma MultiplyCongruence(x: Frac, y: Frac, vx: real, vy: real)
    requires Canonical(x) && Canonical(y) && Val(x) == vx && Val(y) == vy
    ensures Val(Multiply(x, y)) == vx * vy
  {
  }

  lemma DivideCongruence(x: Frac, y: Frac, vx: real, vy: real)
    requires Canonical(x) && Canonical(y) && Val(x) == vx && Val(y) == vy && y.nom != 0
    ensures vy != 0.0 && Divide(x, y).Success? && Val(Divide(x, y).value) == vx / vy
  {
  }

  lemma EqualByValue(x: Frac, y: Frac, v: real)
    requires Canonical(x) && Canonical(y) && Val(x) == v && Val(y) == v
    ensures x == y
  {
    CanonicalUniqueVal(x, y);
  }

  /** Adding then subtracting b gives back a, field for field. */
  lemma AddSubtractRoundTrip(a: Frac, b: Frac)
    requires Canonical(a) && Canonical(b)
    ensures Subtract(Add(a, b), b) == a
  {
    CanonicalUniqueVal(Subtract(Add(a, b), b), a);
  }

  /** Multiplying then dividing by a non-zero b gives back a. */
  lemma MultiplyDivideRoundTrip(a: Frac, b: Frac)
    requires Canonical(a) && Canonical(b) && b.nom != 0
    ensures Divide(Multiply(a, b), b) == Success(a)
  {
    var va, vb := Val(a), Val(b);
    MultiplyDivideValue(a, b, va, vb);
    EqualByValue(Divide(Multiply(a, b), b).value, a, va);
  }

  lemma MultiplyDivideValue(a: Frac, b: Frac, va: real, vb: real)
    requires Canonical(a) && Canonical(b) && Val(a) == va && Val(b) == vb && b.nom != 0
    ensures Divide(Multiply(a, b), b).Success? && Val(Divide(Multiply(a, b), b).value) == va
  {
    MultiplyCongruence(a, b, va, vb);
    DivideCongruence(Multiply(a, b), b, va * vb, vb);
    CancelFactor(va, vb);
  }

  lemma CancelFactor(x: real, y: real)
    requires y != 0.0
    ensures (x * y) / y == x
  {
  }
}
