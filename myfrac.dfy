/**
 * The MyFrac class: a numerator and a denominator held as mutable fields,
 * normalised in place by Simplify whenever an instance is constructed.
 * Every arithmetic operation builds a fresh instance; none changes its
 * operands.
 */
module Fractions {
  import opened Arith
  import opened Rationals
  import opened Rendering

  class MyFrac {
    var nom: int
    var denom: int

    /** The fields as a value. */
    function Fields(): Frac
      reads this
    {
      Frac(nom, denom)
    }

    /** What the constructor establishes: lowest terms, positive denominator. */
    ghost predicate Valid()
      reads this
    {
      Canonical(Fields())
    }

    /**
     * new MyFrac(n, d): store the fields and simplify them. The throwing
     * path for d == 0 is `Create`.
     */
    constructor (n: int, d: int)
      requires d != 0
      ensures Valid() && Fields() == Reduce(n, d)
    {
      nom := n;
      denom := d;
      new;
      Simplify();
    }

    /**
     * The constructor with its guard: a zero denominator raises
     * DivideByZeroException instead of producing an instance.
     */
    static method Create(n: int, d: int) returns (r: Result<MyFrac>)
      ensures r.Failure? <==> d == 0
      ensures r.Failure? ==> r.error == DivideByZero("Denominator cannot be zero.")
      ensures r.Success? ==> fresh(r.value) && r.value.Valid() && Make(n, d) == Success(r.value.Fields())
    {
      if d == 0 {
        r := Failure(DivideByZero("Denominator cannot be zero."));
      } else {
        var f := new MyFrac(n, d);
        r := Success(f);
      }
    }

    /**
     * Divide both fields by gcd(|nom|, |denom|) with BigInteger division,
     * then move a negative sign from the denominator to the numerator.
     */
    method Simplify()
      requires denom != 0
      modifies this
      ensures Valid()
      ensures Fields() == Reduce(old(nom), old(denom))
      ensures nom * old(denom) == old(nom) * denom
    {
      var gcd := Gcd(Abs(nom), Abs(denom));
      ReduceSteps(nom, denom, gcd);
      nom := TDiv(nom, gcd);
      denom := TDiv(denom, gcd);
      if denom < 0 {
        nom := -nom;
        denom := -denom;
      }
    }

    method Add(that: MyFrac) returns (r: MyFrac)
      requires Valid() && that.Valid()
      ensures fresh(r) && r.Valid()
      ensures r.Fields() == Rationals.Add(Fields(), that.Fields())
    {
      MulPositive(denom, that.denom);
      r := new MyFrac(nom * that.denom + that.nom * denom, denom * that.denom);
    }

    method Subtract(that: MyFrac) returns (r: MyFrac)
      requires Valid() && that.Valid()
      ensures fresh(r) && r.Valid()
      ensures r.Fields() == Rationals.Subtract(Fields(), that.Fields())
    {
      MulPositive(denom, that.denom);
      r := new MyFrac(nom * that.denom - that.nom * denom, denom * that.denom);
    }

    method Multiply(that: MyFrac) returns (r: MyFrac)
      requires Valid() && that.Valid()
      ensures fresh(r) && r.Valid()
      ensures r.Fields() == Rationals.Multiply(Fields(), that.Fields())
    {
      MulPositive(denom, that.denom);
      r := new MyFrac(nom * that.nom, denom * that.denom);
    }

    /** A zero divisor raises DivideByZeroException. */
    method Divide(that: MyFrac) returns (r: Result<MyFrac>)
      requires Valid() && that.Valid()
      ensures r.Failure? <==> that.nom == 0
      ensures r.Failure? ==> r.error == DivideByZero("Cannot divide by zero.")
      ensures r.Success? ==> fresh(r.value) && r.value.Valid()
      ensures r.Success? ==> Rationals.Divide(Fields(), that.Fields()) == Success(r.value.Fields())
    {
      if that.nom == 0 {
        r := Failure(DivideByZero("Cannot divide by zero."));
      } else {
        NonZeroProduct(denom, that.nom);
        var f := new MyFrac(nom * that.denom, denom * that.nom);
        r := Success(f);
      }
    }

    method ToString() returns (s: string)
      ensures s == Render(Fields())
    {
      s := Render(Fields());
    }

    /** Cross-multiplied comparison: negative, zero or positive. */
    method CompareTo(that: MyFrac) returns (c: int)
      requires Valid() && that.Valid()
      ensures c == Compare(Fields(), that.Fields())
      ensures c < 0 <==> Val(Fields()) < Val(that.Fields())
      ensures c == 0 <==> Fields() == that.Fields()
    {
      c := Compare(Fields(), that.Fields());
      CompareZeroIffEqual(Fields(), that.Fields());
    }
  }

  /**
   * The steps of Simplify give Reduce: the gcd divides both fields, so
   * truncating and Euclidean division agree, and the quotient of the
   * denominator has the denominator's sign.
   */
  lemma ReduceSteps(n: int, d: int, g: nat)
    requires d != 0 && g == Gcd(Abs(n), Abs(d))
    ensures g > 0 && TDiv(n, g) == n / g && TDiv(d, g) == d / g
    ensures Reduce(n, d) == if d / g < 0 then Frac(-(n / g), -(d / g)) else Frac(n / g, d / g)
  {
    GcdSplits(n, d, g);
    GcdDivides(Abs(n), Abs(d));
    DividesSigned(g, n);
    DividesSigned(g, d);
    TDivExact(n, g);
    TDivExact(d, g);
    var d' := d / g;
    AbsMul(g, d');
    MultipleDivides(g, Abs(d'));
    assert Abs(d) / g == Abs(d');
    assert d < 0 <==> d' < 0 by {
      if d' >= 0 { assert g * d' >= 0; }
      if d' < 0 { MulMonoNeg(g, d'); }
    }
  }
}
