/**
 * The test harness of Program, instantiated at MyFrac. Each test writes
 * lines to the console; here the lines are returned in order instead, and
 * the contract shows that the two sides of each identity print the same
 * fraction.
 */
module Harness {
  import opened Rationals
  import opened Rendering
  import opened Fractions

  /**
   * testAPlusBSquare: (a + b)^2 and a^2 + 2ab + b^2, with 2ab computed as
   * ab + ab, print the same fraction.
   */
  method TestAPlusBSquare(a: MyFrac, b: MyFrac) returns (output: seq<string>)
    requires a.Valid() && b.Valid()
    ensures var sum := Rationals.Add(a.Fields(), b.Fields());
            var square := Render(Rationals.Multiply(sum, sum));
            output == [ "=== Testing (a+b)^2 = a^2 + 2ab + b^2 for a = " + Render(a.Fields())
                          + ", b = " + Render(b.Fields()) + " ===",
                        "a + b = " + Render(sum),
                        "(a + b)^2 = " + square,
                        "a^2 + 2ab + b^2 = " + square,
                        "=== Finished ===" ]
  {
    var aPlusB := a.Add(b);
    var aPlusBSquare := aPlusB.Multiply(aPlusB);
    var aSquare := a.Multiply(a);
    var bSquare := b.Multiply(b);
    var ab := a.Multiply(b);
    var ab' := a.Multiply(b);
    var abTwice := ab.Add(ab');
    var partial := aSquare.Add(abTwice);
    var rightSide := partial.Add(bSquare);
    SumSquare(a.Fields(), b.Fields());
    assert rightSide.Fields() == aPlusBSquare.Fields();

    var aText := a.ToString();
    var bText := b.ToString();
    var sumText := aPlusB.ToString();
    var squareText := aPlusBSquare.ToString();
    var rightText := rightSide.ToString();
    output := [ "=== Testing (a+b)^2 = a^2 + 2ab + b^2 for a = " + aText + ", b = " + bText + " ===",
                "a + b = " + sumText,
                "(a + b)^2 = " + squareText,
                "a^2 + 2ab + b^2 = " + rightText,
                "=== Finished ===" ];
  }

  /** testSquaresDifference: (a - b)(a + b) and a^2 - b^2 print the same fraction. */
  method TestSquaresDifference(a: MyFrac, b: MyFrac) returns (output: seq<string>)
    requires a.Valid() && b.Valid()
    ensures var product := Render(Rationals.Multiply(Rationals.Subtract(a.Fields(), b.Fields()),
                                                     Rationals.Add(a.Fields(), b.Fields())));
            output == [ "=== Testing (a-b)*(a+b) = a^2 - b^2 for a = " + Render(a.Fields())
                          + ", b = " + Render(b.Fields()) + " ===",
                        "(a - b)*(a + b) = " + product,
                        "a^2 - b^2 = " + product,
                        "=== Finished ===" ]
  {
    var aMinusB := a.Subtract(b);
    var aPlusB := a.Add(b);
    var product := aMinusB.Multiply(aPlusB);
    var aSquare := a.Multiply(a);
    var bSquare := b.Multiply(b);
    var difference := aSquare.Subtract(bSquare);
    DifferenceOfSquares(a.Fields(), b.Fields());
    assert difference.Fields() == product.Fields();

    var aText := a.ToString();
    var bText := b.ToString();
    var productText := product.ToString();
    var differenceText := difference.ToString();
    output := [ "=== Testing (a-b)*(a+b) = a^2 - b^2 for a = " + aText + ", b = " + bText + " ===",
                "(a - b)*(a + b) = " + productText,
                "a^2 - b^2 = " + differenceText,
                "=== Finished ===" ];
  }

  /**
   * The fractions Main sorts: 3/4, 1/2 and 5/6 are already in lowest
   * terms, and CompareTo puts them in the order 1/2 < 3/4 < 5/6.
   */
  lemma SampleOrder()
    ensures Make(3, 4) == Success(Frac(3, 4))
    ensures Make(1, 2) == Success(Frac(1, 2))
    ensures Make(5, 6) == Success(Frac(5, 6))
    ensures Compare(Frac(1, 2), Frac(3, 4)) == -1 && Compare(Frac(3, 4), Frac(1, 2)) == 1
    ensures Compare(Frac(3, 4), Frac(5, 6)) == -1 && Compare(Frac(5, 6), Frac(3, 4)) == 1
    ensures Compare(Frac(1, 2), Frac(5, 6)) == -1
  {
    ReduceCanonical(Frac(3, 4));
    ReduceCanonical(Frac(1, 2));
    ReduceCanonical(Frac(5, 6));
  }

  /** The sorted fractions print as "1/2", "3/4" and "5/6". */
  lemma SampleText()
    ensures Render(Frac(1, 2)) == "1/2"
    ensures Render(Frac(3, 4)) == "3/4"
    ensures Render(Frac(5, 6)) == "5/6"
  {
  }

  /** Main's test values: 1/3 and 1/6 are in lowest terms and their sum is 1/2. */
  lemma SampleSum()
    ensures Make(1, 3) == Success(Frac(1, 3)) && Make(1, 6) == Success(Frac(1, 6))
    ensures Add(Frac(1, 3), Frac(1, 6)) == Frac(1, 2)
    ensures Render(Add(Frac(1, 3), Frac(1, 6))) == "1/2"
  {
    ReduceCanonical(Frac(1, 3));
    ReduceCanonical(Frac(1, 6));
    ReduceCanonical(Frac(1, 2));
    EqualByValue(Add(Frac(1, 3), Frac(1, 6)), Frac(1, 2), 0.5);
  }
}
