# MyFrac: exact fractions over BigInteger

The program defines `MyFrac`, an exact rational number held as a
BigInteger numerator `nom` and denominator `denom`. Every constructor call
refuses a zero denominator and then `Simplify`s the pair in place: both
fields are divided by their greatest common divisor, and a negative sign
moves from the denominator to the numerator. `Add`, `Subtract`,
`Multiply` and `Divide` cross-multiply and build a fresh instance;
`Divide` refuses a zero divisor. `ToString` prints `nom/denom`, and
`CompareTo` compares the cross products. A small harness prints both
sides of the identities (a+b)^2 = a^2 + 2ab + b^2 and
(a-b)(a+b) = a^2 - b^2 for 1/3 and 1/6, and sorts 3/4, 1/2 and 5/6.

The model has five modules:

- `Arith` (arith.dfy) holds the integer facts. BigInteger is unbounded,
  so it is Dafny's `int`. BigInteger division truncates toward zero and
  is written out as `TDiv`. The greatest common divisor is Euclid's
  algorithm, and the file proves the divisibility lemmas that reduction
  relies on.
- `Rationals` (rationals.dfy) models the value of a `MyFrac` as a
  datatype `Frac`. It holds:
  - `Reduce`, the pure meaning of `Simplify`;
  - `Make`, the constructor with its zero-denominator error;
  - the four operations;
  - `Compare`, the order behind `CompareTo`;
  - the harness identities and round trips.

  Each operation is specified against exact rational arithmetic through
  `Val`, which reads a fraction as a Dafny `real`. Exceptions become a
  `Result` carrying a `DivideByZero` error with the source's message.
- `Rendering` (rendering.dfy) holds `ToString`: the decimal text of a
  BigInteger and the `nom/denom` format.
- `Fractions` (myfrac.dfy) is the class `MyFrac` with its two mutable
  fields. `Simplify` is an imperative method proved to leave the fields
  equal to `Reduce` of the old ones. Every other method is proved
  against the matching function of `Rationals`.
- `Harness` (harness.dfy) holds the two generic tests, instantiated at
  `MyFrac`. Console lines are returned as a sequence of strings. It also
  holds the concrete values that `Main` uses.

## Model

| member | source | states |
|---|---|---|
| `Arith.TDiv` | Program.cs:32-33 | BigInteger division truncates toward zero: the remainder is smaller than the divisor in magnitude and never has the opposite sign to the dividend, which determines the quotient |
| `Arith.Gcd` | Program.cs:31 | the greatest common divisor of the magnitudes is zero only when both are zero; `GcdDivides` and `GcdGreatest` show it is the greatest common divisor |
| `Arith.TDivExact` | Program.cs:32-33 | when the divisor is positive and divides exactly, BigInteger's truncating division equals Euclidean division |
| `Arith.GcdDivides` | Program.cs:31 | the greatest common divisor divides both arguments |
| `Arith.GcdGreatest` | Program.cs:31 | every common divisor divides the greatest common divisor |
| `Arith.CoprimeDivides` | Program.cs:29-39 | Euclid's lemma: n divides a*b and is coprime to a, so n divides b (the basis of uniqueness of lowest terms) |
| `Rationals.Reduce` | Program.cs:29-39 | the normalised pair is canonical (positive denominator, gcd(abs(nom), denom) = 1) and has the same cross product as n/d, so the same value |
| `Rationals.ReduceZero` | Program.cs:29-39 | a zero numerator always normalises to 0/1 |
| `Rationals.ReduceVal` | Program.cs:29-39 | normalisation keeps the rational value |
| `Rationals.ReduceCanonical` | Program.cs:29-39 | a pair already in lowest terms is left as it is, so simplifying twice is simplifying once |
| `Rationals.CanonicalUniqueVal` | Program.cs:29-39 | two canonical fractions have the same value exactly when their fields are identical |
| `Rationals.Make` | Program.cs:18-25 | a zero denominator fails with "Denominator cannot be zero."; otherwise the result is canonical and equal in value to nom/denom |
| `Rationals.MakeEqualValue` | Program.cs:18-25 | two constructions give identical fields exactly when their arguments have equal cross products |
| `Rationals.Add` | Program.cs:41-44 | the sum is canonical and its value is the exact sum of the values |
| `Rationals.Subtract` | Program.cs:46-49 | the difference is canonical and its value is the exact difference |
| `Rationals.Multiply` | Program.cs:51-54 | the product is canonical and its value is the exact product |
| `Rationals.Divide` | Program.cs:56-61 | a zero divisor fails with "Cannot divide by zero."; otherwise the divisor's value is non-zero and the result is canonical with value the exact quotient |
| `Rationals.CompareInt` | Program.cs:70 | BigInteger.CompareTo: -1, 0 or 1, negative, zero or positive exactly as x is below, equal to or above y |
| `Rationals.Compare` | Program.cs:68-71 | the result is -1, 0 or 1, and is negative, zero or positive exactly as the first value is below, equal to or above the second |
| `Rationals.CompareZeroIffEqual` | Program.cs:68-71 | CompareTo returns 0 exactly when the two fractions have identical fields |
| `Rationals.CompareAntisymmetric` | Program.cs:68-71 | swapping the operands negates the result |
| `Rationals.CompareTransitive` | Program.cs:68-71 | "at most" is transitive, and strict if either step is strict |
| `Rationals.AddSubtractRoundTrip` | Program.cs:41-49 | adding b and then subtracting b gives back a, field for field |
| `Rationals.MultiplyDivideRoundTrip` | Program.cs:51-61 | multiplying by a non-zero b and then dividing by b succeeds and gives back a |
| `Rationals.SumSquare` | Program.cs:122-136 | (a+b)(a+b) and a*a + (a*b + a*b) + b*b, computed with these operations, have identical fields |
| `Rationals.DifferenceOfSquares` | Program.cs:138-151 | (a-b)(a+b) and a*a - b*b, computed with these operations, have identical fields |
| `Rendering.NatToString` | Program.cs:63-66 | the decimal text of a BigInteger magnitude is a non-empty string of digits with no leading zero, and it denotes the number |
| `Rendering.IntToString` | Program.cs:63-66 | the text is a well-formed decimal integer that denotes x; it starts with '-' exactly for negative x, the digits after the sign denote abs(x) with no leading zero, and it never contains '/' |
| `Rendering.Render` | Program.cs:63-66 | the first '/' of the text separates a decimal text denoting the numerator from one denoting the denominator |
| `Rendering.RenderInjective` | Program.cs:63-66 | distinct fractions print differently: the "nom/denom" text determines both fields |
| `Fractions.MyFrac.constructor` | Program.cs:18-27 | with a non-zero denominator, the new instance is canonical and its fields are the reduced pair |
| `Fractions.MyFrac.Create` | Program.cs:18-27 | a zero denominator yields the DivideByZero error; otherwise a fresh canonical instance whose fields equal the value of `Make` |
| `Fractions.MyFrac.Simplify` | Program.cs:29-39 | in place: the fields become `Reduce` of the old fields, which is canonical, with an unchanged cross product |
| `Fractions.ReduceSteps` | Program.cs:29-39 | Simplify's steps compute `Reduce`: exact truncating division by the gcd, then moving the sign when the denominator quotient is negative |
| `Fractions.MyFrac.Add` | Program.cs:41-44 | a fresh canonical instance whose fields are `Rationals.Add` of the operands |
| `Fractions.MyFrac.Subtract` | Program.cs:46-49 | a fresh canonical instance whose fields are `Rationals.Subtract` of the operands |
| `Fractions.MyFrac.Multiply` | Program.cs:51-54 | a fresh canonical instance whose fields are `Rationals.Multiply` of the operands |
| `Fractions.MyFrac.Divide` | Program.cs:56-61 | fails exactly on a zero divisor with "Cannot divide by zero."; otherwise a fresh canonical instance matching `Rationals.Divide` |
| `Fractions.MyFrac.ToString` | Program.cs:63-66 | the text is "nom/denom" in decimal |
| `Fractions.MyFrac.CompareTo` | Program.cs:68-71 | matches `Compare`: negative exactly when this value is smaller, zero exactly when the fields are identical |
| `Harness.TestAPlusBSquare` | Program.cs:122-136 | the five lines printed, where the (a + b)^2 line and the a^2 + 2ab + b^2 line show the same fraction |
| `Harness.TestSquaresDifference` | Program.cs:138-151 | the four lines printed, where the (a - b)*(a + b) line and the a^2 - b^2 line show the same fraction |
| `Harness.SampleSum` | Program.cs:155-158 | 1/3 and 1/6 are stored unchanged, and their sum is 1/2 |
| `Harness.SampleOrder` | Program.cs:161-168 | 3/4, 1/2 and 5/6 are stored unchanged, and CompareTo orders them 1/2 < 3/4 < 5/6 |
| `Harness.SampleText` | Program.cs:170-173 | the three sorted fractions print as "1/2", "3/4" and "5/6" |

## Left out

- `MyComplex` (Program.cs:74-118) works on IEEE-754 doubles. Floating point is outside this model, and so are the harness calls that use it (Program.cs:156, 159).
- The interface `IMyNumber<T>` is not modelled as a type. The two harness tests are generic over it, and the model instantiates them at `MyFrac` only.
- Console output is returned as a sequence of lines instead of being written. `Console.ReadKey`, the "Sorted fractions:" heading and the printing loop are not modelled; `Harness.SampleText` gives the texts the loop prints.
- `List<MyFrac>.Sort` is library code. Only the comparator it uses (`CompareTo`) and the order of the three sample values are modelled.
- `BigInteger.GreatestCommonDivisor` is modelled by its mathematical definition: Euclid's algorithm on the absolute values, with gcd(0, d) = abs(d). The library's own algorithm is not modelled.
- The `int` constructor overload (Program.cs:27) only widens to BigInteger. Dafny's `int` is already unbounded, so the overload coincides with the constructor modelled.
- `Fractions.MyFrac.constructor`: the constructor requires a non-zero denominator. The throwing path of the source constructor is `Fractions.MyFrac.Create`, which returns the error instead.
- `Rationals.CompareInt`: BigInteger.CompareTo promises only the sign of its result. The model returns exactly -1, 0 or 1, and so does `Rationals.Compare`. Every caller here uses only the sign.
- `Rendering.IntToString`: the text of a negative BigInteger depends on the current culture's negative sign. The model always uses '-', the invariant-culture sign.
- Every `MyFrac` parameter is non-null. A null operand would make the source throw NullReferenceException (Program.cs:41-71), and the model has no such case.
- Exceptions are modelled as the `Failure` case of a `Result`, carrying the exception's message. Nothing models the unwinding of the call stack.
