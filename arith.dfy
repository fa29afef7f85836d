/**
 * Integer facts behind the fraction type: absolute value, the division
 * operator of System.Numerics.BigInteger (which truncates toward zero),
 * the greatest common divisor on non-negative integers, and the
 * divisibility lemmas that reduction to lowest terms relies on.
 *
 * BigInteger is unbounded, so Dafny's `int` models it without loss.
 */
module Arith {

  function Abs(x: int): (r: nat)
    ensures r == x || r == -x
  {
    if x < 0 then -x else x
  }

  /** `d` divides `n`, for a positive `d`. */
  predicate Divides(d: nat, n: int)
  {
    d > 0 && n % d == 0
  }

  /**
   * BigInteger division truncates the quotient toward zero: the remainder
   * is smaller than the divisor in magnitude and never has the opposite
   * sign to the dividend. These two facts determine the quotient.
   */
  function TDiv(a: int, b: int): (q: int)
    requires b != 0
    ensures var rem := a - b * q; Abs(rem) < Abs(b) && (a >= 0 ==> rem >= 0) && (a < 0 ==> rem <= 0)
  {
    var m, r := Abs(a) / Abs(b), Abs(a) % Abs(b);
    TruncatedRemainder(a, b, m, r);
    var q := if (a < 0) == (b < 0) then m else -m;
    assert a - b * q == if a < 0 then -r else r;
    q
  }

  /** Given |a| == |b| * m + r, the signed quotient leaves the remainder r with the dividend's sign. */
  lemma TruncatedRemainder(a: int, b: int, m: int, r: int)
    requires b != 0 && Abs(a) == Abs(b) * m + r && 0 <= r < Abs(b)
    ensures a - b * (if (a < 0) == (b < 0) then m else -m) == if a < 0 then -r else r
  {
    var bm := Abs(b) * m;
    if a < 0 && b < 0 {
      assert a - b * m == -r by { assert b * m == -bm; }
    } else if a < 0 {
      assert a - b * -m == -r by { assert b * -m == -bm; }
    } else if b < 0 {
      assert a - b * -m == r by { assert b * -m == bm; }
    } else {
      assert a - b * m == r by { assert b * m == bm; }
    }
  }

  /**
   * Greatest common divisor of two non-negative integers by Euclid's
   * algorithm; gcd(0, b) == b and gcd(0, 0) == 0.
   */
  function Gcd(a: nat, b: nat): (g: nat)
    ensures g == 0 <==> a == 0 && b == 0
    decreases b
  {
    if b == 0 then a else Gcd(b, a % b)
  }

  // ---------------------------------------------------------------------
  // Euclidean division and multiplication

  lemma MulPositive(x: int, y: int)
    requires x > 0 && y > 0
    ensures x * y > 0
  {
  }

  lemma MulStrictMono(k: int, x: int, y: int)
    requires k > 0 && x < y
    ensures k * x < k * y
  {
    assert k * y - k * x == k * (y - x);
    MulPositive(k, y - x);
  }

  lemma {:induction false} DivModUnique(x: int, g: int, q: int, r: int)
    requires g > 0 && 0 <= r < g && x == g * q + r
    ensures x / g == q && x % g == r
  {
    var q', r' := x / g, x % g;
    assert x == g * q' + r';
    assert g * (q - q') == r' - r;
    MulSmall(g, q - q');
  }

  /** A multiple of g strictly between -g and g is zero. */
  lemma MulSmall(g: int, k: int)
    requires g > 0 && -g < g * k < g
    ensures k == 0
  {
    if k >= 1 {
      MulMonoOne(g, k);
    } else if k <= -1 {
      MulMonoNeg(g, k);
    }
  }

  lemma MulMonoNeg(g: int, k: int)
    requires g > 0 && k <= -1
    ensures g * k <= -g
  {
    MulMonoOne(g, -k);
    assert g * -k == -(g * k);
  }

  lemma MulMonoOne(g: int, k: int)
    requires g > 0 && k >= 1
    ensures g * k >= g
  {
    assert g * k == g + g * (k - 1);
    if k > 1 { MulPositive(g, k - 1); }
  }

  lemma MultipleDivides(g: nat, k: int)
    requires g > 0
    ensures (g * k) % g == 0 && (g * k) / g == k
  {
    DivModUnique(g * k, g, k, 0);
  }

  /** A positive `d` divides `n` exactly when `n` is `d` times `n / d`. */
  lemma DividesQuotient(d: nat, n: int)
    requires d > 0
    ensures Divides(d, n) <==> n == d * (n / d)
  {
    if n == d * (n / d) {
      MultipleDivides(d, n / d);
    }
  }

  lemma DividesLinear(d: nat, x: int, y: int, q: int)
    requires Divides(d, x) && Divides(d, y)
    ensures Divides(d, x * q + y) && Divides(d, x - y * q)
  {
    DividesQuotient(d, x);
    DividesQuotient(d, y);
    var kx, ky := x / d, y / d;
    assert x * q + y == d * (kx * q + ky) by {
      assert x * q == d * kx * q;
    }
    assert x - y * q == d * (kx - ky * q) by {
      assert y * q == d * ky * q;
    }
    MultipleDivides(d, kx * q + ky);
    MultipleDivides(d, kx - ky * q);
  }

  lemma DividesNeg(d: nat, x: int)
    requires Divides(d, x)
    ensures Divides(d, -x) && Divides(d, Abs(x))
  {
    DividesLinear(d, 0, x, 0);
    MultipleDivides(d, 0);
    assert 0 - x * 0 == 0;
    DividesLinear(d, 0, x, 1);
    assert 0 * 1 + x == x;
    DividesLinear(d, x, x, 2);
  }

  /** A divisor of a positive number is no larger than it. */
  lemma DivisorLe(d: nat, n: int)
    requires Divides(d, n) && n > 0
    ensures d <= n
  {
    DividesQuotient(d, n);
    var k := n / d;
    if k == 0 {
    } else if k < 0 {
      MulMonoNeg(d, k);
    } else {
      MulMonoOne(d, k);
    }
  }

  /** With exact division, truncation and Dafny's Euclidean division agree. */
  lemma TDivExact(a: int, b: int)
    requires b > 0 && Divides(b, a)
    ensures TDiv(a, b) == a / b
  {
    DividesQuotient(b, a);
    var k := a / b;
    if a < 0 {
      assert -a == b * -k;
      MultipleDivides(b, -k);
    } else {
      MultipleDivides(b, k);
    }
  }

  // ---------------------------------------------------------------------
  // Greatest common divisor

  /** gcd(a, b) divides both a and b. */
  lemma {:induction false} GcdDivides(a: nat, b: nat)
    requires a != 0 || b != 0
    ensures Divides(Gcd(a, b), a) && Divides(Gcd(a, b), b)
    decreases b
  {
    if b == 0 {
      MultipleDivides(a, 1);
      MultipleDivides(a, 0);
    } else {
      var g := Gcd(a, b);
      GcdDivides(b, a % b);
      assert a == b * (a / b) + a % b;
      DividesLinear(g, b, a % b, a / b);
      assert b * (a / b) + a % b == a;
    }
  }

  /** Every common divisor of a and b divides gcd(a, b). */
  lemma {:induction false} GcdGreatest(a: nat, b: nat, d: nat)
    requires Divides(d, a) && Divides(d, b)
    ensures Divides(d, Gcd(a, b))
    decreases b
  {
    if b != 0 {
      assert a - b * (a / b) == a % b;
      DividesLinear(d, a, b, a / b);
      GcdGreatest(b, a % b, d);
    }
  }

  /** Scaling both arguments scales the gcd: gcd(k*a, k*b) == k * gcd(a, b). */
  lemma {:induction false} GcdScale(k: nat, a: nat, b: nat)
    requires k > 0
    ensures k * a >= 0 && k * b >= 0
    ensures Gcd(k * a, k * b) == k * Gcd(a, b)
    decreases b
  {
    if b == 0 {
      assert k * b == 0;
    } else {
      MulPositive(k, b);
      var q, r := a / b, a % b;
      assert a == b * q + r;
      assert k * a == (k * b) * q + k * r;
      assert 0 <= k * r < k * b by {
        if r > 0 { MulPositive(k, r); }
        MulStrictMono(k, r, b);
      }
      DivModUnique(k * a, k * b, q, k * r);
      GcdScale(k, b, r);
    }
  }

  /**
   * Euclid's lemma: if n divides a*b and gcd(a, n) == 1 then n divides b.
   */
  lemma CoprimeDivides(a: nat, b: nat, n: nat)
    requires Gcd(a, n) == 1 && Divides(n, a * b)
    ensures Divides(n, b)
  {
    if b == 0 {
      MultipleDivides(n, 0);
    } else {
      GcdScale(b, a, n);
      assert b * a == a * b;
      MultipleDivides(n, b);
      assert n * b == b * n;
      GcdGreatest(b * a, b * n, n);
      assert Gcd(b * a, b * n) == b;
    }
  }
}
