/**
 * MyFrac.ToString: the numerator and the denominator in decimal, joined
 * by '/'. A BigInteger renders as its decimal digits, preceded by '-'
 * when negative.
 */
module Rendering {
  import opened Arith
  import opened Rationals

  predicate IsDigit(c: char)
  {
    '0' <= c <= '9'
  }

  predicate AllDigits(s: string)
  {
    forall i :: 0 <= i < |s| ==> IsDigit(s[i])
  }

  function DigitChar(d: nat): (c: char)
    requires d < 10
    ensures IsDigit(c) && (c as int) - ('0' as int) == d
  {
    "0123456789"[d]
  }

  /** The number a string of decimal digits denotes, most significant first. */
  function DigitsValue(s: string): (n: nat)
    requires AllDigits(s)
  {
    if s == [] then 0
    else DigitsValue(s[..|s| - 1]) * 10 + ((s[|s| - 1] as int) - ('0' as int))
  }

  /** Decimal digits of n without leading zeros ("0" for zero). */
  function NatToString(n: nat): (s: string)
    ensures |s| >= 1 && AllDigits(s) && DigitsValue(s) == n
    ensures |s| > 1 ==> s[0] != '0'
  {
    if n < 10 then [DigitChar(n)]
    else
      var s := NatToString(n / 10) + [DigitChar(n % 10)];
      assert s[..|s| - 1] == NatToString(n / 10);
      s
  }

  /** Decimal text of an integer: an optional '-' followed by at least one digit. */
  predicate IsIntText(t: string)
  {
    |t| > 0 && if t[0] == '-' then |t| > 1 && AllDigits(t[1..]) else AllDigits(t)
  }

  /** The integer a decimal text denotes. */
  function IntValue(t: string): (x: int)
    requires IsIntText(t)
  {
    if t[0] == '-' then -(DigitsValue(t[1..]) as int) else DigitsValue(t)
  }

  /**
   * BigInteger.ToString: a '-' sign exactly for negative values, then the
   * decimal digits of the magnitude without leading zeros.
   */
  function IntToString(x: int): (s: string)
    ensures IsIntText(s) && IntValue(s) == x
    ensures s[0] == '-' <==> x < 0
    ensures var digits := if x < 0 then s[1..] else s;
            DigitsValue(digits) == Abs(x) && (|digits| > 1 ==> digits[0] != '0')
    ensures '/' !in s
  {
    if x < 0 then
      var s := "-" + NatToString(-x);
      assert s[1..] == NatToString(-x);
      s
    else NatToString(x)
  }

  /**
   * MyFrac.ToString: the first '/' of the text separates the decimal text
   * of the numerator from that of the denominator.
   */
  function Render(f: Frac): (s: string)
    ensures exists k :: 0 <= k < |s| && s[k] == '/' && '/' !in s[..k]
                        && IsIntText(s[..k]) && IntValue(s[..k]) == f.nom
                        && IsIntText(s[k + 1..]) && IntValue(s[k + 1..]) == f.denom
  {
    var n, d := IntToString(f.nom), IntToString(f.denom);
    var s := n + "/" + d;
    assert s[..|n|] == n && s[|n| + 1..] == d;
    s
  }

  /** Distinct integers render differently. */
  lemma IntToStringInjective(x: int, y: int)
    requires IntToString(x) == IntToString(y)
    ensures x == y
  {
    if x < 0 {
      assert NatToString(-x) == IntToString(x)[1..] == NatToString(-y);
    } else {
      assert NatToString(x) == NatToString(y);
    }
  }

  /** In x + "/" + y with no '/' in x, the first '/' sits at index |x|. */
  lemma FirstSlash(x: string, y: string)
    requires '/' !in x
    ensures (x + "/" + y)[|x|] == '/'
    ensures forall i :: 0 <= i < |x| ==> (x + "/" + y)[i] != '/'
  {
    forall i | 0 <= i < |x|
      ensures (x + "/" + y)[i] != '/'
    {
      assert (x + "/" + y)[i] == x[i];
    }
  }

  /** Cutting at the first '/' separates the two halves again. */
  lemma SplitAtSlash(x: string, y: string, x': string, y': string)
    requires '/' !in x && '/' !in x'
    requires x + "/" + y == x' + "/" + y'
    ensures x == x' && y == y'
  {
    FirstSlash(x, y);
    FirstSlash(x', y');
    var s := x + "/" + y;
    assert |x| == |x'|;
    assert x == s[..|x|] == x';
    assert y == s[|x| + 1..] == y';
  }

  /** The rendering is injective: the text determines both fields. */
  lemma RenderInjective(a: Frac, b: Frac)
    requires Render(a) == Render(b)
    ensures a == b
  {
    SplitAtSlash(IntToString(a.nom), IntToString(a.denom), IntToString(b.nom), IntToString(b.denom));
    IntToStringInjective(a.nom, b.nom);
    IntToStringInjective(a.denom, b.denom);
  }
}
