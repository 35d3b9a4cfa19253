/** The two pieces of JavaScript number semantics the generators depend on:
    the remainder operator `%` on integral operands, and the decimal text a
    template literal produces for an integral number of magnitude at most
    2^53, which covers every int32 seed (above 2^53 JavaScript numbers are
    rounded and their digits differ, and from 10^21 on they are written in
    exponent form; neither is modelled). */
module JsNumbers {

  /** ECMAScript `a % n` for integral `a` and positive `n`: the remainder
      truncates toward zero, so it has the sign of the dividend (a negative
      `a` gives a remainder in (-n, 0], where `-0` compares equal to 0).
      Dafny's own `%` is Euclidean and never negative. */
  function JsRem(a: int, n: int): (r: int)
    requires n > 0
    ensures -n < r < n
    ensures a >= 0 ==> r >= 0
    ensures a <= 0 ==> r <= 0
    ensures (a - r) % n == 0
  {
    if a >= 0 then
      ModOfDifference(a, n);
      a % n
    else
      ModOfDifference(-a, n);
      assert a - -((-a) % n) == -((-a) - (-a) % n);
      NegMod(-a - (-a) % n, n);
      -((-a) % n)
  }

  /** The three properties in JsRem's contract determine the remainder. */
  lemma JsRemUnique(a: int, n: int, r: int)
    requires n > 0 && -n < r < n
    requires a >= 0 ==> r >= 0
    requires a <= 0 ==> r <= 0
    requires (a - r) % n == 0
    ensures r == JsRem(a, n)
  {
    var s := JsRem(a, n);
    assert (r - s) % n == 0 by {
      ModSubMultiples(a - s, a - r, n);
      assert (a - s) - (a - r) == r - s;
    }
    ModSmall(r - s, n);
  }

  /** JavaScript's remainder agrees with the Euclidean one on non-negative
      dividends and on multiples of `n`; otherwise it is n less. */
  lemma JsRemAsEuclidean(a: int, n: int)
    requires n > 0
    ensures JsRem(a, n) == if a >= 0 || a % n == 0 then a % n else a % n - n
  {
    if a < 0 {
      var q, e := a / n, a % n;
      assert a == q * n + e;
      if e == 0 {
        NegMod(a, n);
      } else {
        assert -a == (-q - 1) * n + (n - e);
        ModUnique(-a, -q - 1, n - e, n);
      }
    }
  }

  /** Euclidean division is unique: a remainder in [0, n) is the remainder. */
  lemma ModUnique(m: int, k: int, t: int, n: int)
    requires n > 0 && 0 <= t < n && m == k * n + t
    ensures m % n == t
  {
    assert m == (m / n) * n + m % n;
    assert (k - m / n) * n == m % n - t;
    MulSmall(k - m / n, n);
  }

  lemma ModOfDifference(a: int, n: int)
    requires n > 0
    ensures (a - a % n) % n == 0
  {
    var q := a / n;
    assert a - a % n == q * n;
    MultipleMod(q, n);
  }

  lemma MultipleMod(q: int, n: int)
    requires n > 0
    ensures (q * n) % n == 0
  {
    var m := q * n;
    assert (q - m / n) * n == m % n by {
      assert m == (m / n) * n + m % n;
      assert (q - m / n) * n == q * n - (m / n) * n;
    }
    MulSmall(q - m / n, n);
  }

  /** A multiple of `n` strictly between -n and n is zero. */
  lemma MulSmall(k: int, n: int)
    requires n > 0 && -n < k * n < n
    ensures k == 0
  {
  }

  lemma NegMod(x: int, n: int)
    requires n > 0 && x % n == 0
    ensures (-x) % n == 0
  {
    var q := x / n;
    assert x == q * n;
    assert -x == (-q) * n;
    MultipleMod(-q, n);
  }

  lemma ModSubMultiples(x: int, y: int, n: int)
    requires n > 0 && x % n == 0 && y % n == 0
    ensures (x - y) % n == 0
  {
    var qx, qy := x / n, y / n;
    assert x == qx * n;
    assert y == qy * n;
    assert x - y == (qx - qy) * n;
    MultipleMod(qx - qy, n);
  }

  lemma ModSmall(d: int, n: int)
    requires n > 0 && -2 * n < d < 2 * n && d % n == 0
    ensures d == 0 || d == n || d == -n
  {
    var q := d / n;
    assert d == q * n;
  }

  // ---------------------------------------------------------------------
  // Decimal text of an integral number, as a template literal renders it
  // when the magnitude is at most 2^53, which covers every int32 seed.

  predicate IsDigit(c: char) {
    '0' <= c <= '9'
  }

  predicate AllDigits(s: string) {
    forall k :: 0 <= k < |s| ==> IsDigit(s[k])
  }

  function Digit(d: int): (c: char)
    requires 0 <= d < 10
    ensures IsDigit(c) && DigitValue(c) == d
  {
    (d + '0' as int) as char
  }

  function DigitValue(c: char): (d: int) {
    c as int - '0' as int
  }

  /** The shortest decimal numeral of `n`: at least one digit, and no
      leading zero unless `n` itself is 0. */
  function NatDigits(n: nat): (s: string)
    ensures |s| >= 1 && AllDigits(s)
    ensures s[0] == '0' <==> n == 0
    decreases n
  {
    if n < 10 then [Digit(n)] else NatDigits(n / 10) + [Digit(n % 10)]
  }

  /** Reads a string of digits as a natural number, most significant first. */
  function ParseNat(s: string): (n: nat)
    requires AllDigits(s)
  {
    if s == [] then 0 else ParseNat(s[..|s| - 1]) * 10 + DigitValue(s[|s| - 1])
  }

  lemma {:induction false} ParseNatDigits(n: nat)
    ensures ParseNat(NatDigits(n)) == n
    decreases n
  {
    if n >= 10 {
      var s := NatDigits(n);
      assert s[..|s| - 1] == NatDigits(n / 10);
      ParseNatDigits(n / 10);
    }
  }

  /** The text of an integral number: a `-` sign for negatives, then the
      digits of the magnitude. This is JavaScript's text for the number
      only when its magnitude is at most 2^53, which covers every int32
      seed; above that JavaScript rounds the number, and from 10^21 on it
      writes exponent form. */
  function DecimalString(i: int): (s: string)
    ensures |s| >= 1
    ensures s[0] == '-' <==> i < 0
    ensures i < 0 ==> |s| >= 2 && AllDigits(s[1..])
    ensures i >= 0 ==> AllDigits(s)
  {
    if i < 0 then "-" + NatDigits(-i) else NatDigits(i)
  }

  /** Reads back what DecimalString writes. */
  function ParseDecimal(s: string): (i: int)
    requires |s| >= 1
    requires s[0] == '-' ==> AllDigits(s[1..])
    requires s[0] != '-' ==> AllDigits(s)
  {
    if s[0] == '-' then 0 - ParseNat(s[1..]) else ParseNat(s)
  }

  lemma DecimalRoundTrip(i: int)
    ensures ParseDecimal(DecimalString(i)) == i
  {
    if i < 0 {
      assert DecimalString(i)[1..] == NatDigits(-i);
      ParseNatDigits(-i);
    } else {
      ParseNatDigits(i);
    }
  }

  /** Distinct integers have distinct decimal texts. */
  lemma DecimalStringInjective(i: int, j: int)
    ensures DecimalString(i) == DecimalString(j) <==> i == j
  {
    if DecimalString(i) == DecimalString(j) {
      DecimalRoundTrip(i);
      DecimalRoundTrip(j);
    }
  }
}
