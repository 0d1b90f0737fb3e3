/**
 * Integer division as the calendar engine writes it: `~~(a / b)`, a
 * quotient truncated toward zero, and the remainder `a - ~~(a / b) * b`
 * that goes with it. Dafny's own `/` and `%` are Euclidean (the remainder
 * is never negative), so they differ from these on negative dividends.
 */
module TruncArith {

  /**
   * `div(a, b)`: the quotient of a by b, truncated toward zero. Every
   * divisor the engine uses is a positive constant.
   */
  function TDiv(a: int, b: int): int
    requires b > 0
  {
    if a >= 0 then a / b else -((-a) / b)
  }

  /** `mod(a, b)`: the remainder that goes with TDiv. */
  function TMod(a: int, b: int): int
    requires b > 0
  {
    a - TDiv(a, b) * b
  }

  /** A positive multiple of a positive number is at least that number. */
  lemma MulAtLeast(k: int, b: int)
    requires b > 0 && k >= 1
    ensures k * b >= b
  {
    assert k * b == (k - 1) * b + b;
    assert (k - 1) * b >= 0;
  }

  /** Euclidean division of a non-negative number, in the shape the other lemmas use. */
  lemma FloorDivBounds(a: int, b: int)
    requires a >= 0 && b > 0
    ensures a / b >= 0 && 0 <= (a / b) * b <= a < (a / b) * b + b
  {
    var q, r := a / b, a % b;
    assert a == b * q + r;
    assert q * b >= 0;
  }

  /** The quotient never overshoots: |q*b| <= |a| < |q*b| + b, and q*b has the sign of a. */
  lemma TDivTruncates(a: int, b: int)
    requires b > 0
    ensures a >= 0 ==> 0 <= TDiv(a, b) * b <= a < TDiv(a, b) * b + b
    ensures a < 0 ==> TDiv(a, b) * b - b < a <= TDiv(a, b) * b <= 0
  {
    if a >= 0 {
      FloorDivBounds(a, b);
    } else {
      FloorDivBounds(-a, b);
      assert TDiv(a, b) * b == -(((-a) / b) * b);
    }
  }

  /** The remainder is smaller than the divisor in magnitude and takes the sign of the dividend. */
  lemma TModSign(a: int, b: int)
    requires b > 0
    ensures a == TDiv(a, b) * b + TMod(a, b)
    ensures a >= 0 ==> 0 <= TMod(a, b) < b
    ensures a < 0 ==> -b < TMod(a, b) <= 0
  {
    TDivTruncates(a, b);
  }

  /** On a non-negative dividend and a positive divisor, truncation and flooring agree. */
  lemma TDivAgreesWithEuclid(a: int, b: int)
    requires a >= 0 && b > 0
    ensures TDiv(a, b) == a / b && TMod(a, b) == a % b
  {
    assert a == b * (a / b) + a % b;
  }

  /** Truncation is odd in the dividend: negating a negates the quotient and the remainder. */
  lemma TDivOdd(a: int, b: int)
    requires b > 0
    ensures TDiv(-a, b) == -TDiv(a, b) && TMod(-a, b) == -TMod(a, b)
  {
  }

  /** Where truncation and flooring part ways: -7 divided by 2. */
  lemma TDivNegativeExample()
    ensures TDiv(-7, 2) == -3 && -7 / 2 == -4
    ensures TMod(-7, 2) == -1 && -7 % 2 == 1
  {
  }

  /** A multiple of b strictly between -b and b is zero. */
  lemma SmallMultipleIsZero(k: int, b: int)
    requires b > 0 && -b < k * b < b
    ensures k == 0
  {
    if k >= 1 {
      MulAtLeast(k, b);
    } else if k <= -1 {
      assert k * b == -((-k) * b);
      MulAtLeast(-k, b);
    }
  }

  /** The quotient is pinned down by any remainder in range: the tool used by the kernel proofs. */
  lemma TDivUnique(a: int, b: int, q: int, r: int)
    requires b > 0 && q >= 0 && 0 <= r < b && a == q * b + r
    ensures TDiv(a, b) == q && TMod(a, b) == r
  {
    assert q * b >= 0;
    var q', r' := a / b, a % b;
    assert a == q' * b + r' && 0 <= r' < b;
    assert TDiv(a, b) == q';
    assert (q' - q) * b == r - r';
    SmallMultipleIsZero(q' - q, b);
  }

  /**
   * The product q * x, as a sum of |q| copies of x. The engine multiplies
   * two unknowns once (in j2d's month offset); spelling that product out
   * recursively keeps nonlinear arithmetic out of every proof that only
   * carries the offset along, and TimesIsProduct gives q * x back.
   */
  function Times(q: int, x: int): int
    decreases if q < 0 then -q else q
  {
    if q == 0 then 0
    else if q > 0 then Times(q - 1, x) + x
    else Times(q + 1, x) - x
  }

  /** Times is multiplication. */
  lemma {:induction false} TimesIsProduct(q: int, x: int)
    ensures Times(q, x) == q * x
    decreases if q < 0 then -q else q
  {
    if q > 0 {
      TimesIsProduct(q - 1, x);
    } else if q < 0 {
      TimesIsProduct(q + 1, x);
    }
  }
}
