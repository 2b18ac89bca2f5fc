/** The arbitrary-precision integer capabilities the class group consumes:
    rounding divisions with remainder, right shift, parity, exact division
    and the extended gcd. The configured integer type is not part of this
    model; each capability is stated here by what it computes on `int`. */
module Integer {

  /** d divides n: n is an integer multiple of d (0 divides only 0). */
  ghost predicate Divides(d: int, n: int) {
    exists k :: n == d * k
  }

  function Abs(x: int): (r: nat)
    ensures r == x || r == -x
  {
    if x < 0 then -x else x
  }

  /** Quotient rounded toward minus infinity, together with the remainder
      x - q * y, as the integer type's `div_rem_floor` returns them. */
  function DivRemFloor(x: int, y: int): (qr: (int, int))
    requires y != 0
    ensures x == qr.0 * y + qr.1
    ensures y > 0 ==> 0 <= qr.1 < y
    ensures y < 0 ==> y < qr.1 <= 0
  {
    if y > 0 || x % y == 0 then (x / y, x % y)
    else (x / y - 1, x % y + y)
  }

  /** Quotient rounded toward plus infinity, together with the remainder
      x - q * y, as the integer type's `div_rem_ceil` returns them. */
  function DivRemCeil(x: int, y: int): (qr: (int, int))
    requires y != 0
    ensures x == qr.0 * y + qr.1
    ensures y > 0 ==> -y < qr.1 <= 0
    ensures y < 0 ==> 0 <= qr.1 < -y
  {
    var (q, r) := DivRemFloor(-x, y);
    (-q, -r)
  }

  /** The rounded quotient is the only quotient whose remainder lies in the
      stated window: floor division is uniquely determined by its contract. */
  lemma FloorQuotientUnique(x: int, y: int, q: int)
    requires y > 0
    requires q * y <= x < q * y + y
    ensures DivRemFloor(x, y).0 == q
  {
    var q' := DivRemFloor(x, y).0;
    if q' < q {
      MulMonotone(q' + 1, q, y);
    } else if q < q' {
      MulMonotone(q + 1, q', y);
    }
  }

  lemma MulMonotone(i: int, j: int, y: int)
    requires i <= j && y > 0
    ensures i * y <= j * y
  {
    assert j * y - i * y == (j - i) * y;
  }

  /** A positive factor cancels from both sides of an equation. */
  lemma CancelPositive(x: int, y: int, d: int)
    requires d > 0 && x * d == y * d
    ensures x == y
  {
    if x < y {
      MulMonotone(x + 1, y, d);
    } else if y < x {
      MulMonotone(y + 1, x, d);
    }
  }

  function Pow2(k: nat): (p: nat)
    ensures p >= 1
  {
    if k == 0 then 1 else 2 * Pow2(k - 1)
  }

  /** `x >> k` on a two's-complement bignum: rounds toward minus infinity. */
  function Shr(x: int, k: nat): (r: int)
    ensures r * Pow2(k) <= x < r * Pow2(k) + Pow2(k)
  {
    DivRemFloor(x, Pow2(k)).0
  }

  /** Parity as the integer type reports it; negative odd numbers are odd. */
  function IsOdd(x: int): (odd: bool)
    ensures odd <==> !Divides(2, x)
  {
    EvenIsDivisible(x);
    x % 2 == 1
  }

  /** Even in the sense of the remainder is the same as divisible by 2. */
  lemma EvenIsDivisible(x: int)
    ensures x % 2 == 0 <==> Divides(2, x)
  {
    assert x == 2 * (x / 2) + x % 2;
    if Divides(2, x) {
      var k :| x == 2 * k;
      ExactQuotient(x, 2, k);
    }
  }

  /** Exact division: defined only when y divides x, as `div_exact` assumes. */
  function ExactDiv(x: int, y: int): (q: int)
    requires y != 0 && Divides(y, x)
    ensures q * y == x
  {
    var k :| x == y * k;
    ExactQuotient(x, y, k);
    x / y
  }

  lemma ExactQuotient(x: int, y: int, k: int)
    requires y != 0 && x == y * k
    ensures x / y == k
  {
    var q, r := x / y, x % y;
    assert x == q * y + r;
    assert (k - q) * y == r;
    if k - q > 0 {
      MulMonotone(1, k - q, Abs(y));
    } else if k - q < 0 {
      MulMonotone(1, q - k, Abs(y));
    }
  }

  /** Extended Euclid: d = gcd(x, y) >= 0 with Bezout cofactors d = u*x + v*y,
      d a common divisor of x and y. */
  function ExtendedGcd(x: int, y: int): (duv: (int, int, int))
    ensures duv.0 >= 0
    ensures duv.0 == duv.1 * x + duv.2 * y
    ensures Divides(duv.0, x) && Divides(duv.0, y)
    decreases Abs(y)
  {
    if y == 0 then
      assert x == Abs(x) * (if x < 0 then -1 else 1) && 0 == Abs(x) * 0;
      (Abs(x), if x < 0 then -1 else 1, 0)
    else
      var q, r := x / y, x % y;
      var duv := ExtendedGcd(y, r);
      EuclidStep(x, y, q, r, duv.0, duv.1, duv.2);
      (duv.0, duv.2, duv.1 - duv.2 * q)
  }

  /** One division step of Euclid carries the Bezout identity and the common
      divisor from (y, x mod y) back to (x, y). */
  lemma EuclidStep(x: int, y: int, q: int, r: int, d: int, s: int, t: int)
    requires x == q * y + r
    requires d == s * y + t * r
    requires Divides(d, y) && Divides(d, r)
    ensures d == t * x + (s - t * q) * y
    ensures Divides(d, x)
  {
    assert t * r == t * x - (t * q) * y;
    DividesCombination(d, y, r, q);
  }

  /** A common divisor of y and r divides q*y + r. */
  lemma DividesCombination(d: int, y: int, r: int, q: int)
    requires Divides(d, y) && Divides(d, r)
    ensures Divides(d, q * y + r)
  {
    var ky :| y == d * ky;
    var kr :| r == d * kr;
    assert q * y + r == d * (q * ky + kr);
  }

  /** The gcd is the greatest common divisor: every common divisor of x and
      y divides it. */
  lemma GcdIsGreatest(x: int, y: int, e: int)
    requires Divides(e, x) && Divides(e, y)
    ensures Divides(e, ExtendedGcd(x, y).0)
  {
    var (d, u, v) := ExtendedGcd(x, y);
    DividesLinear(e, x, y, u, v);
  }

  /** A common divisor of x and y divides every combination u*x + v*y. */
  lemma DividesLinear(e: int, x: int, y: int, u: int, v: int)
    requires Divides(e, x) && Divides(e, y)
    ensures Divides(e, u * x + v * y)
  {
    var kx :| x == e * kx;
    var ky :| y == e * ky;
    calc {
      u * x + v * y;
      { assert u * (e * kx) == e * (u * kx); assert v * (e * ky) == e * (v * ky); }
      e * (u * kx) + e * (v * ky);
      e * (u * kx + v * ky);
    }
  }

  lemma GcdIsGreatestAll(x: int, y: int)
    ensures forall e :: Divides(e, x) && Divides(e, y) ==> Divides(e, ExtendedGcd(x, y).0)
  {
    forall e | Divides(e, x) && Divides(e, y)
      ensures Divides(e, ExtendedGcd(x, y).0)
    {
      GcdIsGreatest(x, y, e);
    }
  }
}
