/**
 * Python's integer floor division `a // b`.
 *
 * Python rounds the quotient towards negative infinity for every sign of the
 * divisor and raises ZeroDivisionError when the divisor is zero. Dafny's `/`
 * on `int` is Euclidean (the remainder is never negative), which agrees with
 * Python for every dividend only when the divisor is positive. For a negative
 * divisor it rounds the exact quotient up where Python rounds it down
 * (`7 / -2` is -3 in Dafny, `7 // -2` is -4 in Python), so that case is
 * written out.
 */
module PythonInt {

  /** `a // b`: the greatest integer not above the exact quotient a / b. */
  function FloorDiv(a: int, b: int): (q: int)
    requires b != 0
    ensures b > 0 ==> b * q <= a < b * q + b
    ensures b < 0 ==> b * q + b < a <= b * q
  {
    if b > 0 then a / b else (-a) / (-b)
  }

  /** Multiplying both sides of `x <= y` by a positive factor keeps the order. */
  lemma MulLeftMono(c: int, x: int, y: int)
    requires c > 0 && x <= y
    ensures c * x <= c * y
  {
    assert c * y - c * x == c * (y - x);
  }

  /**
   * The floor bounds pin the quotient down: any q with
   * `b * q <= a < b * q + b` (for a positive divisor) is `a // b`.
   */
  lemma FloorDivUnique(a: int, b: int, q: int)
    requires b > 0
    requires b * q <= a < b * q + b
    ensures FloorDiv(a, b) == q
  {
    var r := FloorDiv(a, b);
    if r < q {
      MulLeftMono(b, r + 1, q);
      assert false;
    } else if q < r {
      MulLeftMono(b, q + 1, r);
      assert false;
    }
  }

  /** Flipping the sign of both operands does not change `a // b`. */
  lemma FloorDivNegateBoth(a: int, b: int)
    requires b != 0
    ensures FloorDiv(a, b) == FloorDiv(-a, -b)
  {
  }

  /** Floor division by a positive divisor is monotone in the dividend. */
  lemma FloorDivMonotone(a1: int, a2: int, b: int)
    requires b > 0 && a1 <= a2
    ensures FloorDiv(a1, b) <= FloorDiv(a2, b)
  {
    var q1, q2 := FloorDiv(a1, b), FloorDiv(a2, b);
    if q2 < q1 {
      MulLeftMono(b, q2 + 1, q1);
      assert false;
    }
  }

  /** For a positive divisor, q is at most `a // b` exactly when `q * b` does not exceed a. */
  lemma AtMostFloorDivIff(q: int, a: int, b: int)
    requires b != 0
    ensures b > 0 ==> (q <= FloorDiv(a, b) <==> q * b <= a)
  {
    if b > 0 {
      var f := FloorDiv(a, b);
      if q <= f {
        MulLeftMono(b, q, f);
      } else {
        MulLeftMono(b, f + 1, q);
      }
    }
  }

  /** A dividend between `b * lo` and `b * hi` has its quotient between lo and hi. */
  lemma FloorDivBetween(x: int, b: int, lo: int, hi: int)
    requires b > 0
    requires b * lo <= x < b * hi
    ensures lo <= FloorDiv(x, b) < hi
  {
    var f := FloorDiv(x, b);
    if f < lo {
      MulLeftMono(b, f + 1, lo);
      assert false;
    }
    if hi <= f {
      MulLeftMono(b, hi, f);
      assert false;
    }
  }

  /** The floor bounds of `a // b`, multiplied through by a positive p. */
  lemma FloorBoundsScaled(a: int, b: int, q: int, p: int)
    requires b > 0 && p > 0
    requires b * q <= a < b * q + b
    ensures b * (q * p) <= a * p < b * (q * p + p)
  {
    MulLeftMono(p, b * q, a);
    MulLeftMono(p, a + 1, b * q + b);
    assert p * (b * q) == b * (q * p);
    assert p * (b * q + b) == b * (q * p + p);
  }

  /**
   * Scaling the dividend by a positive factor before dividing, then dividing
   * the result by that factor, is plain floor division:
   * `((a * p) // b) // p == a // b`.
   */
  lemma FloorDivScaledThenUnscaled(a: int, p: int, b: int)
    requires b != 0
    ensures p > 0 ==> FloorDiv(FloorDiv(a * p, b), p) == FloorDiv(a, b)
    decreases if b < 0 then 1 else 0
  {
    if p <= 0 {
    } else if b < 0 {
      FloorDivNegateBoth(a * p, b);
      FloorDivNegateBoth(a, b);
      assert -(a * p) == (-a) * p;
      FloorDivScaledThenUnscaled(-a, p, -b);
    } else {
      var q := FloorDiv(a, b);
      FloorBoundsScaled(a, b, q, p);
      FloorDivBetween(a * p, b, q * p, q * p + p);
      var f := FloorDiv(a * p, b);
      assert p * q <= f < p * q + p;
      FloorDivUnique(f, p, q);
    }
  }
}
