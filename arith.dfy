/** Facts about multiplication and truncating division on naturals that the solver does not find alone. */
module Arith {

  lemma MulLeft(a: nat, b: nat, c: nat)
    requires a <= b
    ensures c * a <= c * b
  {
  }

  lemma MulRotate(a: nat, b: nat, c: nat)
    ensures a * (b * c) == c * (b * a)
  {
  }

  lemma SquareMonotone(a: nat, b: nat)
    requires a <= b
    ensures a * a <= b * b
  {
    MulLeft(a, b, a);
    MulLeft(a, b, b);
  }

  /** Division characterised by its remainder. */
  lemma DivBounds(a: nat, d: nat)
    requires d > 0
    ensures d * (a / d) <= a < d * (a / d + 1)
  {
  }

  /** The quotient is the unique q with q*d <= a < (q+1)*d. */
  lemma DivUnique(a: nat, d: nat, q: nat)
    requires d > 0
    requires d * q <= a < d * (q + 1)
    ensures a / d == q
  {
    DivBounds(a, d);
    var p := a / d;
    if p < q {
      MulLeft(p + 1, q, d);
    } else if p > q {
      MulLeft(q + 1, p, d);
    }
  }

  lemma DivLeSelf(a: nat, d: nat)
    requires d > 0
    ensures a / d <= a
  {
    var q := a / d;
    DivBounds(a, d);
    MulLeft(1, d, q);
    assert q <= q * d;
  }

  lemma DivMonotone(a: nat, b: nat, d: nat)
    requires a <= b && d > 0
    ensures a / d <= b / d
  {
    DivBounds(a, d);
    DivBounds(b, d);
    if a / d > b / d {
      MulLeft(b / d + 1, a / d, d);
    }
  }

  lemma DivAntitone(a: nat, d1: nat, d2: nat)
    requires 0 < d1 <= d2
    ensures a / d2 <= a / d1
  {
    var q1, q2 := a / d1, a / d2;
    DivBounds(a, d1);
    DivBounds(a, d2);
    MulLeft(d1, d2, q2);
    assert d1 * q2 <= a;
    if q2 > q1 {
      MulLeft(q1 + 1, q2, d1);
    }
  }

  /** Truncating twice is truncating once by the product. */
  lemma DivDiv(a: nat, b: nat, c: nat)
    requires b > 0 && c > 0
    ensures a / b / c == a / (b * c)
  {
    var q := a / b;
    var p := q / c;
    DivBounds(a, b);
    DivBounds(q, c);
    MulLeft(c * p, q, b);
    MulLeft(q + 1, c * (p + 1), b);
    DivUnique(a, b * c, p);
  }

  /** a * b / c never exceeds a when b <= c. */
  lemma MulDivLe(a: nat, b: nat, c: nat)
    requires 0 < c && b <= c
    ensures a * b / c <= a
  {
    MulLeft(b, c, a);
    DivMonotone(a * b, a * c, c);
    DivUnique(a * c, c, a);
  }

  /** Scaling by k/d with k < d strictly shrinks a positive number. */
  lemma ScaleDownStrict(a: nat, k: nat, d: nat)
    requires 0 < a && k < d
    ensures a * k / d < a
  {
    DivBounds(a * k, d);
    MulLeft(k, d - 1, a);
    if a * k / d >= a {
      MulLeft(a, a * k / d, d);
    }
  }

  /** Adding a whole multiple of d to the dividend adds exactly that many to the quotient. */
  lemma DivAddMultiple(s: nat, r: nat, d: nat)
    requires d > 0
    ensures (d * s + r) / d == s + r / d
  {
    var q := r / d;
    DivBounds(r, d);
    assert d * (s + q) == d * s + d * q;
    assert d * (s + q + 1) == d * s + d * (q + 1);
    DivUnique(d * s + r, d, s + q);
  }

  lemma DivMod(a: nat, d: nat)
    requires d > 0
    ensures a == d * (a / d) + a % d && a % d < d
  {
  }

  lemma Distribute3(d: nat, x: nat, y: nat, z: nat)
    ensures d * (x + y + z) == d * x + d * y + d * z
  {
  }

  /** The quotient of a sum of three is the sum of the quotients plus the quotient of the
      remainders. */
  lemma DivSplitThree(a: nat, b: nat, c: nat, d: nat)
    requires d > 0
    ensures (a + b + c) / d == a / d + b / d + c / d + (a % d + b % d + c % d) / d
  {
    var qa, qb, qc := a / d, b / d, c / d;
    assert a == d * qa + a % d by { DivMod(a, d); }
    assert b == d * qb + b % d by { DivMod(b, d); }
    assert c == d * qc + c % d by { DivMod(c, d); }
    assert a + b + c == d * (qa + qb + qc) + (a % d + b % d + c % d) by { Distribute3(d, qa, qb, qc); }
    DivAddMultiple(qa + qb + qc, a % d + b % d + c % d, d);
  }

  /** Three remainders together make at most two more whole divisors. */
  lemma RemaindersOfThree(ra: nat, rb: nat, rc: nat, d: nat)
    requires ra < d && rb < d && rc < d
    ensures (ra + rb + rc) / d <= 2
  {
    var r := ra + rb + rc;
    DivBounds(r, d);
    if r / d >= 3 {
      MulLeft(3, r / d, d);
    }
  }

  /** Truncating three parts separately loses at most two units against truncating their sum. */
  lemma DivSumOfThree(a: nat, b: nat, c: nat, d: nat)
    requires d > 0
    ensures a / d + b / d + c / d <= (a + b + c) / d <= a / d + b / d + c / d + 2
  {
    DivSplitThree(a, b, c, d);
    RemaindersOfThree(a % d, b % d, c % d, d);
  }

  /** The integer form of the arithmetic-geometric mean inequality behind Newton's square root:
      if x * (q + 1) exceeds n and s * s does not, then x + q >= 2s. */
  lemma NewtonMean(n: nat, x: nat, q: nat, s: nat)
    requires x >= 1 && s * s <= n && n < x * (q + 1)
    ensures x + q >= 2 * s
  {
    if x + q < 2 * s {
      MulLeft(q + 1, 2 * s - x, x);
      MeanBelowSquare(x, s);
    }
  }

  /** x · (2s − x) never exceeds s², the square of the mean of x and 2s − x. */
  lemma MeanBelowSquare(x: nat, s: nat)
    requires x <= 2 * s
    ensures x * (2 * s - x) <= s * s
  {
    var e := s - x;
    assert x * (2 * s - x) + e * e == s * s;
  }

  /** A quotient of n by some x >= s is at most s + 2 when n < (s + 1)^2. */
  lemma QuotientNearRoot(n: nat, x: nat, q: nat, s: nat)
    requires s >= 1 && s <= x && x * q <= n < (s + 1) * (s + 1)
    ensures q <= s + 2
  {
    MulLeft(s, x, q);
    assert (s + 1) * (s + 1) == s * (s + 2) + 1;
    if q > s + 2 {
      MulLeft(s + 3, q, s);
    }
  }

  /** A larger numerator over a smaller divisor, then truncated by the same c, is never smaller. */
  lemma QuotientMonotone(a1: nat, a2: nat, d1: nat, d2: nat, c: nat)
    requires a1 <= a2 && 0 < d2 <= d1 && c > 0
    ensures a1 / d1 / c <= a2 / d2 / c
  {
    DivMonotone(a1, a2, d1);
    DivAntitone(a2, d2, d1);
    DivMonotone(a1 / d1, a2 / d2, c);
  }
}
