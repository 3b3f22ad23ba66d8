/** Small facts of non-linear integer arithmetic that the solver does not find by itself. */
module Arith {

  lemma {:induction false} MulLeRight(a: int, b: int, c: int)
    requires a <= b && 0 <= c
    ensures a * c <= b * c
  {
    assert b * c - a * c == (b - a) * c;
  }

  lemma {:induction false} MulLtRight(a: int, b: int, c: int)
    requires a < b && 0 < c
    ensures a * c < b * c
  {
    assert b * c - a * c == (b - a) * c;
  }

  lemma {:induction false} MulNonNegative(a: int, b: int)
    requires 0 <= a && 0 <= b
    ensures 0 <= a * b
  {
  }

  /** Cancelling a positive factor from a strict inequality. */
  lemma {:induction false} MulCancelLt(k: int, a: int, b: int)
    requires 0 < k && k * a < k * b
    ensures a < b
  {
    if b <= a {
      MulLeRight(b, a, k);
    }
  }

  /** Cancelling a positive factor from a non-strict inequality. */
  lemma {:induction false} MulCancelLe(k: int, a: int, b: int)
    requires 0 < k && k * a <= k * b
    ensures a <= b
  {
    if b < a {
      MulLtRight(b, a, k);
    }
  }

  /** A quotient and remainder that satisfy the division equation are the ones `/` and `%` give. */
  lemma {:induction false} DivModUnique(a: int, d: int, q: int, r: int)
    requires 0 < d && 0 <= r < d && a == d * q + r
    ensures a / d == q && a % d == r
  {
    var q', r' := a / d, a % d;
    assert a == d * q' + r';
    assert d * (q - q') == r' - r;
    if q < q' {
      MulLeRight(1, q' - q, d);
    } else if q > q' {
      MulLeRight(1, q - q', d);
    }
  }

  /** Euclidean division of a natural number by a positive divisor. */
  lemma {:induction false} DivDecompose(n: int, d: int)
    requires 0 <= n && 0 < d
    ensures n == d * (n / d) + n % d && 0 <= n % d < d && 0 <= n / d <= n
    ensures n < d ==> n / d == 0
    ensures n >= d ==> n / d >= 1
  {
    var q, r := n / d, n % d;
    assert n == d * q + r && 0 <= r < d;
    if q < 0 {
      MulLeRight(q, -1, d);
    }
    MulGrows(q, d);
    if n < d {
      DivModUnique(n, d, 0, n);
    }
  }

  /** The floor quotient brackets its dividend. */
  lemma {:induction false} DivBracket(t: int, v: int)
    requires 0 < v
    ensures (t / v) * v <= t < (t / v + 1) * v
  {
    assert t == v * (t / v) + t % v;
  }

  /** Multiplying by a factor of at least one does not decrease a non-negative number. */
  lemma {:induction false} MulGrows(a: int, k: int)
    requires 0 <= a && 1 <= k
    ensures a <= a * k
  {
    MulLeRight(1, k, a);
  }

  /** Exact division: a multiple of d divided by d. */
  lemma {:induction false} DivExact(d: int, n: int)
    requires 0 < d
    ensures (d * n) / d == n && (d * n) % d == 0
  {
    DivModUnique(d * n, d, n, 0);
  }

  /** A lower part below one place value cannot make up for a smaller digit at that place. */
  lemma {:induction false} PlaceOrder(ls: int, lt: int, p: int, a: int, b: int)
    requires 0 <= ls < p && 0 <= lt && a < b
    ensures ls + p * a < lt + p * b
  {
    MulLeRight(a + 1, b, p);
    assert (a + 1) * p == p * a + p && b * p == p * b;
  }

  /**
   * One step of schoolbook multiplication: a pending entry d <= 2B-2 plus a
   * digit product stays below B^2.
   */
  lemma {:induction false} DigitProductBound(B: int, d: int, a: int, b: int)
    requires 2 <= B && 0 <= d <= 2 * B - 2 && 0 <= a < B && 0 <= b < B
    ensures 0 <= d + a * b < B * B
  {
    var m := B - 1;
    MulNonNegative(a, b);
    MulLeRight(a, m, b);
    assert m * b == b * m;
    MulLeRight(b, m, m);
    assert m * m == B * B - 2 * B + 1;
  }

  /** A number below B^2 splits into a digit and a carry that is itself a digit. */
  lemma {:induction false} CarryDigit(B: int, t: int)
    requires 2 <= B && 0 <= t < B * B
    ensures 0 <= t / B < B && 0 <= t % B < B && t - t / B * B == t % B
  {
    DivDecompose(t, B);
    var q := t / B;
    assert q * B == B * q;
    if q >= B {
      MulLeRight(B, q, B);
    }
  }

  /** The place-value bookkeeping of one schoolbook step. */
  lemma {:induction false} RowStep(pi: int, pj: int, pij: int, a: int, v: int, b: int)
    requires pij == pi * pj
    ensures pi * (a * (v + pj * b)) == pi * (a * v) + pij * (a * b)
  {
    assert a * (v + pj * b) == a * v + pj * (a * b);
    assert pi * (a * v + pj * (a * b)) == pi * (a * v) + (pi * pj) * (a * b);
  }

  /** Adding one more row x_i·Y at place value P to the partial product. */
  lemma {:induction false} RowAccumulate(vx: int, p: int, a: int, y: int)
    ensures (vx + p * a) * y == vx * y + p * (a * y)
  {
  }

  /** Bookkeeping of the digit-wise scaling loop of mulDigit. */
  lemma {:induction false} ScaleStep(d: int, v: int, p: int, o: int)
    ensures (d - 1) * (v + p * o) == (d - 1) * v + p * (o * d - o)
  {
    assert (d - 1) * (p * o) == p * (o * d - o);
  }

  /**
   * One step of divDigit: the entry o plus the carried-in remainder times B,
   * divided by d, is again a digit, and the suffix equation is kept.
   */
  lemma {:induction false} DivDigitStep(B: int, d: int, o: int, r: int, t: int, qh: int)
    requires 2 <= B && 0 < d && 0 <= o < B && 0 <= r < d && t == o + B * r
    ensures 0 <= t / d < B && 0 <= t % d < d
    ensures o + B * (d * qh + r) == d * (t / d + B * qh) + t % d
  {
    DividendBelow(B, d, o, r);
    DivDecompose(t, d);
    var q, m := t / d, t % d;
    QuotientBelow(t, d, q, m, B);
    DivDigitRegroup(B, d, o, r, t, qh, q, m);
  }

  lemma {:induction false} DividendBelow(B: int, d: int, o: int, r: int)
    requires 0 <= o < B && 0 <= r < d
    ensures o + B * r < d * B
  {
    MulLeRight(r, d - 1, B);
    assert (d - 1) * B == d * B - B && B * r == r * B;
  }

  lemma {:induction false} QuotientBelow(t: int, d: int, q: int, m: int, B: int)
    requires 0 < d && 0 <= m && t == d * q + m && t < d * B
    ensures q < B
  {
    if q >= B {
      MulLeRight(B, q, d);
    }
  }

  lemma {:induction false} DivDigitRegroup(B: int, d: int, o: int, r: int, t: int, qh: int, q: int, m: int)
    requires t == o + B * r && t == d * q + m
    ensures o + B * (d * qh + r) == d * (q + B * qh) + m
  {
    assert B * (d * qh + r) == B * (d * qh) + B * r;
    assert d * (q + B * qh) == d * q + d * (B * qh);
    assert B * (d * qh) == d * (B * qh);
  }

  lemma {:induction false} MulSucc(d: int, y: int)
    ensures (d + 1) * y == d * y + y
  {
  }

  /** A count d of y's that fits, with a non-negative rest, below B·y is below B. */
  lemma {:induction false} CountBelow(w: int, d: int, y: int, B: int)
    requires 0 <= w && 0 < y && w + d * y < B * y
    ensures d < B
  {
    assert y * d < y * B;
    MulCancelLt(y, d, B);
  }

  /** A product of two non-negative numbers below bounds is below the product of the bounds. */
  lemma {:induction false} ProductBelow(a: int, pa: int, b: int, pb: int)
    requires 0 <= a < pa && 0 <= b < pb
    ensures 0 <= a * b < pa * pb
  {
    MulNonNegative(a, b);
    MulLeRight(a, pa, b);
    MulLtRight(b, pb, pa);
    assert b * pa == pa * b;
  }

  /** Adding an even number keeps the parity. */
  lemma {:induction false} ParityShift(a: int, m: int)
    ensures (a + 2 * m) % 2 == a % 2
  {
    DivModUnique(a + 2 * m, 2, a / 2 + m, a % 2);
  }

  /** With an odd place value p, the digit d contributes its own parity. */
  lemma {:induction false} OddFactorParity(v: int, p: int, d: int, s: int)
    requires p % 2 == 1 && v % 2 == s % 2
    ensures (v + p * d) % 2 == (s + d % 2) % 2
  {
    var k := v / 2 - s / 2 + (p / 2) * d + d / 2;
    assert v == 2 * (v / 2) + s % 2 && s == 2 * (s / 2) + s % 2;
    assert p * d == 2 * ((p / 2) * d) + d;
    assert d == 2 * (d / 2) + d % 2;
    assert v + p * d == (s + d % 2) + 2 * k;
    ParityShift(s + d % 2, k);
  }

  /**
   * Undoing a common scale factor f: if f·x = q·(f·y) + r with 0 <= r < f·y,
   * then r is f times the unscaled remainder x - q·y, which lies in [0, y).
   */
  lemma {:induction false} UnscaleRemainder(x: int, y: int, q: int, r: int, f: int)
    requires 0 < f && f * x == q * (f * y) + r && 0 <= r < f * y
    ensures r / f == x - q * y && 0 <= x - q * y < y
  {
    assert q * (f * y) == f * (q * y);
    assert r == f * (x - q * y);
    DivExact(f, x - q * y);
    MulCancelLe(f, 0, x - q * y);
    MulCancelLt(f, x - q * y, y);
  }

  /** A number below p·(t+1) doubled, with 2t+2 <= B, stays below p·B. */
  lemma {:induction false} DoubleBelow(lo: int, p: int, t: int, B: int)
    requires 0 <= lo < p && 0 <= t && 2 * t + 2 <= B
    ensures 2 * (lo + p * t) < p * B
  {
    MulLeRight(2 * t + 2, B, p);
    assert (2 * t + 2) * p == 2 * (p * t) + 2 * p;
  }

  /** Two numbers below p add up to less than p·B for any B >= 2. */
  lemma {:induction false} SumBelow(a: int, b: int, p: int, B: int)
    requires 0 <= a < p && 0 <= b < p && 2 <= B
    ensures a + b < p * B
  {
    MulLeRight(2, B, p);
  }

  /** Dividing a positive number by at least two makes it smaller. */
  lemma {:induction false} DivShrinks(n: int, d: int)
    requires 0 < n && 2 <= d
    ensures 0 <= n / d < n
  {
    DivDecompose(n, d);
    MulLeRight(2, d, n / d);
  }

  /** Doubling the factor of a positive product doubles the product. */
  lemma {:induction false} DoubleFactor(f: int, y: int)
    requires 1 <= f && 1 <= y
    ensures (f * 2) * y == 2 * (f * y) && 0 < f * y
  {
    MulGrows(f, y);
  }

  /** A factor f with f·y < B·top, where top <= y, is below B. */
  lemma {:induction false} FactorBelow(f: int, y: int, top: int, B: int)
    requires 1 <= top <= y && 0 <= f && f * y < B * top
    ensures f < B
  {
    MulLeRight(top, y, f);
    CountBelow(0, f, top, B);
  }

  lemma {:induction false} MulNeg(p: int, a: int)
    ensures p * -a == -(p * a)
  {
  }

  /** The arithmetic behind the bound on a window of a buffer. */
  lemma {:induction false} WindowArith(lo: int, p: int, hi: int, v: int, q: int)
    requires 0 <= lo && 0 < p && lo + p * hi + p * v < p * q
    ensures hi + v < q
  {
    assert p * hi + p * v == p * (hi + v);
    MulCancelLt(p, hi + v, q);
  }

  /** A top digit of at least B/2 at place value p makes the number at least B·p/2. */
  lemma {:induction false} HalfArith(lo: int, p: int, v: int, B: int)
    requires 0 <= lo && 1 <= p && 2 <= B && B <= 2 * v
    ensures 1 <= lo + p * v && B * p <= 2 * (lo + p * v)
  {
    MulLeRight(B, 2 * v, p);
    MulGrows(p, v);
  }

  /** Regrouping the current quotient digit of long division. */
  lemma {:induction false} RegroupArith(lo: int, p: int, hi: int, d: int, h: int, y: int, B: int)
    ensures lo + p * hi + p * (y * (d + B * h)) == lo + p * ((hi + d * y) + B * (y * h))
  {
    assert y * (d + B * h) == d * y + B * (y * h);
    assert p * (hi + (d * y + B * (y * h))) == p * hi + p * (d * y + B * (y * h));
  }

  /** A carry of c moves -c·B at place p and +c at place B·p. */
  lemma {:induction false} CarryArith(p: int, c: int, B: int)
    ensures p * -(c * B) + (B * p) * c == 0
  {
    assert p * (c * B) == (B * p) * c;
  }

  /** A digit plus B times a number below p is below B·p. */
  lemma {:induction false} BoundsArith(d: int, v: int, p: int, B: int)
    requires 0 <= d < B && 0 <= v < p
    ensures 0 <= d + B * v < B * p
  {
    MulLeRight(v, p - 1, B);
    MulNonNegative(v, B);
  }

  /** The regrouping behind the value of a concatenation. */
  lemma {:induction false} ConcatArith(d: int, B: int, vu: int, p: int, vt: int)
    ensures d + B * (vu + p * vt) == (d + B * vu) + (B * p) * vt
  {
    assert B * (vu + p * vt) == B * vu + B * (p * vt);
    assert B * (p * vt) == (B * p) * vt;
  }

  /** A digit and a window below y, one place up, stay below B·y. */
  lemma {:induction false} NextWindowArith(d: int, w: int, yv: int, B: int)
    requires 0 <= d < B && w < yv
    ensures d + B * w < B * yv
  {
    MulLeRight(w, yv - 1, B);
    assert (yv - 1) * B == B * yv - B && w * B == B * w;
  }

  /** Below B·y with y below p is below B·p. */
  lemma {:induction false} WindowBelowArith(v: int, yv: int, p: int, B: int)
    requires 0 < B && v < B * yv && yv < p
    ensures v < B * p
  {
    MulLtRight(yv, p, B);
    assert yv * B == B * yv && p * B == B * p;
  }
}
