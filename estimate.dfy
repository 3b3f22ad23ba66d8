/**
 * The quotient-digit estimate of divremArray: from the top two digits of the
 * current remainder window and the top digit of a divisor whose top digit is
 * at least B/2, `(w1 + B*w2) / y_top - 2` never exceeds the true quotient digit.
 */
module Estimate {
  import opened Arith
  import opened Digits

  /** With 2v >= B, the two-digit trial quotient t / v is at most 2v + 2. */
  lemma {:induction false} TrialQuotientBound(B: int, v: int, t: int)
    requires 2 <= B <= 2 * v && 0 <= t < B * (v + 1)
    ensures t / v <= 2 * v + 2
  {
    DivBracket(t, v);
    var q := t / v;
    MulLeRight(B, 2 * v, v + 1);
    assert v * q < v * (2 * v + 2);
    MulCancelLt(v, q, 2 * v + 2);
  }

  /** Subtracting two from a trial quotient of at most 2v + 2 compensates for v + 1 versus v. */
  lemma {:induction false} AdjustedQuotient(v: int, t: int)
    requires 1 <= v && 0 <= t && t / v <= 2 * v + 2
    ensures (t / v - 2) * (v + 1) <= t
  {
    DivBracket(t, v);
    var q := t / v;
    assert (q - 2) * (v + 1) == q * v + q - 2 * v - 2;
  }

  /** The top two digits of a window below B·Y, read as one number t, are below B·(v+1). */
  lemma {:induction false} WindowTop(B: int, v: int, p: int, y: int, t: int, w: int)
    requires 2 <= B && 1 <= p && 0 <= t && p * t <= w && w < B * y && y < p * (v + 1)
    ensures t < B * (v + 1)
  {
    MulLtRight(y, p * (v + 1), B);
    assert (p * (v + 1)) * B == p * (B * (v + 1));
    MulCancelLt(p, t, B * (v + 1));
  }

  /** A positive estimate qe with qe·(v+1) <= t covers at most w, since Y < P·(v+1) and P·t <= W. */
  lemma {:induction false} EstimateCovered(qe: int, v: int, p: int, y: int, t: int, w: int)
    requires 0 < qe && 1 <= p && y < p * (v + 1) && qe * (v + 1) <= t && p * t <= w
    ensures qe * y <= w
  {
    MulLeRight(y, p * (v + 1), qe);
    assert y * qe == qe * y;
    assert (p * (v + 1)) * qe == p * (qe * (v + 1));
    MulLeRight(qe * (v + 1), t, p);
    assert (qe * (v + 1)) * p == p * (qe * (v + 1)) && t * p == p * t;
  }

  /**
   * The arithmetic core: the divisor is Y = lowY + P*v with lowY < P, the window is
   * W = lowW + P*t with lowW >= 0, and W < B*Y.
   */
  lemma {:induction false} EstimateArith(B: int, v: int, p: int, lowY: int, y: int, t: int, lowW: int, w: int)
    requires 2 <= B <= 2 * v && v < B && 1 <= p
    requires 0 <= lowY < p && y == lowY + p * v
    requires 0 <= lowW && 0 <= t && w == lowW + p * t
    requires w < B * y
    ensures (t / v - 2) * y <= w
  {
    assert y < p * (v + 1);
    WindowTop(B, v, p, y, t, w);
    TrialQuotientBound(B, v, t);
    AdjustedQuotient(v, t);
    var qe := t / v - 2;
    if qe > 0 {
      EstimateCovered(qe, v, p, y, t, w);
    } else {
      MulLeRight(qe, 0, y);
    }
  }

  /** A digit sequence is its lower part plus its top digit at place value B^(n-1). */
  lemma {:induction false} TopDigitSplit(s: seq<int>, B: Radix)
    requires 1 <= |s| && IsDigits(s, B)
    ensures Value(s, B) == Value(s[..|s| - 1], B) + Power(B, |s| - 1) * s[|s| - 1]
    ensures 0 <= Value(s[..|s| - 1], B) < Power(B, |s| - 1)
  {
    var m := |s|;
    ValueSplit(s, m - 1, B);
    assert s[m - 1..] == [s[m - 1]];
    ValueSingle(s[m - 1], B);
    assert IsDigits(s[..m - 1], B);
    ValueBounds(s[..m - 1], B);
  }

  /** A digit sequence of at least two entries is its lower part plus its top two digits at B^(n-2). */
  lemma {:induction false} TopTwoSplit(s: seq<int>, B: Radix)
    requires 2 <= |s| && IsDigits(s, B)
    ensures Value(s, B) == Value(s[..|s| - 2], B) + Power(B, |s| - 2) * (s[|s| - 2] + B * s[|s| - 1])
    ensures 0 <= Value(s[..|s| - 2], B)
  {
    var m := |s|;
    ValueSplit(s, m - 2, B);
    assert s[m - 2..] == [s[m - 2], s[m - 1]];
    assert s[m - 2..][1..] == [s[m - 1]];
    ValueSingle(s[m - 1], B);
    assert IsDigits(s[..m - 2], B);
    ValueBounds(s[..m - 2], B);
  }

  /**
   * The estimate on digit sequences: w is the (|y|+1)-digit remainder window,
   * below B times the divisor y, whose top digit is at least B/2.
   */
  lemma {:induction false} QuotientEstimate(w: seq<int>, y: seq<int>, B: Radix)
    requires 1 <= |y| && |w| == |y| + 1 && IsDigits(w, B) && IsDigits(y, B)
    requires B <= 2 * y[|y| - 1]
    requires Value(w, B) < B * Value(y, B)
    ensures ((w[|y| - 1] + B * w[|y|]) / y[|y| - 1] - 2) * Value(y, B) <= Value(w, B)
  {
    var m := |y|;
    TopDigitSplit(y, B);
    TopTwoSplit(w, B);
    PowerPositive(B, m - 1);
    EstimateArith(B, y[m - 1], Power(B, m - 1), Value(y[..m - 1], B), Value(y, B),
      w[m - 1] + B * w[m], Value(w[..m - 1], B), Value(w, B));
  }

  /** A divisor whose top digit is at least B/2 is positive and at least half of B^|y|. */
  lemma {:induction false} DivisorHalf(y: seq<int>, B: Radix)
    requires 1 <= |y| && IsDigits(y, B) && B <= 2 * y[|y| - 1]
    ensures 1 <= Value(y, B) && Power(B, |y|) <= 2 * Value(y, B)
  {
    var m := |y|;
    TopDigitSplit(y, B);
    PowerPositive(B, m - 1);
    assert Power(B, m) == B * Power(B, m - 1);
    HalfArith(Value(y[..m - 1], B), Power(B, m - 1), y[m - 1], B);
  }
}
