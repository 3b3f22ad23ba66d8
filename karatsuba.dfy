/**
 * KARATSUBA multiplication of two equal-length digit buffers: three products
 * of half length instead of four, recombined with shifts by B^h and B^2h.
 */
module Karatsuba {
  import opened Arith
  import opened Digits
  import opened Addition
  import opened Subtraction
  import opened Multiplication

  /**
   * fastMulArray: dest = x * y for |x| == |y| == len, with dest of 2·len
   * entries, all zero on entry (the routine adds its partial products into it).
   * Operands of fewer than four digits go to mulArray; longer ones are split at
   * h = ceil(len/2) into low and zero-padded high halves of h digits each.
   */
  method FastMulArray(B: Radix, dest: array<int>, x: seq<int>, y: seq<int>)
    requires 1 <= |x| == |y| && dest.Length == 2 * |x|
    requires IsDigits(x, B) && IsDigits(y, B)
    requires forall k :: 0 <= k < dest.Length ==> dest[k] == 0
    modifies dest
    ensures IsDigits(dest[..], B)
    ensures Value(dest[..], B) == Value(x, B) * Value(y, B)
    decreases |x|, 0
  {
    var len := |x|;
    if len < 4 {
      MulArray(B, dest, x, y);
      return;
    }
    var h := (len + 1) / 2;
    var xl, xh := x[..h], x[h..] + Zeros(2 * h - len);
    var yl, yh := y[..h], y[h..] + Zeros(2 * h - len);
    SplitHalves(x, h, B);
    SplitHalves(y, h, B);
    var a, d, e := ThreeProducts(B, xl, xh, yl, yh);
    PowerAdd(B, h, h);
    ProductFits(x, y, B);
    KaratsubaIdentity(Value(xl, B), Value(xh, B), Value(yl, B), Value(yh, B), Power(B, h));
    Combine(B, dest, d, e, a, h);
  }

  /**
   * The three half-length products of fastMulArray: a = xh·yh, d = xl·yl and the
   * middle term e = (xl + xh)(yl + yh) - a - d, i.e. xl·yh + xh·yl.
   */
  method ThreeProducts(B: Radix, xl: seq<int>, xh: seq<int>, yl: seq<int>, yh: seq<int>)
    returns (a: seq<int>, d: seq<int>, e: seq<int>)
    requires 1 <= |xl| == |xh| == |yl| == |yh|
    requires IsDigits(xl, B) && IsDigits(xh, B) && IsDigits(yl, B) && IsDigits(yh, B)
    ensures |a| == 2 * |xl| && |d| == 2 * |xl| && |e| == 2 * |xl| + 2
    ensures IsDigits(a, B) && IsDigits(d, B) && IsDigits(e, B)
    ensures Value(a, B) == Value(xh, B) * Value(yh, B)
    ensures Value(d, B) == Value(xl, B) * Value(yl, B)
    ensures Value(e, B) == Value(xl, B) * Value(yh, B) + Value(xh, B) * Value(yl, B)
    decreases |xl| + 1, 2
  {
    a := Product(B, xh, yh);
    d := Product(B, xl, yl);
    var sx := HalfSum(B, xl, xh);
    var sy := HalfSum(B, yl, yh);
    var m := Product(B, sx, sy);
    ValueBounds(xl, B);
    ValueBounds(xh, B);
    ValueBounds(yl, B);
    ValueBounds(yh, B);
    MiddleBounds(Value(xl, B), Value(xh, B), Value(yl, B), Value(yh, B));
    e := SubtractBoth(B, m, a, d);
  }

  /** A product of two equal-length operands in a fresh zeroed buffer of twice their length. */
  method Product(B: Radix, x: seq<int>, y: seq<int>) returns (p: seq<int>)
    requires 1 <= |x| == |y| && IsDigits(x, B) && IsDigits(y, B)
    ensures |p| == 2 * |x| && IsDigits(p, B)
    ensures Value(p, B) == Value(x, B) * Value(y, B)
    decreases |x|, 1
  {
    var buf := new int[2 * |x|](_ => 0);
    FastMulArray(B, buf, x, y);
    p := buf[..];
  }

  /** The two subArray calls of the middle term: m - a - d, in place in a copy of m. */
  method SubtractBoth(B: Radix, m: seq<int>, a: seq<int>, d: seq<int>) returns (e: seq<int>)
    requires 1 <= |m| && |a| <= |m| && |d| <= |m|
    requires IsDigits(m, B) && IsDigits(a, B) && IsDigits(d, B)
    requires Value(a, B) <= Value(m, B) && Value(d, B) <= Value(m, B) - Value(a, B)
    ensures |e| == |m| && IsDigits(e, B)
    ensures Value(e, B) == Value(m, B) - Value(a, B) - Value(d, B)
  {
    var buf := new int[|m|](k requires 0 <= k < |m| => m[k]);
    assert buf[..] == m;
    assert buf[0..] == buf[..];
    SubArray(B, buf, 0, a);
    assert buf[0..] == buf[..];
    SubArray(B, buf, 0, d);
    assert buf[0..] == buf[..];
    e := buf[..];
  }

  /**
   * Splitting at h, with the high half zero-padded to h digits: both halves are
   * digit sequences of length h and x = low + B^h·high.
   */
  lemma {:induction false} SplitHalves(x: seq<int>, h: nat, B: Radix)
    requires IsDigits(x, B) && h <= |x| <= 2 * h
    ensures |x[h..] + Zeros(2 * h - |x|)| == h
    ensures IsDigits(x[..h], B) && IsDigits(x[h..] + Zeros(2 * h - |x|), B)
    ensures Value(x, B) == Value(x[..h], B) + Power(B, h) * Value(x[h..] + Zeros(2 * h - |x|), B)
  {
    ValueSplit(x, h, B);
    ValueExtend(x[h..], 2 * h - |x|, B);
    assert IsDigits(x[h..], B);
    DigitsExtend(x[h..], 2 * h - |x|, B);
  }

  /** x_low + x_high in h + 1 digits, the top one holding the carry. */
  method HalfSum(B: Radix, lo: seq<int>, hi: seq<int>) returns (s: seq<int>)
    requires |lo| == |hi| && IsDigits(lo, B) && IsDigits(hi, B)
    ensures |s| == |lo| + 1 && IsDigits(s, B)
    ensures Value(s, B) == Value(lo, B) + Value(hi, B)
  {
    var buf := new int[|lo| + 1](k => if 0 <= k < |lo| then lo[k] else 0);
    assert buf[..] == lo + Zeros(1);
    ValueExtend(lo, 1, B);
    DigitsExtend(lo, 1, B);
    SumFits(lo, hi, B);
    assert buf[0..] == buf[..];
    AddArray(B, buf, 0, hi);
    return buf[..];
  }

  /** Two h-digit numbers sum to less than B^(h+1). */
  lemma {:induction false} SumFits(lo: seq<int>, hi: seq<int>, B: Radix)
    requires |lo| == |hi| && IsDigits(lo, B) && IsDigits(hi, B)
    ensures Value(lo, B) + Value(hi, B) < Power(B, |lo| + 1)
  {
    ValueBounds(lo, B);
    ValueBounds(hi, B);
    assert Power(B, |lo| + 1) == B * Power(B, |lo|);
    MulLeRight(2, B, Power(B, |lo|));
  }

  /** A product of two len-digit numbers has at most 2·len digits. */
  lemma {:induction false} ProductFits(x: seq<int>, y: seq<int>, B: Radix)
    requires IsDigits(x, B) && IsDigits(y, B)
    ensures 0 <= Value(x, B) * Value(y, B) < Power(B, |x| + |y|)
  {
    ValueBounds(x, B);
    ValueBounds(y, B);
    PowerAdd(B, |x|, |y|);
    ProductBelow(Value(x, B), Power(B, |x|), Value(y, B), Power(B, |y|));
  }

  /**
   * The middle term (xl + xh)(yl + yh) - xh·yh - xl·yl is reached by two
   * subtractions that never go negative.
   */
  lemma {:induction false} MiddleBounds(xl: int, xh: int, yl: int, yh: int)
    requires 0 <= xl && 0 <= xh && 0 <= yl && 0 <= yh
    ensures xh * yh <= (xl + xh) * (yl + yh)
    ensures xl * yl <= (xl + xh) * (yl + yh) - xh * yh
    ensures (xl + xh) * (yl + yh) - xh * yh - xl * yl == xl * yh + xh * yl
    ensures 0 <= xl * yl && 0 <= xh * yh && 0 <= xl * yh + xh * yl
  {
    assert (xl + xh) * (yl + yh) == xl * yl + xl * yh + xh * yl + xh * yh;
    MulNonNegative(xl, yl);
    MulNonNegative(xl, yh);
    MulNonNegative(xh, yl);
    MulNonNegative(xh, yh);
  }

  /** Karatsuba's identity, with p = B^h: the product from the low, middle and high terms. */
  lemma {:induction false} KaratsubaIdentity(xl: int, xh: int, yl: int, yh: int, p: int)
    ensures (xl + p * xh) * (yl + p * yh) == xl * yl + p * (xl * yh + xh * yl) + (p * p) * (xh * yh)
  {
    assert (xl + p * xh) * (yl + p * yh) == xl * yl + p * (xl * yh) + p * (xh * yl) + (p * p) * (xh * yh);
    assert p * (xl * yh + xh * yl) == p * (xl * yh) + p * (xh * yl);
  }

  /**
   * The final additions of fastMulArray: dest += d, dest += e·B^h and
   * dest += a·B^2h. Only the prefixes of e and a that fit in dest are added, and
   * they carry the whole values because the complete sum fits.
   */
  method Combine(B: Radix, dest: array<int>, d: seq<int>, e: seq<int>, a: seq<int>, h: nat)
    requires 1 <= h && |d| == 2 * h && |a| == 2 * h && |e| == 2 * h + 2
    requires 2 * h < dest.Length <= 4 * h
    requires IsDigits(d, B) && IsDigits(e, B) && IsDigits(a, B)
    requires forall k :: 0 <= k < dest.Length ==> dest[k] == 0
    requires Value(d, B) + Power(B, h) * Value(e, B) + Power(B, 2 * h) * Value(a, B) < Power(B, dest.Length)
    modifies dest
    ensures IsDigits(dest[..], B)
    ensures Value(dest[..], B) == Value(d, B) + Power(B, h) * Value(e, B) + Power(B, 2 * h) * Value(a, B)
  {
    ghost var n := dest.Length;
    ghost var vd, ve, va := Value(d, B), Value(e, B), Value(a, B);
    ValueBounds(d, B);
    ValueBounds(e, B);
    ValueBounds(a, B);
    PowerPositive(B, h);
    PowerPositive(B, 2 * h);
    CombineBounds(vd, ve, va, Power(B, h), Power(B, 2 * h), Power(B, n), B, h, n);
    assert dest[..] == Zeros(n);
    ValueZeros(n, B);
    assert Power(B, 0) == 1;
    AddShifted(B, dest, d, 0);
    AddShifted(B, dest, e, h);
    AddShifted(B, dest, a, 2 * h);
  }

  /**
   * dest += s·B^off through addArray, adding only the prefix of s that fits
   * in dest; it carries the whole value of s because the sum fits.
   */
  method AddShifted(B: Radix, dest: array<int>, s: seq<int>, off: nat)
    requires off < dest.Length && IsDigits(dest[..], B) && IsDigits(s, B)
    requires Value(dest[..], B) + Power(B, off) * Value(s, B) < Power(B, dest.Length)
    modifies dest
    ensures IsDigits(dest[..], B)
    ensures Value(dest[..], B) == old(Value(dest[..], B)) + Power(B, off) * Value(s, B)
  {
    ghost var n := dest.Length;
    var k := if |s| < dest.Length - off then |s| else dest.Length - off;
    ValueBounds(dest[..], B);
    PrefixCarries(s, k, off, n, B);
    WindowFit(dest[..], off, Value(s, B), B);
    assert IsDigits(dest[off..], B) by {
      assert forall i :: 0 <= i < n - off ==> dest[off..][i] == dest[..][off + i];
    }
    AddArray(B, dest, off, s[..k]);
    assert IsDigits(dest[..off], B);
    DigitsJoin(dest[..], off, B);
  }

  /** Each term of the recombination, shifted into place, stays below B^n. */
  lemma {:induction false} CombineBounds(vd: int, ve: int, va: int, ph: int, p2h: int, pn: int, B: int, h: nat, n: nat)
    requires 0 <= vd && 0 <= ve && 0 <= va && 1 <= ph && 1 <= p2h
    requires vd + ph * ve + p2h * va < pn
    ensures vd < pn && vd + ph * ve < pn && ph * ve < pn && p2h * va < pn
  {
    MulNonNegative(ph, ve);
    MulNonNegative(p2h, va);
  }

  /**
   * A digit sequence s whose value shifted by B^off is below B^n equals its
   * prefix of k = min(|s|, n - off) digits.
   */
  lemma {:induction false} PrefixCarries(s: seq<int>, k: nat, off: nat, n: nat, B: Radix)
    requires IsDigits(s, B) && off < n && k == (if |s| < n - off then |s| else n - off)
    requires Power(B, off) * Value(s, B) < Power(B, n)
    ensures k <= |s| && IsDigits(s[..k], B) && Value(s[..k], B) == Value(s, B)
  {
    if k == |s| {
      assert s[..k] == s;
    } else {
      PowerAdd(B, off, n - off);
      PowerPositive(B, off);
      MulCancelLt(Power(B, off), Value(s, B), Power(B, n - off));
      ValueTruncate(s, k, B);
    }
  }

  /**
   * Room in a window: if adding v at place value B^off keeps the whole buffer
   * below B^|s|, the window s[off..] plus v stays below B^(|s|-off).
   */
  lemma {:induction false} WindowFit(s: seq<int>, off: nat, v: int, B: Radix)
    requires IsDigits(s, B) && off <= |s| && Value(s, B) + Power(B, off) * v < Power(B, |s|)
    ensures Value(s[off..], B) + v < Power(B, |s| - off)
  {
    ValueSplit(s, off, B);
    assert IsDigits(s[..off], B);
    ValueBounds(s[..off], B);
    PowerAdd(B, off, |s| - off);
    PowerPositive(B, off);
    WindowArith(Value(s[..off], B), Power(B, off), Value(s[off..], B), v, Power(B, |s| - off));
  }

  /**
   * On the same operands the divide-and-conquer product and the schoolbook
   * product of mulArray are the same digit sequence.
   */
  method FastMulMatchesMulArray(B: Radix, x: seq<int>, y: seq<int>) returns (fast: seq<int>, school: seq<int>)
    requires 1 <= |x| == |y| && IsDigits(x, B) && IsDigits(y, B)
    ensures fast == school && |fast| == 2 * |x|
    ensures IsDigits(fast, B) && Value(fast, B) == Value(x, B) * Value(y, B)
  {
    fast := Product(B, x, y);
    var buf := new int[2 * |x|];
    MulArray(B, buf, x, y);
    school := buf[..];
    DigitsUnique(fast, school, B);
  }
}
