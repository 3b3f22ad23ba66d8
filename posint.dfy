/**
 * POSINT: the arbitrary-precision non-negative integer object. Its digits
 * are a sequence field that the operations reassign; the array kernels run
 * on array copies of it.
 */
module PosInts {
  import opened Arith
  import opened Digits
  import opened Parity
  import opened Comparison
  import opened Addition
  import opened Subtraction
  import opened Multiplication
  import opened Karatsuba
  import opened Division
  import opened GcdSpec

  /** The error conditions that PosInt signals by throwing. */
  datatype MPError = NegativeValue | NegativeDifference | DivideByZero | SameQuotientRemainder

  /** What an operation that can throw ended with. */
  datatype Outcome = Pass | Fail(error: MPError)

  /** A fresh array holding the given digits (the digits vector's buffer). */
  method ToArray(s: seq<int>) returns (a: array<int>)
    ensures fresh(a) && a[..] == s
  {
    a := new int[|s|](k => if 0 <= k < |s| then s[k] else 0);
  }

  /** mulDigit over a whole buffer whose product still fits in it. */
  method ScaleInPlace(B: Radix, a: array<int>, d: int)
    requires 1 <= a.Length && IsDigits(a[..], B) && 0 <= d
    requires Value(a[..], B) * d < Power(B, a.Length)
    modifies a
    ensures IsDigits(a[..], B) && Value(a[..], B) == old(Value(a[..], B)) * d
  {
    assert a[..a.Length] == a[..] && a[a.Length..] == [];
    MulDigit(B, a, d, a.Length);
  }

  /**
   * The padded length fastMul hands to fastMulArray: 2 doubled length/2
   * times. It always exceeds length.
   */
  method PaddedLength(length: nat) returns (n: nat)
    ensures n == 2 * Power(2, length / 2) && length < n
  {
    n := 2;
    var i := 0;
    while i < length / 2
      invariant 0 <= i <= length / 2 && n == 2 * Power(2, i)
    {
      n := n * 2;
      i := i + 1;
    }
    PowerTwoExceeds(length / 2);
  }

  lemma {:induction false} PowerTwoExceeds(k: nat)
    ensures k < Power(2, k)
  {
    if k > 0 {
      PowerTwoExceeds(k - 1);
    }
  }

  /**
   * The buffer sizes of fastMul as written: it allocates 2·length entries
   * for the product, but fastMulArray on operands of the padded length
   * writes 2·padded entries, which is always more.
   */
  method FastMulBuffers(length: nat) returns (reserved: nat, written: nat)
    ensures reserved == 2 * length && written == 2 * (2 * Power(2, length / 2))
    ensures reserved < written
    ensures length == 1 ==> reserved == 2 && written == 4
  {
    reserved := length * 2;
    var digitLength := PaddedLength(length);
    written := 2 * digitLength;
  }

  /**
   * In an even radix, a top digit below B/2 leaves room for doubling the
   * whole number without a new digit.
   */
  lemma {:induction false} DoublingFits(s: seq<int>, B: Radix)
    requires B % 2 == 0 && IsDigits(s, B) && 1 <= |s| && 2 * s[|s| - 1] < B
    ensures 2 * Value(s, B) < Power(B, |s|)
  {
    var n := |s| - 1;
    ValueSplit(s, n, B);
    ValueBounds(s[..n], B);
    assert s[n..] == [s[n]];
    ValueSingle(s[n], B);
    var lo, p, t := Value(s[..n], B), Power(B, n), s[n];
    assert B == 2 * (B / 2);
    DoubleBelow(lo, p, t, B);
    assert Power(B, n + 1) == B * p;
  }

  /**
   * In an odd radix the same guard lets doubling overflow: y = [B-1, (B-1)/2]
   * is normalized, its top digit doubled is below B, yet 2·y needs |y|+1 digits.
   */
  lemma {:induction false} OddRadixDoublingOverflows(B: Radix)
    requires B % 2 == 1
    ensures IsDigits([B - 1, (B - 1) / 2], B) && (B - 1) / 2 != 0
    ensures 2 * ((B - 1) / 2) < B
    ensures Power(B, 2) <= 2 * Value([B - 1, (B - 1) / 2], B)
  {
    var h := (B - 1) / 2;
    assert B - 1 == 2 * h;
    assert [B - 1, h][1..] == [h];
    ValueSingle(h, B);
    assert Value([B - 1, h], B) == B - 1 + B * h;
    assert Power(B, 2) == B * B by {
      assert Power(B, 1) == B;
    }
    assert 2 * (B - 1 + B * h) == B * B + B - 2;
  }

  /**
   * divrem's normalisation of a divisor whose top digit is below B/2:
   * double it until the top digit is at least B/2, counting the factor.
   */
  method NormalizeDivisor(B: Radix, ys: seq<int>) returns (sy: seq<int>, fac: int)
    requires B % 2 == 0 && IsDigits(ys, B) && 1 <= |ys|
    requires 0 < ys[|ys| - 1] && 2 * ys[|ys| - 1] < B
    ensures |sy| == |ys| && IsDigits(sy, B)
    ensures Value(sy, B) == fac * Value(ys, B)
    ensures 2 <= fac < B && B <= 2 * sy[|sy| - 1]
  {
    ghost var y, top := Value(ys, B), Power(B, |ys| - 1);
    NormalizedLowerBound(ys, B);
    PowerPositive(B, |ys| - 1);
    var scaley := ToArray(ys);
    DoublingFits(scaley[..], B);
    ScaleInPlace(B, scaley, 2);
    fac := 2;
    while 2 * scaley[scaley.Length - 1] < B
      invariant scaley.Length == |ys| && IsDigits(scaley[..], B)
      invariant Value(scaley[..], B) == fac * y && 2 <= fac
      decreases Power(B, |ys|) - Value(scaley[..], B)
    {
      ValueBounds(scaley[..], B);
      DoublingFits(scaley[..], B);
      DoubleFactor(fac, y);
      ScaleInPlace(B, scaley, 2);
      fac := fac * 2;
    }
    sy := scaley[..];
    ValueBounds(sy, B);
    assert Power(B, |ys|) == B * top;
    FactorBelow(fac, y, top, B);
  }

  /** divrem's scaling of the dividend: x followed by one zero digit, times fac. */
  method ScaleDividend(B: Radix, xs: seq<int>, fac: int) returns (sx: seq<int>)
    requires IsDigits(xs, B) && 0 <= fac < B
    ensures |sx| == |xs| + 1 && IsDigits(sx, B)
    ensures Value(sx, B) == fac * Value(xs, B)
  {
    var scalex := ToArray(xs + Zeros(1));
    DigitsExtend(xs, 1, B);
    ValueExtend(xs, 1, B);
    ValueBounds(xs, B);
    ProductBelow(Value(xs, B), Power(B, |xs|), fac, B);
    assert Power(B, |xs| + 1) == B * Power(B, |xs|);
    ScaleInPlace(B, scalex, fac);
    sx := scalex[..];
  }

  /**
   * divrem's scaling branch: divide fac·x by the normalized fac·y with
   * divremArray, then divide the remainder back by fac.
   */
  method ScaledDivide(B: Radix, xs: seq<int>, ys: seq<int>) returns (qs: seq<int>, rs: seq<int>)
    requires B % 2 == 0 && IsDigits(xs, B) && IsDigits(ys, B) && 1 <= |ys| <= |xs|
    requires 0 < ys[|ys| - 1] && 2 * ys[|ys| - 1] < B
    ensures IsDigits(qs, B) && IsDigits(rs, B)
    ensures Value(xs, B) == Value(qs, B) * Value(ys, B) + Value(rs, B)
    ensures 0 <= Value(rs, B) < Value(ys, B)
  {
    ghost var x, y := Value(xs, B), Value(ys, B);
    var sy, fac := NormalizeDivisor(B, ys);
    var sx := ScaleDividend(B, xs, fac);
    var qa := new int[|sx| - |sy| + 1];
    var ra := new int[|sx|];
    DivremArray(B, qa, ra, sx, sy);
    ghost var q0, r0 := Value(qa[..], B), Value(ra[..], B);
    ValueBounds(ra[..], B);
    var rem := DivDigit(B, ra, fac);
    qs, rs := qa[..], ra[..];
    assert fac * x == q0 * (fac * y) + r0;
    UnscaleRemainder(x, y, q0, r0, fac);
  }

  /** divrem's direct branch: the divisor's top digit is already at least B/2. */
  method DirectDivide(B: Radix, xs: seq<int>, ys: seq<int>) returns (qs: seq<int>, rs: seq<int>)
    requires IsDigits(xs, B) && IsDigits(ys, B) && 1 <= |ys| <= |xs| && B <= 2 * ys[|ys| - 1]
    ensures IsDigits(qs, B) && IsDigits(rs, B)
    ensures Value(xs, B) == Value(qs, B) * Value(ys, B) + Value(rs, B)
    ensures 0 <= Value(rs, B) < Value(ys, B)
  {
    var qa := new int[|xs| - |ys| + 1];
    var ra := new int[|xs|];
    DivremArray(B, qa, ra, xs, ys);
    qs, rs := qa[..], ra[..];
    ValueBounds(rs, B);
  }

  /** divrem's single-digit branch: divDigit on a copy of x. */
  method SingleDigitDivide(B: Radix, xs: seq<int>, d: int) returns (qs: seq<int>, rem: int)
    requires IsDigits(xs, B) && 0 < d
    ensures IsDigits(qs, B) && Value(qs, B) == Value(xs, B) / d && rem == Value(xs, B) % d
  {
    var qa := ToArray(xs);
    rem := DivDigit(B, qa, d);
    qs := qa[..];
  }

  class PosInt {
    /** The radix, fixed for the lifetime of the value. */
    const B: Radix
    /** The digits, least significant first. */
    var digits: seq<int>

    /** Every digit lies in [0, B) and there is no most-significant zero. */
    ghost predicate Valid()
      reads this
    {
      IsDigits(digits, B) && Normalized(digits)
    }

    /** The number the digits stand for. */
    ghost function Val(): nat
      reads this
      requires Valid()
    {
      ValueBounds(digits, B);
      Value(digits, B)
    }

    /** The default constructor: zero, which has no digits. */
    constructor (B: Radix)
      ensures this.B == B && digits == [] && Valid()
    {
      this.B := B;
      digits := [];
    }

    /** Construction from a native integer, through set(int). */
    constructor FromInt(B: Radix, x: nat)
      ensures this.B == B && Valid() && Val() == x && digits == ToDigits(x, B)
    {
      this.B := B;
      digits := [];
      new;
      var status := SetInt(x);
    }

    /** The copy constructor. */
    constructor Copy(x: PosInt)
      ensures B == x.B && digits == x.digits
    {
      B := x.B;
      digits := x.digits;
    }

    /**
     * set(int): clear the digits, fail on a negative argument, otherwise push
     * x mod B and divide x by B until x is zero.
     */
    method SetInt(x: int) returns (status: Outcome)
      modifies this
      ensures status == Fail(NegativeValue) <==> x < 0
      ensures status == Pass <==> 0 <= x
      ensures x < 0 ==> digits == []
      ensures 0 <= x ==> digits == ToDigits(x, B) && Valid() && Val() == x
    {
      digits := [];
      if x < 0 {
        return Fail(NegativeValue);
      }
      var n := x;
      while n > 0
        invariant 0 <= n && digits + ToDigits(n, B) == ToDigits(x, B)
      {
        DivShrinks(n, B);
        ghost var rest := ToDigits(n / B, B);
        assert ToDigits(n, B) == [n % B] + rest;
        assert digits + ([n % B] + rest) == (digits + [n % B]) + rest;
        digits := digits + [n % B];
        n := n / B;
      }
      ToDigitsCorrect(x, B);
      status := Pass;
    }

    /** set(PosInt): copy the digits of rhs unless rhs is this object. */
    method Assign(rhs: PosInt)
      requires rhs.B == B
      modifies this
      ensures digits == old(rhs.digits)
    {
      if this != rhs {
        digits := rhs.digits;
      }
    }

    /** convert: the weighted sum of the digits (native int overflow is not modelled). */
    method Convert() returns (val: int)
      requires Valid()
      ensures val == Val()
    {
      val := 0;
      var pow := 1;
      var i := 0;
      while i < |digits|
        invariant 0 <= i <= |digits|
        invariant val == Value(digits[..i], B) && pow == Power(B, i)
      {
        ValuePrefixStep(digits, i, B);
        val := val + pow * digits[i];
        pow := pow * B;
        i := i + 1;
      }
      assert digits[..i] == digits;
    }

    /** normalize: drop the most-significant zero digits. */
    method Normalize()
      modifies this
      ensures digits == StripZeros(old(digits))
      ensures Normalized(digits) && Value(digits, B) == old(Value(digits, B))
      ensures old(IsDigits(digits, B)) ==> Valid()
    {
      ghost var s := digits;
      var i := |digits| - 1;
      assert digits[..i + 1] == s;
      while i >= 0 && digits[i] == 0
        invariant -1 <= i < |digits| && digits == s
        invariant StripZeros(digits[..i + 1]) == StripZeros(s)
      {
        assert digits[..i + 1][..i] == digits[..i];
        i := i - 1;
      }
      if i + 1 < |digits| {
        digits := digits[..i + 1];
      }
      assert digits == s[..i + 1];
      NormalizedFixpoint(digits);
      StripZerosValue(s, B);
      if IsDigits(s, B) {
        StripZerosDigits(s, B);
      }
    }

    /**
     * isEven: in an even radix the lowest digit decides; in an odd radix the
     * parity of the digit sum does.
     */
    method IsEven() returns (even: bool)
      requires Valid()
      ensures even <==> Val() % 2 == 0
    {
      if B % 2 == 0 {
        if |digits| > 0 {
          EvenRadixParity(digits, B);
        }
        return |digits| == 0 || digits[0] % 2 == 0;
      }
      var sum := 0;
      var i := 0;
      while i < |digits|
        invariant 0 <= i <= |digits| && sum == DigitParitySum(digits[..i])
      {
        assert digits[..i + 1][..i] == digits[..i];
        sum := sum + digits[i] % 2;
        i := i + 1;
      }
      assert digits[..i] == digits;
      OddRadixParity(digits, B);
      even := sum % 2 == 0;
    }

    /** isZero: zero is the value with no digits. */
    method IsZero() returns (zero: bool)
      requires Valid()
      ensures zero <==> Val() == 0
    {
      zero := |digits| == 0;
      if !zero {
        NormalizedLowerBound(digits, B);
        PowerPositive(B, |digits| - 1);
      }
    }

    /**
     * compare: a longer normalized number is larger; equal lengths go to
     * compareDigits.
     */
    method Compare(x: PosInt) returns (c: int)
      requires Valid() && x.Valid() && x.B == B
      ensures c == Order(Val(), x.Val())
    {
      if |digits| < |x.digits| {
        NormalizedLengthOrder(digits, x.digits, B);
        c := -1;
      } else if |digits| > |x.digits| {
        NormalizedLengthOrder(x.digits, digits, B);
        c := 1;
      } else if |digits| == 0 {
        c := 0;
      } else {
        c := CompareDigits(B, digits, x.digits);
      }
    }

    /** add: this = this + x, in a buffer one digit longer than both operands. */
    method Add(x: PosInt)
      requires Valid() && x.Valid() && x.B == B
      modifies this
      ensures Valid() && Val() == old(Val()) + old(x.Val())
    {
      var ds, xs := digits, x.digits;
      var n := (if |ds| < |xs| then |xs| else |ds|) + 1;
      var buf := ToArray(Resize(ds, n));
      ValueResize(ds, n, B);
      ValueBounds(ds, B);
      ValueBounds(xs, B);
      PowerMonotone(B, |ds|, n - 1);
      PowerMonotone(B, |xs|, n - 1);
      SumBelow(Value(ds, B), Value(xs, B), Power(B, n - 1), B);
      assert Power(B, n) == B * Power(B, n - 1);
      assert buf[0..] == buf[..];
      AddArray(B, buf, 0, xs);
      assert buf[0..] == buf[..];
      digits := buf[..];
      Normalize();
    }

    /** sub: this = this - x, failing when x is larger. */
    method Sub(x: PosInt) returns (status: Outcome)
      requires Valid() && x.Valid() && x.B == B
      modifies this
      ensures status == Fail(NegativeDifference) <==> old(Val()) < old(x.Val())
      ensures status == Pass <==> old(x.Val()) <= old(Val())
      ensures status.Fail? ==> digits == old(digits)
      ensures status == Pass ==> Valid() && Val() == old(Val()) - old(x.Val())
    {
      var c := Compare(x);
      if c < 0 {
        return Fail(NegativeDifference);
      }
      status := Pass;
      if |x.digits| > 0 {
        var ds, xs := digits, x.digits;
        if |ds| < |xs| {
          NormalizedLengthOrder(ds, xs, B);
        }
        var buf := ToArray(ds);
        assert buf[0..] == buf[..];
        SubArray(B, buf, 0, xs);
        assert buf[0..] == buf[..];
        digits := buf[..];
        Normalize();
      }
    }

    /**
     * mul: this = this * x. A self-product first copies x; an empty operand
     * gives zero; otherwise mulArray writes into a buffer of both lengths.
     */
    method Mul(x: PosInt)
      requires Valid() && x.Valid() && x.B == B
      modifies this
      ensures Valid() && Val() == old(Val()) * old(x.Val())
      decreases if x == this then 1 else 0
    {
      if x == this {
        var xcopy := new PosInt.Copy(x);
        Mul(xcopy);
        return;
      }
      if |digits| == 0 || |x.digits| == 0 {
        var status := SetInt(0);
        return;
      }
      var mycopy := digits;
      var buf := new int[|mycopy| + |x.digits|];
      MulArray(B, buf, mycopy, x.digits);
      digits := buf[..];
      Normalize();
    }

    /**
     * fastMul: pad both operands to the padded length and multiply them with
     * fastMulArray into a buffer of twice that length; the result is the
     * 2·length lowest digits of the product, which is what fastMul displays.
     */
    method FastMul(x: PosInt) returns (product: seq<int>)
      requires Valid() && x.Valid() && x.B == B
      ensures |product| == 2 * (if |digits| < |x.digits| then |x.digits| else |digits|)
      ensures IsDigits(product, B) && Value(product, B) == Val() * x.Val()
    {
      var length := if |digits| < |x.digits| then |x.digits| else |digits|;
      var digitLength := PaddedLength(length);
      var xs := Resize(x.digits, digitLength);
      var ys := Resize(digits, digitLength);
      ValueResize(x.digits, digitLength, B);
      ValueResize(digits, digitLength, B);
      var dest := new int[2 * digitLength](_ => 0);
      FastMulArray(B, dest, xs, ys);
      ValueBounds(x.digits, B);
      ValueBounds(digits, B);
      PowerMonotone(B, |x.digits|, length);
      PowerMonotone(B, |digits|, length);
      ProductBelow(x.Val(), Power(B, length), Val(), Power(B, length));
      PowerAdd(B, length, length);
      ValueTruncate(dest[..], 2 * length, B);
      product := dest[..2 * length];
      assert dest[..][..2 * length] == product;
      DigitsJoin(dest[..], 2 * length, B);
    }

    /**
     * divrem: x = q*y + r with 0 <= r < y, failing on a zero divisor and on
     * q and r being the same object. The radix must be even (see divisor
     * normalisation in the README).
     */
    static method DivRem(q: PosInt, r: PosInt, x: PosInt, y: PosInt) returns (status: Outcome)
      requires q.Valid() && r.Valid() && x.Valid() && y.Valid()
      requires q.B == y.B && r.B == y.B && x.B == y.B && y.B % 2 == 0
      modifies q, r
      ensures status == Fail(DivideByZero) <==> old(y.Val()) == 0
      ensures status == Fail(SameQuotientRemainder) <==> old(y.Val()) != 0 && q == r
      ensures status == Pass <==> old(y.Val()) != 0 && q != r
      ensures status.Fail? ==> q.digits == old(q.digits) && r.digits == old(r.digits)
      ensures status == Pass ==> q.Valid() && r.Valid()
      ensures status == Pass ==>
        old(x.Val()) == q.Val() * old(y.Val()) + r.Val() && r.Val() < old(y.Val())
      ensures status == Pass ==>
        q.Val() == old(x.Val()) / old(y.Val()) && r.Val() == old(x.Val()) % old(y.Val())
      ensures status == Pass && old(x.Val()) < old(y.Val()) ==>
        q.digits == [] && r.digits == old(x.digits)
    {
      if |y.digits| == 0 {
        return Fail(DivideByZero);
      }
      NormalizedLowerBound(y.digits, y.B);
      PowerPositive(y.B, |y.digits| - 1);
      if q == r {
        return Fail(SameQuotientRemainder);
      }
      ghost var xv, yv := x.Val(), y.Val();
      Divide(q, r, x, y);
      DivModUnique(xv, yv, q.Val(), r.Val());
      status := Pass;
    }

    /** The body of divrem once the divisor is known to be non-zero and q, r distinct. */
    static method Divide(q: PosInt, r: PosInt, x: PosInt, y: PosInt)
      requires q.Valid() && r.Valid() && x.Valid() && y.Valid() && q != r && y.digits != []
      requires q.B == y.B && r.B == y.B && x.B == y.B && y.B % 2 == 0
      modifies q, r
      ensures q.Valid() && r.Valid()
      ensures old(x.Val()) == q.Val() * old(y.Val()) + r.Val() && r.Val() < old(y.Val())
      ensures old(x.Val()) < old(y.Val()) ==> q.digits == [] && r.digits == old(x.digits)
    {
      var B := y.B;
      ghost var xv, yv := x.Val(), y.Val();
      var c := x.Compare(y);
      if c < 0 {
        r.Assign(x);
        var st := q.SetInt(0);
        return;
      }
      ghost var qv: int, rv: int;
      if |y.digits| == 1 {
        var divdig := y.digits[0];
        assert y.digits == [divdig];
        ValueSingle(divdig, B);
        q.Assign(x);
        var qs, rem := SingleDigitDivide(B, q.digits, divdig);
        q.digits := qs;
        var st := r.SetInt(rem);
        qv, rv := xv / yv, xv % yv;
        DivDecompose(xv, yv);
        assert xv == qv * yv + rv;
      } else {
        if |x.digits| < |y.digits| {
          NormalizedLengthOrder(x.digits, y.digits, B);
        }
        var qs, rs;
        if 2 * y.digits[|y.digits| - 1] < B {
          qs, rs := ScaledDivide(B, x.digits, y.digits);
        } else {
          qs, rs := DirectDivide(B, x.digits, y.digits);
        }
        q.digits := qs;
        r.digits := rs;
        qv, rv := Value(qs, B), Value(rs, B);
      }
      q.Normalize();
      r.Normalize();
      assert q.Val() == qv && r.Val() == rv;
    }

    /** mod (declared in the header, not part of this source): this = this mod y through divrem. */
    method Mod(y: PosInt) returns (status: Outcome)
      requires Valid() && y.Valid() && y.B == B && B % 2 == 0
      modifies this
      ensures status == Fail(DivideByZero) <==> old(y.Val()) == 0
      ensures status == Pass <==> old(y.Val()) != 0
      ensures status.Fail? ==> digits == old(digits)
      ensures status == Pass ==> Valid() && Val() == old(Val()) % old(y.Val())
    {
      var q := new PosInt(B);
      status := DivRem(q, this, this, y);
    }

    /** pow: this = this ^ x by multiplying x times (0^0 = 1). */
    method Pow(x: PosInt)
      requires Valid() && x.Valid() && x.B == B
      modifies this
      ensures Valid() && Val() == Power(old(Val()), old(x.Val()))
      decreases if x == this then 1 else 0
    {
      if x == this {
        var xcopy := new PosInt.Copy(x);
        Pow(xcopy);
        return;
      }
      var one := new PosInt.FromInt(B, 1);
      var mycopy := new PosInt.Copy(this);
      ghost var m := Val();
      var status := SetInt(1);
      var i := new PosInt.FromInt(B, 0);
      var c := i.Compare(x);
      while c < 0
        invariant Valid() && i.Valid() && i.B == B && mycopy.Valid() && mycopy.B == B
        invariant mycopy.Val() == m && one.Valid() && one.B == B && one.Val() == 1
        invariant i.Val() <= x.Val() && Val() == Power(m, i.Val())
        invariant c == Order(i.Val(), x.Val())
        decreases x.Val() - i.Val()
      {
        ghost var k := i.Val();
        Mul(mycopy);
        assert Power(m, k + 1) == m * Power(m, k);
        i.Add(one);
        c := i.Compare(x);
      }
    }

    /** gcd: this = gcd(x, y) by Euclid's loop on a copy of y. */
    method Gcd(x: PosInt, y: PosInt)
      requires Valid() && x.Valid() && y.Valid() && x.B == B && y.B == B && B % 2 == 0
      modifies this
      ensures Valid() && IsGcd(Val(), old(x.Val()), old(y.Val()))
    {
      ghost var xv, yv := x.Val(), y.Val();
      var b := new PosInt.Copy(y);
      Assign(x);
      var zero := b.IsZero();
      while !zero
        invariant fresh(b) && Valid() && b.Valid() && b.B == B
        invariant SameCommonDivisors(Val(), b.Val(), xv, yv)
        invariant zero <==> b.Val() == 0
        decreases b.Val()
      {
        var r := new PosInt.Copy(this);
        var status := r.Mod(b);
        EuclidStep(Val(), b.Val());
        SameCommonDivisorsTrans(b.Val(), r.Val(), Val(), b.Val(), xv, yv);
        Assign(b);
        b.Assign(r);
        zero := b.IsZero();
      }
      GcdFromCommonDivisors(Val(), xv, yv);
    }
  }

  /**
   * Subtracting what was just added restores the digits exactly (for two
   * distinct objects: a.add(a) doubles a).
   */
  method AddThenSub(a: PosInt, b: PosInt)
    requires a.Valid() && b.Valid() && a.B == b.B && a != b
    modifies a
    ensures a.digits == old(a.digits)
  {
    ghost var s := a.digits;
    a.Add(b);
    var status := a.Sub(b);
    NormalizedUnique(a.digits, s, a.B);
  }
}
