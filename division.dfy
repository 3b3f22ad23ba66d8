/** DIVISION: single-digit scaling kernels and long division. */
module Division {
  import opened Arith
  import opened Digits
  import opened Comparison
  import opened Subtraction
  import opened Estimate

  /**
   * mulDigit: dest[..len] = dest[..len] * d, then carry every entry back into
   * [0, B); the carries may run on into dest[len..], which must have room for them.
   */
  method MulDigit(B: Radix, dest: array<int>, d: int, len: nat)
    requires 1 <= len <= dest.Length && IsDigits(dest[..], B) && 0 <= d
    requires Value(dest[..len], B) * d + Power(B, len) * Value(dest[len..], B) < Power(B, dest.Length)
    modifies dest
    ensures IsDigits(dest[..], B)
    ensures Value(dest[..], B) == old(Value(dest[..len], B)) * d + Power(B, len) * old(Value(dest[len..], B))
  {
    ghost var orig := dest[..];
    ScaleEntries(B, dest, d, len);
    forall k | 0 <= k < dest.Length
      ensures 0 <= dest[k] && (len <= k ==> dest[k] < B)
    {
      MulNonNegative(orig[k], d);
    }
    CarryBelow(B, dest, len);
    CarryAbove(B, dest, len - 1);
  }

  /** The first loop of mulDigit: multiply each of the first len entries by d, no carries yet. */
  method ScaleEntries(B: Radix, dest: array<int>, d: int, len: nat)
    requires len <= dest.Length
    modifies dest
    ensures forall k :: 0 <= k < dest.Length ==> dest[k] == if k < len then old(dest[k]) * d else old(dest[k])
    ensures Value(dest[..], B) == old(Value(dest[..len], B)) * d + Power(B, len) * old(Value(dest[len..], B))
  {
    ghost var orig := dest[..];
    ghost var v0 := Value(orig, B);
    var i := 0;
    while i < len
      invariant 0 <= i <= len
      invariant forall k :: 0 <= k < dest.Length ==> dest[k] == if k < i then orig[k] * d else orig[k]
      invariant Value(dest[..], B) == v0 + (d - 1) * Value(orig[..i], B)
    {
      ghost var s := dest[..];
      dest[i] := dest[i] * d;
      assert dest[..] == s[i := s[i] * d];
      ValueUpdate(s, i, s[i] * d, B);
      ValuePrefixStep(orig, i, B);
      ScaleStep(d, Value(orig[..i], B), Power(B, i), orig[i]);
      i := i + 1;
    }
    ghost var lo, hi, p := Value(orig[..len], B), Value(orig[len..], B), Power(B, len);
    ValueSplit(orig, len, B);
    assert v0 == lo + p * hi && v0 + (d - 1) * lo == lo * d + p * hi;
  }

  /** The second loop of mulDigit: carry each of the first len - 1 entries into the next. */
  method CarryBelow(B: Radix, dest: array<int>, len: nat)
    requires 1 <= len <= dest.Length
    requires forall k :: 0 <= k < dest.Length ==> 0 <= dest[k]
    requires forall k :: len <= k < dest.Length ==> dest[k] < B
    modifies dest
    ensures forall k :: 0 <= k < dest.Length ==> 0 <= dest[k]
    ensures forall k :: 0 <= k < dest.Length && k != len - 1 ==> dest[k] < B
    ensures Value(dest[..], B) == old(Value(dest[..], B))
  {
    var i := 0;
    while i + 1 < len
      invariant 0 <= i < len
      invariant forall k :: 0 <= k < i ==> 0 <= dest[k] < B
      invariant forall k :: i <= k < dest.Length ==> 0 <= dest[k]
      invariant forall k :: len <= k < dest.Length ==> dest[k] < B
      invariant Value(dest[..], B) == old(Value(dest[..], B))
    {
      CarryOne(B, dest, i);
      i := i + 1;
    }
  }

  /**
   * The third loop of mulDigit: carry on from position i while the entry there
   * is B or more. The value fits the buffer, so the carries stop inside it.
   */
  method CarryAbove(B: Radix, dest: array<int>, i: nat)
    requires i < dest.Length
    requires forall k :: 0 <= k < dest.Length ==> 0 <= dest[k]
    requires forall k :: 0 <= k < dest.Length && k != i ==> dest[k] < B
    requires Value(dest[..], B) < Power(B, dest.Length)
    modifies dest
    ensures IsDigits(dest[..], B)
    ensures Value(dest[..], B) == old(Value(dest[..], B))
  {
    var j := i;
    while dest[j] >= B
      invariant i <= j < dest.Length
      invariant forall k :: 0 <= k < j ==> 0 <= dest[k] < B
      invariant 0 <= dest[j]
      invariant forall k :: j < k < dest.Length ==> 0 <= dest[k] < B
      invariant Value(dest[..], B) == old(Value(dest[..], B))
      decreases dest.Length - j
    {
      ghost var w := dest[..];
      assert NonNegative(w);
      CarryStaysInside(w, j, B);
      CarryOne(B, dest, j);
      j := j + 1;
    }
  }

  /** One carry step of mulDigit: dest[i+1] += dest[i] / B; dest[i] %= B. */
  method CarryOne(B: Radix, dest: array<int>, i: nat)
    requires i + 1 < dest.Length && 0 <= dest[i] && 0 <= dest[i + 1]
    modifies dest
    ensures 0 <= dest[i] < B && 0 <= dest[i + 1]
    ensures forall k :: 0 <= k < dest.Length && k != i && k != i + 1 ==> dest[k] == old(dest[k])
    ensures Value(dest[..], B) == old(Value(dest[..], B))
  {
    ghost var s := dest[..];
    var c := dest[i] / B;
    DivDecompose(dest[i], B);
    dest[i + 1] := dest[i + 1] + c;
    dest[i] := dest[i] % B;
    assert dest[..] == s[i := s[i] - c * B][i + 1 := s[i + 1] + c];
    CarryMove(s, i, c, B);
  }

  /**
   * divDigit: dest = dest / d, digit-wise from the most significant end, and
   * return dest % d.
   */
  method DivDigit(B: Radix, dest: array<int>, d: int) returns (r: int)
    requires IsDigits(dest[..], B) && 0 < d
    modifies dest
    ensures IsDigits(dest[..], B)
    ensures Value(dest[..], B) == old(Value(dest[..], B)) / d
    ensures r == old(Value(dest[..], B)) % d
  {
    ghost var orig := dest[..];
    r := 0;
    var i := dest.Length;
    while i > 0
      invariant 0 <= i <= dest.Length
      invariant dest[..i] == orig[..i]
      invariant IsDigits(dest[i..], B)
      invariant 0 <= r < d
      invariant Value(orig[i..], B) == d * Value(dest[i..], B) + r
    {
      i := i - 1;
      ghost var tail := dest[i + 1..];
      ghost var rold := r;
      assert orig[i] == dest[i];
      ValueSuffixStep(orig, i, B);
      dest[i] := dest[i] + B * r;
      var t := dest[i];
      r := dest[i] % d;
      dest[i] := dest[i] / d;
      DivDigitStep(B, d, orig[i], rold, t, Value(tail, B));
      assert dest[i + 1..] == tail;
      ValueSuffixStep(dest[..], i, B);
      assert dest[..][i..] == dest[i..] && dest[..][i + 1..] == dest[i + 1..];
    }
    assert orig[0..] == orig && dest[0..] == dest[..];
    DivModUnique(Value(orig, B), d, Value(dest[..], B), r);
  }

  /**
   * divremArray: long division of x by y, one quotient digit per position from
   * the top, each first under-estimated from two remainder digits and then
   * corrected by repeated subtraction. q and r are distinct buffers of exactly
   * |x|-|y|+1 and |x| entries, and the divisor's top digit is at least B/2.
   */
  method DivremArray(B: Radix, q: array<int>, r: array<int>, x: seq<int>, y: seq<int>)
    requires q != r
    requires 1 <= |y| <= |x| && IsDigits(x, B) && IsDigits(y, B)
    requires B <= 2 * y[|y| - 1]
    requires q.Length == |x| - |y| + 1 && r.Length == |x|
    modifies q, r
    ensures IsDigits(q[..], B) && IsDigits(r[..], B)
    ensures Value(x, B) == Value(q[..], B) * Value(y, B) + Value(r[..], B)
    ensures Value(r[..], B) < Value(y, B)
  {
    for i := 0 to |x|
      invariant r[..i] == x[..i]
      modifies r
    {
      r[i] := x[i];
    }
    assert r[..] == x;
    ghost var yv := Value(y, B);
    DivisorHalf(y, B);
    var temp := new int[|y| + 1];
    var qind := |x| - |y|;
    var rind := |x| - 1;
    q[qind] := 0;
    StartWindow(x, y, B);
    assert r[qind..] == x[qind..];
    StartAccount(r[..], q[..], qind, yv, B);
    while true
      invariant 0 <= qind <= |x| - |y| && rind == qind + |y| - 1
      invariant IsDigits(r[..], B)
      invariant forall k :: qind < k < q.Length ==> 0 <= q[k] < B
      invariant 0 <= q[qind]
      invariant Value(x, B) == Accounted(r[..], q[..], qind, yv, B)
      invariant Value(r[qind..], B) + q[qind] * yv < B * yv
      decreases qind
    {
      CorrectStep(B, q, r, qind, y);
      if qind == 0 {
        break;
      }
      qind := qind - 1;
      rind := rind - 1;
      EstimateStep(B, q, r, temp, qind, y);
    }
    FinishAccount(r[..], q[..], yv, B);
    assert q[..] == q[0..];
  }

  /** The correction loop at qind, with its effect on the account of divremArray. */
  method CorrectStep(B: Radix, q: array<int>, r: array<int>, qind: nat, y: seq<int>)
    requires q != r && qind < q.Length && qind + |y| <= r.Length
    requires 1 <= |y| && IsDigits(y, B) && 1 <= Value(y, B)
    requires IsDigits(r[..], B) && 0 <= q[qind]
    requires forall k :: qind < k < q.Length ==> 0 <= q[k] < B
    requires Value(r[qind..], B) + q[qind] * Value(y, B) < B * Value(y, B)
    modifies q, r
    ensures IsDigits(r[..], B) && Value(r[qind..], B) < Value(y, B)
    ensures forall k :: qind <= k < q.Length ==> 0 <= q[k] < B
    ensures Accounted(r[..], q[..], qind, Value(y, B), B) == old(Accounted(r[..], q[..], qind, Value(y, B), B))
  {
    ghost var r0, q0 := r[..], q[..];
    Correct(B, q, r, qind, y);
    assert q[qind + 1..] == q0[qind + 1..];
    CorrectionAccount(r0, q0, r[..], q[..], qind, Value(y, B), B);
  }

  /** The estimate of the next quotient digit at qind, with its effect on the account of divremArray. */
  method EstimateStep(B: Radix, q: array<int>, r: array<int>, temp: array<int>, qind: nat, y: seq<int>)
    requires q != r && temp != q && temp != r && temp.Length == |y| + 1
    requires 1 <= |y| && IsDigits(y, B) && B <= 2 * y[|y| - 1] && 1 <= Value(y, B)
    requires qind + 1 < q.Length && r.Length == q.Length + |y| - 1
    requires IsDigits(r[..], B) && Value(r[qind + 1..], B) < Value(y, B)
    requires forall k :: qind < k < q.Length ==> 0 <= q[k] < B
    modifies q, r, temp
    ensures IsDigits(r[..], B) && 0 <= q[qind]
    ensures forall k :: qind < k < q.Length ==> 0 <= q[k] < B
    ensures Value(r[qind..], B) + q[qind] * Value(y, B) < B * Value(y, B)
    ensures Accounted(r[..], q[..], qind, Value(y, B), B) == old(Accounted(r[..], q[..], qind + 1, Value(y, B), B))
  {
    ghost var yv := Value(y, B);
    NextWindow(r[..], qind, yv, B);
    assert r[..][qind..] == r[qind..];
    ghost var r1, q1 := r[..], q[..];
    EstimateDigit(B, q, r, temp, qind, qind + |y| - 1, y);
    assert q[qind + 1..] == q1[qind + 1..];
    EstimateAccount(r1, q1, r[..], q[..], qind, yv, B);
  }

  /** The quantity divremArray keeps equal to x: the remainder buffer plus y times the quotient digits from qind up. */
  ghost function Accounted(r: seq<int>, q: seq<int>, qind: nat, yv: int, B: int): int
    requires qind <= |q|
  {
    Value(r, B) + Power(B, qind) * (yv * Value(q[qind..], B))
  }

  lemma {:induction false} StartAccount(r: seq<int>, q: seq<int>, qind: nat, yv: int, B: int)
    requires qind < |q| && q[qind..] == [0]
    ensures Accounted(r, q, qind, yv, B) == Value(r, B)
  {
    ValueSingle(0, B);
  }

  /** The top |y| digits of x are below B·y, since 2y >= B^|y|. */
  lemma {:induction false} StartWindow(x: seq<int>, y: seq<int>, B: Radix)
    requires 1 <= |y| <= |x| && IsDigits(x, B) && IsDigits(y, B) && B <= 2 * y[|y| - 1]
    ensures Value(x[|x| - |y|..], B) < B * Value(y, B)
  {
    DivisorHalf(y, B);
    assert IsDigits(x[|x| - |y|..], B);
    ValueBounds(x[|x| - |y|..], B);
    MulLeRight(2, B, Value(y, B));
  }

  /** The correction loop only moves multiples of y between the window and q[qind]. */
  lemma {:induction false} CorrectionAccount(r0: seq<int>, q0: seq<int>, r1: seq<int>, q1: seq<int>, qind: nat, yv: int, B: int)
    requires qind < |q0| == |q1| && qind <= |r0| == |r1|
    requires r1[..qind] == r0[..qind] && q1[qind + 1..] == q0[qind + 1..]
    requires Value(r1[qind..], B) + q1[qind] * yv == Value(r0[qind..], B) + q0[qind] * yv
    ensures Accounted(r1, q1, qind, yv, B) == Accounted(r0, q0, qind, yv, B)
  {
    Regroup(r0, q0, qind, yv, B);
    Regroup(r1, q1, qind, yv, B);
  }

  /** An estimate step moves q[qind]·y·B^qind from the remainder into the quotient. */
  lemma {:induction false} EstimateAccount(r0: seq<int>, q0: seq<int>, r1: seq<int>, q1: seq<int>, qind: nat, yv: int, B: int)
    requires qind + 1 < |q0| == |q1| && q1[qind + 1..] == q0[qind + 1..]
    requires Value(r1, B) == Value(r0, B) - Power(B, qind) * (q1[qind] * yv)
    ensures Accounted(r1, q1, qind, yv, B) == Accounted(r0, q0, qind + 1, yv, B)
  {
    ValueSuffixStep(q1, qind, B);
    PowerAdd(B, qind, 1);
    assert Power(B, 1) == B;
    StepAccount(Accounted(r0, q0, qind + 1, yv, B), Value(r0, B), Value(r1, B), Power(B, qind), B, yv, q1[qind], Value(q0[qind + 1..], B));
  }

  lemma {:induction false} FinishAccount(r: seq<int>, q: seq<int>, yv: int, B: int)
    requires 1 <= |q|
    ensures Accounted(r, q, 0, yv, B) == Value(q, B) * yv + Value(r, B)
  {
    assert q[0..] == q;
  }

  /**
   * The correction loop of divremArray: while y <= r[qind..], subtract y from
   * that window and count one more for the quotient digit q[qind].
   */
  method Correct(B: Radix, q: array<int>, r: array<int>, qind: nat, y: seq<int>)
    requires q != r && qind < q.Length && qind + |y| <= r.Length && qind < r.Length
    requires 1 <= |y| && IsDigits(y, B) && 1 <= Value(y, B)
    requires IsDigits(r[..], B) && 0 <= q[qind]
    requires Value(r[qind..], B) + q[qind] * Value(y, B) < B * Value(y, B)
    modifies q, r
    ensures IsDigits(r[..], B) && r[..qind] == old(r[..qind])
    ensures forall k :: 0 <= k < q.Length && k != qind ==> q[k] == old(q[k])
    ensures Value(r[qind..], B) + q[qind] * Value(y, B) == old(Value(r[qind..], B) + q[qind] * Value(y, B))
    ensures Value(r[qind..], B) < Value(y, B) && 0 <= q[qind] < B
  {
    ghost var yv := Value(y, B);
    ghost var total := Value(r[qind..], B) + q[qind] * yv;
    var c := CompareDigits(B, y, r[qind..]);
    while c <= 0
      invariant IsDigits(r[..], B) && r[..qind] == old(r[..qind])
      invariant forall k :: 0 <= k < q.Length && k != qind ==> q[k] == old(q[k])
      invariant 0 <= q[qind] && Value(r[qind..], B) + q[qind] * yv == total
      invariant c == Order(yv, Value(r[qind..], B))
      decreases Value(r[qind..], B)
    {
      ghost var w, d := Value(r[qind..], B), q[qind];
      assert IsDigits(r[qind..], B);
      ValueBounds(r[qind..], B);
      SubArray(B, r, qind, y);
      assert Value(r[qind..], B) == w - yv;
      assert IsDigits(r[..qind], B);
      DigitsJoin(r[..], qind, B);
      q[qind] := q[qind] + 1;
      MulSucc(d, yv);
      c := CompareDigits(B, y, r[qind..]);
    }
    assert IsDigits(r[qind..], B);
    ValueBounds(r[qind..], B);
    CountBelow(Value(r[qind..], B), q[qind], yv, B);
  }

  /**
   * One estimate step of divremArray at position qind: guess the quotient digit
   * from r[rind] and r[rind + 1] and, when the guess is positive, subtract that
   * multiple of y (formed in temp) from the window r[qind..].
   */
  method EstimateDigit(B: Radix, q: array<int>, r: array<int>, temp: array<int>, qind: nat, rind: nat, y: seq<int>)
    requires q != r && temp != q && temp != r && temp.Length == |y| + 1
    requires 1 <= |y| && IsDigits(y, B) && B <= 2 * y[|y| - 1]
    requires qind < q.Length && qind + |y| + 1 <= r.Length && rind == qind + |y| - 1
    requires IsDigits(r[..], B) && Value(r[qind..], B) < B * Value(y, B)
    modifies q, r, temp
    ensures IsDigits(r[..], B) && r[..qind] == old(r[..qind])
    ensures forall k :: 0 <= k < q.Length && k != qind ==> q[k] == old(q[k])
    ensures 0 <= q[qind] && Value(r[qind..], B) + q[qind] * Value(y, B) == old(Value(r[qind..], B))
    ensures Value(r[..], B) == old(Value(r[..], B)) - Power(B, qind) * (q[qind] * Value(y, B))
  {
    var quoest := (r[rind] + B * r[rind + 1]) / y[|y| - 1] - 2;
    if quoest <= 0 {
      q[qind] := 0;
    } else {
      q[qind] := quoest;
      EstimateFacts(r[..], qind, rind, y, B);
      SubtractMultiple(B, r, temp, qind, y, quoest);
    }
  }

  /**
   * The subtraction of an estimate step: temp = y·qe via mulDigit, then
   * r[qind..] -= temp via subArray.
   */
  method SubtractMultiple(B: Radix, r: array<int>, temp: array<int>, qind: nat, y: seq<int>, qe: int)
    requires temp != r && temp.Length == |y| + 1 && 1 <= |y| && IsDigits(y, B)
    requires qind + |y| + 1 <= r.Length && IsDigits(r[..], B) && 0 < qe
    requires qe * Value(y, B) <= Value(r[qind..], B) < Power(B, |y| + 1)
    modifies r, temp
    ensures IsDigits(r[..], B) && r[..qind] == old(r[..qind])
    ensures Value(r[qind..], B) == old(Value(r[qind..], B)) - qe * Value(y, B)
    ensures Value(r[..], B) == old(Value(r[..], B)) - Power(B, qind) * (qe * Value(y, B))
  {
    ghost var yv, w0, v0 := Value(y, B), Value(r[qind..], B), Value(r[..], B);
    ghost var prod := qe * yv;
    for i := 0 to |y|
      invariant temp[..i] == y[..i]
      modifies temp
    {
      temp[i] := y[i];
    }
    assert r[..] == old(r[..]);
    temp[|y|] := 0;
    assert r[..] == old(r[..]);
    assert temp[..] == y + Zeros(1);
    ValueExtend(y, 1, B);
    DigitsExtend(y, 1, B);
    assert temp[..|y| + 1] == temp[..] && temp[|y| + 1..] == [];
    assert Value(temp[..|y| + 1], B) * qe + Power(B, |y| + 1) * Value(temp[|y| + 1..], B) == qe * yv;
    MulDigit(B, temp, qe, |y| + 1);
    assert r[..] == old(r[..]);
    assert Value(temp[..], B) == prod;
    assert prod <= w0;
    assert w0 == Value(r[qind..], B);
    SubArray(B, r, qind, temp[..]);
    assert Value(r[qind..], B) == w0 - prod;
    assert Value(r[..], B) == v0 - Power(B, qind) * prod;
    assert IsDigits(r[..qind], B);
    DigitsJoin(r[..], qind, B);
  }

  /**
   * The two facts the estimate step needs about the remainder window: the guess
   * from its top two digits does not overshoot, and the window fits in |y|+1 digits.
   */
  lemma {:induction false} EstimateFacts(r: seq<int>, qind: nat, rind: nat, y: seq<int>, B: Radix)
    requires 1 <= |y| && IsDigits(y, B) && B <= 2 * y[|y| - 1]
    requires qind + |y| + 1 <= |r| && rind == qind + |y| - 1 && IsDigits(r, B)
    requires Value(r[qind..], B) < B * Value(y, B)
    ensures ((r[rind] + B * r[rind + 1]) / y[|y| - 1] - 2) * Value(y, B) <= Value(r[qind..], B)
    ensures Value(r[qind..], B) < Power(B, |y| + 1)
  {
    WindowFits(r, qind, y, B);
    var w := r[qind..qind + |y| + 1];
    assert r[qind..][..|y| + 1] == w;
    assert w[|y| - 1] == r[rind] && w[|y|] == r[rind + 1];
    assert IsDigits(w, B);
    QuotientEstimate(w, y, B);
  }

  /**
   * Facts behind the estimate step: the window r[qind..] is below B^(|y|+1),
   * so it is its own first |y|+1 digits.
   */
  lemma {:induction false} WindowFits(r: seq<int>, qind: nat, y: seq<int>, B: Radix)
    requires 1 <= |y| && IsDigits(y, B) && qind + |y| + 1 <= |r| && IsDigits(r, B)
    requires Value(r[qind..], B) < B * Value(y, B)
    ensures Value(r[qind..][..|y| + 1], B) == Value(r[qind..], B) < Power(B, |y| + 1)
  {
    var w, yv, p := r[qind..], Value(y, B), Power(B, |y|);
    ValueBounds(y, B);
    assert Power(B, |y| + 1) == B * p;
    WindowBelowArith(Value(w, B), yv, p, B);
    DigitsSlice(r, qind, |r|, B);
    assert r[qind..|r|] == w;
    ValueTruncate(w, |y| + 1, B);
  }

  /**
   * The quantity divremArray keeps equal to x, split around position qind:
   * the lower remainder digits, then the window plus the current quotient digit
   * times y, then the higher quotient digits times y.
   */
  lemma {:induction false} Regroup(r: seq<int>, q: seq<int>, qind: nat, yv: int, B: int)
    requires qind < |q| && qind <= |r|
    ensures Value(r, B) + Power(B, qind) * (yv * Value(q[qind..], B))
         == Value(r[..qind], B) + Power(B, qind) * ((Value(r[qind..], B) + q[qind] * yv) + B * (yv * Value(q[qind + 1..], B)))
  {
    ValueSplit(r, qind, B);
    ValueSuffixStep(q, qind, B);
    RegroupArith(Value(r[..qind], B), Power(B, qind), Value(r[qind..], B), q[qind], Value(q[qind + 1..], B), yv, B);
  }

  /** Moving to the next lower position: a window below y grows to one below B·y. */
  lemma {:induction false} NextWindow(r: seq<int>, qind: nat, yv: int, B: Radix)
    requires qind + 1 < |r| && IsDigits(r, B) && Value(r[qind + 1..], B) < yv
    ensures Value(r[qind..], B) < B * yv
  {
    ValueSuffixStep(r, qind, B);
    assert 0 <= r[qind] < B;
    NextWindowArith(r[qind], Value(r[qind + 1..], B), yv, B);
  }

  /** The bookkeeping of one estimate step: the digit d moves d·y from r into q. */
  lemma {:induction false} StepAccount(x: int, r0: int, r1: int, p: int, B: int, yv: int, d: int, h: int)
    requires x == r0 + (p * B) * (yv * h) && r1 == r0 - p * (d * yv)
    ensures x == r1 + p * (yv * (d + B * h))
  {
    assert (p * B) * (yv * h) == p * (B * (yv * h));
    assert yv * (d + B * h) == d * yv + B * (yv * h);
    assert p * (d * yv + B * (yv * h)) == p * (d * yv) + p * (B * (yv * h));
  }
}
