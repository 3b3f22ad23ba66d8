/**
 * The digit-buffer representation of a PosInt: a sequence of radix-B digits,
 * least significant first, and the natural number it denotes.
 */
module Digits {
  import opened Arith

  /** A digit radix. The repository's default is 0x8000; any B >= 2 is allowed here. */
  type Radix = b: int | b >= 2 witness 2

  /** b^n. */
  ghost function Power(b: int, n: nat): int
  {
    if n == 0 then 1 else b * Power(b, n - 1)
  }

  /**
   * The value Σ s[i]·B^i denoted by s. Entries outside [0, B) are allowed: the
   * kernels pass through such states while carries and borrows are pending.
   */
  ghost function Value(s: seq<int>, B: int): int
  {
    if |s| == 0 then 0 else s[0] + B * Value(s[1..], B)
  }

  /** Every entry is a digit in [0, B). */
  ghost predicate IsDigits(s: seq<int>, B: int)
  {
    forall i :: 0 <= i < |s| ==> 0 <= s[i] < B
  }

  /** Every entry is non-negative (a digit or a digit with a pending carry). */
  ghost predicate NonNegative(s: seq<int>)
  {
    forall i :: 0 <= i < |s| ==> 0 <= s[i]
  }

  /** The most significant stored digit is non-zero; zero is the empty sequence. */
  ghost predicate Normalized(s: seq<int>)
  {
    |s| == 0 || s[|s| - 1] != 0
  }

  function Zeros(n: nat): (z: seq<int>)
    ensures |z| == n && forall i :: 0 <= i < n ==> z[i] == 0
  {
    seq(n, _ => 0)
  }

  /** `vector::resize(len, 0)`: truncate, or extend with zero digits. */
  function Resize(s: seq<int>, len: nat): (r: seq<int>)
    ensures |r| == len
    ensures forall i :: 0 <= i < len ==> r[i] == if i < |s| then s[i] else 0
  {
    if len <= |s| then s[..len] else s + Zeros(len - |s|)
  }

  /** s with its most significant zero digits removed. */
  ghost function StripZeros(s: seq<int>): seq<int>
  {
    if |s| > 0 && s[|s| - 1] == 0 then StripZeros(s[..|s| - 1]) else s
  }

  /** The normalized base-B expansion of n: repeated `n % B`, `n / B`. */
  ghost function ToDigits(n: nat, B: Radix): seq<int>
  {
    if n == 0 then [] else [n % B] + ToDigits(n / B, B)
  }

  // ---------------------------------------------------------------- powers

  lemma {:induction false} PowerPositive(b: int, n: nat)
    requires 1 <= b
    ensures 1 <= Power(b, n)
  {
    if n > 0 {
      PowerPositive(b, n - 1);
      MulGrows(Power(b, n - 1), b);
    }
  }

  lemma {:induction false} PowerAdd(b: int, m: nat, n: nat)
    ensures Power(b, m + n) == Power(b, m) * Power(b, n)
  {
    if m > 0 {
      PowerAdd(b, m - 1, n);
      assert Power(b, m + n) == b * Power(b, m - 1 + n);
      assert b * (Power(b, m - 1) * Power(b, n)) == (b * Power(b, m - 1)) * Power(b, n);
    }
  }

  lemma {:induction false} PowerMonotone(b: int, m: nat, n: nat)
    requires 1 <= b && m <= n
    ensures Power(b, m) <= Power(b, n)
  {
    if m < n {
      PowerMonotone(b, m, n - 1);
      PowerPositive(b, n - 1);
      MulGrows(Power(b, n - 1), b);
    }
  }

  // ---------------------------------------------------------------- values

  lemma {:induction false} ValueConcat(s: seq<int>, t: seq<int>, B: int)
    ensures Value(s + t, B) == Value(s, B) + Power(B, |s|) * Value(t, B)
  {
    if |s| > 0 {
      var u := s[1..];
      assert (s + t)[1..] == u + t && (s + t)[0] == s[0];
      ValueConcat(u, t, B);
      assert Power(B, |s|) == B * Power(B, |u|);
      ConcatArith(s[0], B, Value(u, B), Power(B, |u|), Value(t, B));
    } else {
      assert s + t == t;
    }
  }

  /**
   * Changing only the part of a buffer from position off on, by delta in that
   * part's own value, changes the whole value by delta at place value B^off.
   */
  lemma {:induction false} ValueWindow(s0: seq<int>, s1: seq<int>, off: nat, delta: int, B: int)
    requires off <= |s0| == |s1| && s0[..off] == s1[..off]
    requires Value(s1[off..], B) == Value(s0[off..], B) + delta
    ensures Value(s1, B) == Value(s0, B) + Power(B, off) * delta
  {
    ValueSplit(s0, off, B);
    ValueSplit(s1, off, B);
    var p, h := Power(B, off), Value(s0[off..], B);
    assert p * (h + delta) == p * h + p * delta;
  }

  /** Splitting a buffer at position k. */
  lemma {:induction false} ValueSplit(s: seq<int>, k: nat, B: int)
    requires k <= |s|
    ensures Value(s, B) == Value(s[..k], B) + Power(B, k) * Value(s[k..], B)
  {
    assert s == s[..k] + s[k..];
    ValueConcat(s[..k], s[k..], B);
  }

  lemma {:induction false} ValueSingle(d: int, B: int)
    ensures Value([d], B) == d
  {
    assert [d][1..] == [];
  }

  /** Extending a prefix by one digit adds that digit at its place value. */
  lemma {:induction false} ValuePrefixStep(s: seq<int>, i: nat, B: int)
    requires i < |s|
    ensures Value(s[..i + 1], B) == Value(s[..i], B) + Power(B, i) * s[i]
  {
    assert s[..i + 1] == s[..i] + [s[i]];
    ValueConcat(s[..i], [s[i]], B);
    ValueSingle(s[i], B);
  }

  /** A suffix starting one position lower gains that digit at the bottom. */
  lemma {:induction false} ValueSuffixStep(s: seq<int>, i: nat, B: int)
    requires i < |s|
    ensures Value(s[i..], B) == s[i] + B * Value(s[i + 1..], B)
  {
    assert s[i..][1..] == s[i + 1..];
  }

  /** Changing the digit at position i changes the value by the difference at its place value. */
  lemma {:induction false} ValueUpdate(s: seq<int>, i: nat, v: int, B: int)
    requires i < |s|
    ensures Value(s[i := v], B) == Value(s, B) + Power(B, i) * (v - s[i])
  {
    if i == 0 {
      assert s[i := v][1..] == s[1..];
    } else {
      assert s[i := v][1..] == s[1..][i - 1 := v];
      ValueUpdate(s[1..], i - 1, v, B);
      assert B * (Power(B, i - 1) * (v - s[i])) == (B * Power(B, i - 1)) * (v - s[i]);
    }
  }

  /** Moving c units from position i to position i+1 (a carry of c) keeps the value. */
  lemma {:induction false} CarryMove(s: seq<int>, i: nat, c: int, B: int)
    requires i + 1 < |s|
    ensures Value(s[i := s[i] - c * B][i + 1 := s[i + 1] + c], B) == Value(s, B)
  {
    var s1 := s[i := s[i] - c * B];
    ValueUpdate(s, i, s[i] - c * B, B);
    ValueUpdate(s1, i + 1, s[i + 1] + c, B);
    assert Power(B, i + 1) == B * Power(B, i);
    assert (s[i] - c * B) - s[i] == -(c * B) && (s[i + 1] + c) - s1[i + 1] == c;
    CarryArith(Power(B, i), c, B);
  }

  lemma {:induction false} ValueNonNegative(s: seq<int>, B: int)
    requires NonNegative(s) && 0 <= B
    ensures 0 <= Value(s, B)
  {
    if |s| > 0 {
      ValueNonNegative(s[1..], B);
      MulNonNegative(B, Value(s[1..], B));
    }
  }

  /** A non-negative buffer is worth at least any one of its entries at its place value. */
  lemma {:induction false} ValueAtLeastDigit(s: seq<int>, i: nat, B: Radix)
    requires NonNegative(s) && i < |s|
    ensures Power(B, i) * s[i] <= Value(s, B)
  {
    var p := Power(B, i);
    var high := Value(s[i + 1..], B);
    ValueSplit(s, i, B);
    ValueSuffixStep(s, i, B);
    ValueNonNegative(s[..i], B);
    ValueNonNegative(s[i + 1..], B);
    PowerPositive(B, i);
    MulNonNegative(B, high);
    MulLeRight(s[i], Value(s[i..], B), p);
    assert p * s[i] <= p * Value(s[i..], B);
  }

  /** A buffer whose value fits in its length cannot carry out of its last position. */
  lemma {:induction false} CarryStaysInside(s: seq<int>, i: nat, B: Radix)
    requires NonNegative(s) && i < |s| && B <= s[i]
    requires Value(s, B) < Power(B, |s|)
    ensures i + 1 < |s|
  {
    ValueAtLeastDigit(s, i, B);
    PowerPositive(B, i);
    MulLeRight(B, s[i], Power(B, i));
    assert Power(B, i + 1) == B * Power(B, i);
  }

  /** A buffer of non-negative value cannot borrow out of its last position. */
  lemma {:induction false} BorrowStaysInside(s: seq<int>, i: nat, B: Radix)
    requires i < |s| && IsDigits(s[..i], B) && s[i] < 0
    requires 0 <= Value(s, B)
    ensures i + 1 < |s|
  {
    if i + 1 == |s| {
      ValueSplit(s, i, B);
      ValueSuffixStep(s, i, B);
      assert s[i + 1..] == [];
      ValueBounds(s[..i], B);
      PowerPositive(B, i);
      MulLeRight(s[i], -1, Power(B, i));
    }
  }

  /** Digits of length n denote a number in [0, B^n). */
  lemma {:induction false} ValueBounds(s: seq<int>, B: Radix)
    requires IsDigits(s, B)
    ensures 0 <= Value(s, B) < Power(B, |s|)
  {
    if |s| > 0 {
      ValueBounds(s[1..], B);
      BoundsArith(s[0], Value(s[1..], B), Power(B, |s| - 1), B);
    }
  }

  /** A non-empty normalized digit sequence is at least B^(n-1). */
  lemma {:induction false} NormalizedLowerBound(s: seq<int>, B: Radix)
    requires IsDigits(s, B) && Normalized(s) && |s| > 0
    ensures Power(B, |s| - 1) <= Value(s, B)
  {
    ValueAtLeastDigit(s, |s| - 1, B);
    PowerPositive(B, |s| - 1);
    MulGrows(Power(B, |s| - 1), s[|s| - 1]);
  }

  /** Normalized digit sequences are ordered by length first. */
  lemma {:induction false} NormalizedLengthOrder(s: seq<int>, t: seq<int>, B: Radix)
    requires IsDigits(s, B) && Normalized(s) && IsDigits(t, B) && Normalized(t)
    requires |s| < |t|
    ensures Value(s, B) < Value(t, B)
  {
    ValueBounds(s, B);
    NormalizedLowerBound(t, B);
    PowerMonotone(B, |s|, |t| - 1);
  }

  /** Value of a zero-extended buffer is unchanged. */
  lemma {:induction false} ValueZeros(n: nat, B: int)
    ensures Value(Zeros(n), B) == 0
  {
    if n > 0 {
      assert Zeros(n)[1..] == Zeros(n - 1);
      ValueZeros(n - 1, B);
    }
  }

  lemma {:induction false} ValueExtend(s: seq<int>, n: nat, B: int)
    ensures Value(s + Zeros(n), B) == Value(s, B)
  {
    ValueConcat(s, Zeros(n), B);
    ValueZeros(n, B);
  }

  /** A digit sequence whose two parts are digit sequences. */
  lemma {:induction false} DigitsJoin(s: seq<int>, k: nat, B: int)
    requires k <= |s| && IsDigits(s[..k], B) && IsDigits(s[k..], B)
    ensures IsDigits(s, B)
  {
    forall i | 0 <= i < |s|
      ensures 0 <= s[i] < B
    {
      if i < k {
        assert s[i] == s[..k][i];
      } else {
        assert s[i] == s[k..][i - k];
      }
    }
  }

  /** A slice of digits is digits. */
  lemma {:induction false} DigitsSlice(s: seq<int>, lo: nat, hi: nat, B: int)
    requires IsDigits(s, B) && lo <= hi <= |s|
    ensures IsDigits(s[lo..hi], B)
  {
    forall i | 0 <= i < hi - lo
      ensures 0 <= s[lo..hi][i] < B
    {
      assert s[lo..hi][i] == s[lo + i];
    }
  }

  lemma {:induction false} DigitsExtend(s: seq<int>, n: nat, B: int)
    requires IsDigits(s, B) && 0 < B
    ensures IsDigits(s + Zeros(n), B)
  {
  }

  lemma {:induction false} ValueResize(s: seq<int>, len: nat, B: int)
    requires |s| <= len
    ensures Value(Resize(s, len), B) == Value(s, B)
  {
    if len > |s| {
      assert Resize(s, len) == s + Zeros(len - |s|);
      ValueExtend(s, len - |s|, B);
    } else {
      assert Resize(s, len) == s;
    }
  }

  /**
   * A digit buffer whose value is below B^k has only zero digits from position k on,
   * so its first k digits carry its whole value.
   */
  lemma {:induction false} ValueTruncate(s: seq<int>, k: nat, B: Radix)
    requires IsDigits(s, B) && k <= |s| && Value(s, B) < Power(B, k)
    ensures Value(s[..k], B) == Value(s, B)
    ensures forall i :: k <= i < |s| ==> s[i] == 0
  {
    ValueSplit(s, k, B);
    ValueBounds(s[..k], B);
    ValueBounds(s[k..], B);
    PowerPositive(B, k);
    if Value(s[k..], B) != 0 {
      MulGrows(Power(B, k), Value(s[k..], B));
    }
    forall i | k <= i < |s|
      ensures s[i] == 0
    {
      ValueAtLeastDigit(s[k..], i - k, B);
      PowerPositive(B, i - k);
      if s[i] != 0 {
        MulGrows(Power(B, i - k), s[i]);
      }
    }
  }

  /** Digit sequences of equal length and equal value are identical. */
  lemma {:induction false} DigitsUnique(s: seq<int>, t: seq<int>, B: Radix)
    requires IsDigits(s, B) && IsDigits(t, B) && |s| == |t|
    requires Value(s, B) == Value(t, B)
    ensures s == t
  {
    if |s| > 0 {
      var vs, vt := Value(s[1..], B), Value(t[1..], B);
      assert s[0] + B * vs == t[0] + B * vt;
      assert B * (vs - vt) == t[0] - s[0];
      if vs < vt {
        MulLeRight(1, vt - vs, B);
      } else if vs > vt {
        MulLeRight(1, vs - vt, B);
      }
      DigitsUnique(s[1..], t[1..], B);
      assert s == [s[0]] + s[1..] && t == [t[0]] + t[1..];
    }
  }

  /** Normalized digit sequences of equal value are identical: the representation is canonical. */
  lemma {:induction false} NormalizedUnique(s: seq<int>, t: seq<int>, B: Radix)
    requires IsDigits(s, B) && Normalized(s) && IsDigits(t, B) && Normalized(t)
    requires Value(s, B) == Value(t, B)
    ensures s == t
  {
    if |s| < |t| {
      NormalizedLengthOrder(s, t, B);
    } else if |t| < |s| {
      NormalizedLengthOrder(t, s, B);
    } else {
      DigitsUnique(s, t, B);
    }
  }

  // ---------------------------------------------------------------- StripZeros

  /** StripZeros keeps a prefix, removes only zero digits, and leaves a normalized sequence. */
  lemma {:induction false} StripZerosShape(s: seq<int>)
    ensures |StripZeros(s)| <= |s| && StripZeros(s) == s[..|StripZeros(s)|]
    ensures forall i :: |StripZeros(s)| <= i < |s| ==> s[i] == 0
    ensures Normalized(StripZeros(s))
  {
    if |s| > 0 && s[|s| - 1] == 0 {
      StripZerosShape(s[..|s| - 1]);
    }
  }

  /** StripZeros does not change the value. */
  lemma {:induction false} StripZerosValue(s: seq<int>, B: int)
    ensures Value(StripZeros(s), B) == Value(s, B)
  {
    if |s| > 0 && s[|s| - 1] == 0 {
      StripZerosValue(s[..|s| - 1], B);
      assert s == s[..|s| - 1] + [0];
      ValueConcat(s[..|s| - 1], [0], B);
      ValueSingle(0, B);
    }
  }

  /** A normalized sequence is left alone; hence StripZeros is idempotent. */
  lemma {:induction false} NormalizedFixpoint(s: seq<int>)
    requires Normalized(s)
    ensures StripZeros(s) == s
  {
  }

  lemma {:induction false} StripZerosIdempotent(s: seq<int>)
    ensures StripZeros(StripZeros(s)) == StripZeros(s)
  {
    StripZerosShape(s);
    NormalizedFixpoint(StripZeros(s));
  }

  lemma {:induction false} StripZerosDigits(s: seq<int>, B: int)
    requires IsDigits(s, B)
    ensures IsDigits(StripZeros(s), B)
  {
    StripZerosShape(s);
  }

  // ---------------------------------------------------------------- ToDigits

  /** The expansion of n is a normalized digit sequence denoting n. */
  lemma {:induction false} ToDigitsCorrect(n: nat, B: Radix)
    ensures IsDigits(ToDigits(n, B), B) && Normalized(ToDigits(n, B))
    ensures Value(ToDigits(n, B), B) == n
  {
    if n > 0 {
      var d, m := n % B, n / B;
      DivDecompose(n, B);
      var rest := ToDigits(m, B);
      var r := [d] + rest;
      ToDigitsCorrect(m, B);
      assert ToDigits(n, B) == r;
      assert r[1..] == rest;
      assert Value(r, B) == d + B * Value(rest, B);
      if m == 0 {
        assert d == n;
      } else {
        assert r[|r| - 1] == rest[|rest| - 1];
      }
    }
  }

  /** Conversely, a normalized digit sequence is the expansion of its value. */
  lemma {:induction false} ValueToDigits(s: seq<int>, B: Radix)
    requires IsDigits(s, B) && Normalized(s)
    ensures 0 <= Value(s, B) && ToDigits(Value(s, B), B) == s
  {
    ValueBounds(s, B);
    ToDigitsCorrect(Value(s, B), B);
    NormalizedUnique(ToDigits(Value(s, B), B), s, B);
  }

  /**
   * One carry (c > 0) or borrow (c < 0) step on a buffer: dest[k] -= c·B and
   * dest[k+1] += c, which keeps the value of every window dest[off..] with off <= k.
   */
  method MoveCarry(B: int, dest: array<int>, off: nat, k: nat, c: int)
    requires off <= k && k + 1 < dest.Length
    modifies dest
    ensures dest[k] == old(dest[k]) - c * B && dest[k + 1] == old(dest[k + 1]) + c
    ensures forall j :: 0 <= j < dest.Length && j != k && j != k + 1 ==> dest[j] == old(dest[j])
    ensures dest[..off] == old(dest[..off])
    ensures Value(dest[off..], B) == old(Value(dest[off..], B))
  {
    ghost var w := dest[off..];
    dest[k] := dest[k] - c * B;
    dest[k + 1] := dest[k + 1] + c;
    assert dest[off..] == w[k - off := w[k - off] - c * B][k - off + 1 := w[k - off + 1] + c];
    CarryMove(w, k - off, c, B);
  }
}
