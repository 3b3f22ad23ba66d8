/** MULTIPLICATION: the schoolbook array kernel. */
module Multiplication {
  import opened Arith
  import opened Digits

  /**
   * mulArray: dest = x * y, digit-wise, in O(|x|·|y|) steps.
   * dest has exactly |x| + |y| entries, which always suffice for the product.
   */
  method MulArray(B: Radix, dest: array<int>, x: seq<int>, y: seq<int>)
    requires dest.Length == |x| + |y| && IsDigits(x, B) && IsDigits(y, B)
    modifies dest
    ensures IsDigits(dest[..], B)
    ensures Value(dest[..], B) == Value(x, B) * Value(y, B)
  {
    for k := 0 to dest.Length
      invariant forall m :: 0 <= m < k ==> dest[m] == 0
    {
      dest[k] := 0;
    }
    assert dest[..] == Zeros(dest.Length);
    ValueZeros(dest.Length, B);
    var i := 0;
    while i < |x|
      invariant 0 <= i <= |x|
      invariant IsDigits(dest[..], B)
      invariant forall k :: i + |y| <= k < dest.Length ==> dest[k] == 0
      invariant Value(dest[..], B) == Value(x[..i], B) * Value(y, B)
    {
      MulRow(B, dest, i, x[i], y);
      ValuePrefixStep(x, i, B);
      RowAccumulate(Value(x[..i], B), Power(B, i), x[i], Value(y, B));
      i := i + 1;
    }
    assert x[..i] == x;
  }

  /**
   * The inner loop of mulArray for row i: dest += x_i * y * B^i, carrying each
   * step into the next position. Entries from i + |y| on are still zero.
   */
  method MulRow(B: Radix, dest: array<int>, i: nat, xi: int, y: seq<int>)
    requires i + |y| < dest.Length && 0 <= xi < B && IsDigits(y, B)
    requires IsDigits(dest[..], B)
    requires forall k :: i + |y| <= k < dest.Length ==> dest[k] == 0
    modifies dest
    ensures IsDigits(dest[..], B)
    ensures forall k :: i + |y| < k < dest.Length ==> dest[k] == 0
    ensures Value(dest[..], B) == old(Value(dest[..], B)) + Power(B, i) * (xi * Value(y, B))
  {
    ghost var v0 := Value(dest[..], B);
    var j := 0;
    while j < |y|
      invariant 0 <= j <= |y|
      invariant forall k :: 0 <= k < dest.Length && k != i + j ==> 0 <= dest[k] < B
      invariant 0 <= dest[i + j] <= 2 * B - 2
      invariant j == 0 || j == |y| ==> dest[i + j] < B
      invariant forall k :: i + j < k < dest.Length && i + |y| <= k ==> dest[k] == 0
      invariant Value(dest[..], B) == v0 + Power(B, i) * (xi * Value(y[..j], B))
    {
      MulStep(B, dest, i + j, xi, y[j]);
      ValuePrefixStep(y, j, B);
      PowerAdd(B, i, j);
      RowStep(Power(B, i), Power(B, j), Power(B, i + j), xi, Value(y[..j], B), y[j]);
      j := j + 1;
    }
    assert y[..j] == y;
  }

  /**
   * One step of the inner loop: dest[k] += a * b, then push dest[k] / B into
   * dest[k + 1] and keep dest[k] % B.
   */
  method MulStep(B: Radix, dest: array<int>, k: nat, a: int, b: int)
    requires k + 1 < dest.Length && 0 <= a < B && 0 <= b < B
    requires 0 <= dest[k] <= 2 * B - 2 && 0 <= dest[k + 1]
    modifies dest
    ensures 0 <= dest[k] < B && 0 <= dest[k + 1] - old(dest[k + 1]) < B
    ensures forall m :: 0 <= m < dest.Length && m != k && m != k + 1 ==> dest[m] == old(dest[m])
    ensures Value(dest[..], B) == old(Value(dest[..], B)) + Power(B, k) * (a * b)
  {
    ghost var s := dest[..];
    var t := dest[k] + a * b;
    DigitProductBound(B, dest[k], a, b);
    CarryDigit(B, t);
    dest[k] := t;
    assert dest[..] == s[k := t];
    ValueUpdate(s, k, t, B);
    ghost var s1 := dest[..];
    var c := t / B;
    dest[k + 1] := dest[k + 1] + c;
    dest[k] := t % B;
    assert dest[..] == s1[k := s1[k] - c * B][k + 1 := s1[k + 1] + c];
    CarryMove(s1, k, c, B);
  }
}
