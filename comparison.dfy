/** COMPARISON of digit buffers. */
module Comparison {
  import opened Arith
  import opened Digits

  /**
   * Two equal-length digit sequences that agree above position i and differ at
   * position i are ordered by that digit.
   */
  lemma {:induction false} AboveDifferingDigit(s: seq<int>, t: seq<int>, i: nat, B: Radix)
    requires IsDigits(s, B) && IsDigits(t, B) && |s| == |t| && i < |s|
    requires forall k :: i < k < |s| ==> s[k] == t[k]
    requires s[i] < t[i]
    ensures Value(s, B) < Value(t, B)
  {
    assert s[i + 1..] == t[i + 1..];
    ValueSplit(s, i + 1, B);
    ValueSplit(t, i + 1, B);
    ValuePrefixStep(s, i, B);
    ValuePrefixStep(t, i, B);
    assert IsDigits(s[..i], B) && IsDigits(t[..i], B);
    ValueBounds(s[..i], B);
    ValueBounds(t[..i], B);
    PlaceOrder(Value(s[..i], B), Value(t[..i], B), Power(B, i), s[i], t[i]);
  }

  /** The three-way comparison the comparison routines return: -1, 0 or 1. */
  function Order(x: int, y: int): (c: int)
    ensures c == -1 <==> x < y
    ensures c == 0 <==> x == y
    ensures c == 1 <==> x > y
  {
    if x < y then -1 else if x == y then 0 else 1
  }

  /**
   * compareDigits: -1, 0 or 1 as a is less than, equal to or greater than b.
   * Positions beyond a shorter buffer count as zero digits.
   */
  method CompareDigits(B: Radix, a: seq<int>, b: seq<int>) returns (c: int)
    requires IsDigits(a, B) && IsDigits(b, B)
    ensures c == Order(Value(a, B), Value(b, B))
  {
    var n := if |a| < |b| then |b| else |a|;
    ghost var pa, pb := Resize(a, n), Resize(b, n);
    ValueResize(a, n, B);
    ValueResize(b, n, B);
    var i := n - 1;
    while i >= |b|
      invariant |b| - 1 <= i < n
      invariant forall k :: i < k < n ==> pa[k] == pb[k]
    {
      if a[i] > 0 {
        AboveDifferingDigit(pb, pa, i, B);
        return 1;
      }
      i := i - 1;
    }
    while i >= |a|
      invariant -1 <= i < n && i < |b|
      invariant forall k :: i < k < n ==> pa[k] == pb[k]
    {
      if b[i] > 0 {
        AboveDifferingDigit(pa, pb, i, B);
        return -1;
      }
      i := i - 1;
    }
    while i >= 0
      invariant -1 <= i < n && i < |a| && i < |b|
      invariant forall k :: i < k < n ==> pa[k] == pb[k]
    {
      if a[i] < b[i] {
        AboveDifferingDigit(pa, pb, i, B);
        return -1;
      } else if a[i] > b[i] {
        AboveDifferingDigit(pb, pa, i, B);
        return 1;
      }
      i := i - 1;
    }
    assert pa == pb;
    return 0;
  }
}
