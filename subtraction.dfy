/** SUBTRACTION: the borrow-propagating array kernel. */
module Subtraction {
  import opened Arith
  import opened Digits

  /**
   * subArray: dest[off..] -= x digit-wise, then propagate borrows to the right.
   * The window dest[off..] must be at least x, so the difference is non-negative.
   */
  method SubArray(B: Radix, dest: array<int>, off: nat, x: seq<int>)
    requires off < dest.Length && off + |x| <= dest.Length
    requires IsDigits(dest[off..], B) && IsDigits(x, B)
    requires Value(x, B) <= Value(dest[off..], B)
    modifies dest
    ensures IsDigits(dest[off..], B)
    ensures Value(dest[off..], B) == old(Value(dest[off..], B)) - Value(x, B)
    ensures dest[..off] == old(dest[..off])
    ensures Value(dest[..], B) == old(Value(dest[..], B)) - Power(B, off) * Value(x, B)
  {
    ghost var diff := Value(dest[off..], B) - Value(x, B);
    SubDigitwise(B, dest, off, x);
    assert Value(dest[off..], B) == diff;
    var i := BorrowPass(B, dest, off, |x|);
    assert 0 <= Value(dest[off..], B) == diff;
    BorrowOut(B, dest, off, i);
    ValueWindow(old(dest[..]), dest[..], off, -Value(x, B), B);
    MulNeg(Power(B, off), Value(x, B));
  }

  /** First loop of subArray: dest[off + i] -= x[i], no borrows yet. */
  method SubDigitwise(B: Radix, dest: array<int>, off: nat, x: seq<int>)
    requires off + |x| <= dest.Length
    requires IsDigits(dest[off..], B) && IsDigits(x, B)
    modifies dest
    ensures dest[..off] == old(dest[..off])
    ensures forall j :: off <= j < off + |x| ==> -(B as int) < dest[j] < B
    ensures forall j :: off + |x| <= j < dest.Length ==> 0 <= dest[j] < B
    ensures Value(dest[off..], B) == old(Value(dest[off..], B)) - Value(x, B)
  {
    ghost var w0 := dest[off..];
    var i := 0;
    while i < |x|
      invariant 0 <= i <= |x|
      invariant Value(dest[off..], B) == Value(w0, B) - Value(x[..i], B)
      invariant forall j :: 0 <= j < dest.Length ==>
        dest[j] == if off <= j < off + i then old(dest[j]) - x[j - off] else old(dest[j])
    {
      ghost var w := dest[off..];
      dest[off + i] := dest[off + i] - x[i];
      assert dest[off..] == w[i := w[i] - x[i]];
      ValueUpdate(w, i, w[i] - x[i], B);
      assert (w[i] - x[i]) - w[i] == -x[i];
      MulNeg(Power(B, i), x[i]);
      ValuePrefixStep(x, i, B);
      i := i + 1;
    }
    assert x[..i] == x;
    forall j | off <= j < dest.Length
      ensures (if j < off + |x| then -(B as int) else 0) <= dest[j] < B
    {
      assert old(dest[j]) == w0[j - off];
    }
  }

  /**
   * Second loop of subArray: one borrow pass over positions [off, off+len-1).
   * Returns the position where the final borrow is still pending.
   */
  method BorrowPass(B: Radix, dest: array<int>, off: nat, len: nat) returns (i: nat)
    requires off < dest.Length && off + len <= dest.Length
    requires forall j :: off <= j < off + len ==> -(B as int) < dest[j] < B
    requires forall j :: off + len <= j < dest.Length ==> 0 <= dest[j] < B
    modifies dest
    ensures off + i < dest.Length
    ensures dest[..off] == old(dest[..off])
    ensures Value(dest[off..], B) == old(Value(dest[off..], B))
    ensures forall j :: off <= j < off + i ==> 0 <= dest[j] < B
    ensures -(B as int) <= dest[off + i] < B
    ensures forall j :: off + i < j < dest.Length ==> 0 <= dest[j] < B
  {
    i := 0;
    while i + 1 < len
      invariant 0 <= i && (len == 0 ==> i == 0) && (0 < len ==> i <= len - 1)
      invariant dest[..off] == old(dest[..off])
      invariant Value(dest[off..], B) == old(Value(dest[off..], B))
      invariant forall j :: off <= j < off + i ==> 0 <= dest[j] < B
      invariant -(B as int) <= dest[off + i] < B
      invariant forall j :: off + i < j < off + len ==> -(B as int) < dest[j] < B
      invariant forall j :: off + len <= j < dest.Length && off + i < j ==> 0 <= dest[j] < B
    {
      if dest[off + i] < 0 {
        MoveCarry(B, dest, off, off + i, -1);
      }
      i := i + 1;
    }
  }

  /** Third loop of subArray: the final borrow runs on as far as it needs to. */
  method BorrowOut(B: Radix, dest: array<int>, off: nat, i0: nat)
    requires off + i0 < dest.Length
    requires forall j :: off <= j < off + i0 ==> 0 <= dest[j] < B
    requires -(B as int) <= dest[off + i0] < B
    requires forall j :: off + i0 < j < dest.Length ==> 0 <= dest[j] < B
    requires 0 <= Value(dest[off..], B)
    modifies dest
    ensures IsDigits(dest[off..], B)
    ensures Value(dest[off..], B) == old(Value(dest[off..], B))
    ensures dest[..off] == old(dest[..off])
  {
    var i := i0;
    while dest[off + i] < 0
      invariant off + i < dest.Length
      invariant dest[..off] == old(dest[..off])
      invariant Value(dest[off..], B) == old(Value(dest[off..], B))
      invariant forall j :: off <= j < off + i ==> 0 <= dest[j] < B
      invariant -(B as int) <= dest[off + i] < B
      invariant forall j :: off + i < j < dest.Length ==> 0 <= dest[j] < B
      decreases dest.Length - i
    {
      ghost var w := dest[off..];
      assert w[..i] == dest[off..off + i];
      BorrowStaysInside(w, i, B);
      MoveCarry(B, dest, off, off + i, -1);
      i := i + 1;
    }
  }
}
