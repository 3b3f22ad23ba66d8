/** ADDITION: the carry-propagating array kernel. */
module Addition {
  import opened Digits

  /**
   * addArray: dest[off..] += x digit-wise, then propagate carries to the right.
   * The window dest[off..] must have room for the complete sum.
   */
  method AddArray(B: Radix, dest: array<int>, off: nat, x: seq<int>)
    requires off < dest.Length && off + |x| <= dest.Length
    requires IsDigits(dest[off..], B) && IsDigits(x, B)
    requires Value(dest[off..], B) + Value(x, B) < Power(B, dest.Length - off)
    modifies dest
    ensures IsDigits(dest[off..], B)
    ensures Value(dest[off..], B) == old(Value(dest[off..], B)) + Value(x, B)
    ensures dest[..off] == old(dest[..off])
    ensures Value(dest[..], B) == old(Value(dest[..], B)) + Power(B, off) * Value(x, B)
  {
    AddDigitwise(B, dest, off, x);
    var i := CarryPass(B, dest, off, |x|);
    CarryOut(B, dest, off, i);
    ValueWindow(old(dest[..]), dest[..], off, Value(x, B), B);
  }

  /** First loop of addArray: dest[off + i] += x[i], no carries yet. */
  method AddDigitwise(B: Radix, dest: array<int>, off: nat, x: seq<int>)
    requires off + |x| <= dest.Length
    requires IsDigits(dest[off..], B) && IsDigits(x, B)
    modifies dest
    ensures dest[..off] == old(dest[..off])
    ensures forall j :: off <= j < off + |x| ==> 0 <= dest[j] < 2 * B - 1
    ensures forall j :: off + |x| <= j < dest.Length ==> 0 <= dest[j] < B
    ensures Value(dest[off..], B) == old(Value(dest[off..], B)) + Value(x, B)
  {
    ghost var w0 := dest[off..];
    var i := 0;
    while i < |x|
      invariant 0 <= i <= |x|
      invariant Value(dest[off..], B) == Value(w0, B) + Value(x[..i], B)
      invariant forall j :: 0 <= j < dest.Length ==>
        dest[j] == if off <= j < off + i then old(dest[j]) + x[j - off] else old(dest[j])
    {
      ghost var w := dest[off..];
      dest[off + i] := dest[off + i] + x[i];
      assert dest[off..] == w[i := w[i] + x[i]];
      ValueUpdate(w, i, w[i] + x[i], B);
      ValuePrefixStep(x, i, B);
      i := i + 1;
    }
    assert x[..i] == x;
    forall j | off <= j < dest.Length
      ensures 0 <= dest[j] < if j < off + |x| then 2 * B - 1 else B
    {
      assert old(dest[j]) == w0[j - off];
    }
  }

  /**
   * Second loop of addArray: one carry pass over positions [off, off+len-1).
   * Returns the position where the final carry is still pending.
   */
  method CarryPass(B: Radix, dest: array<int>, off: nat, len: nat) returns (i: nat)
    requires off < dest.Length && off + len <= dest.Length
    requires forall j :: off <= j < off + len ==> 0 <= dest[j] < 2 * B - 1
    requires forall j :: off + len <= j < dest.Length ==> 0 <= dest[j] < B
    modifies dest
    ensures off + i < dest.Length
    ensures dest[..off] == old(dest[..off])
    ensures Value(dest[off..], B) == old(Value(dest[off..], B))
    ensures forall j :: off <= j < off + i ==> 0 <= dest[j] < B
    ensures 0 <= dest[off + i] < 2 * B
    ensures forall j :: off + i < j < dest.Length ==> 0 <= dest[j] < B
  {
    i := 0;
    while i + 1 < len
      invariant 0 <= i && (len == 0 ==> i == 0) && (0 < len ==> i <= len - 1)
      invariant dest[..off] == old(dest[..off])
      invariant Value(dest[off..], B) == old(Value(dest[off..], B))
      invariant forall j :: off <= j < off + i ==> 0 <= dest[j] < B
      invariant 0 <= dest[off + i] < 2 * B
      invariant forall j :: off + i < j < off + len ==> 0 <= dest[j] < 2 * B - 1
      invariant forall j :: off + len <= j < dest.Length && off + i < j ==> 0 <= dest[j] < B
    {
      if dest[off + i] >= B {
        MoveCarry(B, dest, off, off + i, 1);
      }
      i := i + 1;
    }
  }

  /** Third loop of addArray: the final carry runs on as far as it needs to. */
  method CarryOut(B: Radix, dest: array<int>, off: nat, i0: nat)
    requires off + i0 < dest.Length
    requires forall j :: off <= j < off + i0 ==> 0 <= dest[j] < B
    requires 0 <= dest[off + i0] < 2 * B
    requires forall j :: off + i0 < j < dest.Length ==> 0 <= dest[j] < B
    requires Value(dest[off..], B) < Power(B, dest.Length - off)
    modifies dest
    ensures IsDigits(dest[off..], B)
    ensures Value(dest[off..], B) == old(Value(dest[off..], B))
    ensures dest[..off] == old(dest[..off])
  {
    var i := i0;
    while dest[off + i] >= B
      invariant off + i < dest.Length
      invariant dest[..off] == old(dest[..off])
      invariant Value(dest[off..], B) == old(Value(dest[off..], B))
      invariant forall j :: off <= j < off + i ==> 0 <= dest[j] < B
      invariant 0 <= dest[off + i] < 2 * B
      invariant forall j :: off + i < j < dest.Length ==> 0 <= dest[j] < B
      decreases dest.Length - i
    {
      ghost var w := dest[off..];
      assert NonNegative(w);
      CarryStaysInside(w, i, B);
      MoveCarry(B, dest, off, off + i, 1);
      i := i + 1;
    }
  }
}
