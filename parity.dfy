/** PARITY: the two rules isEven uses, one for an even radix and one for an odd radix. */
module Parity {
  import opened Arith
  import opened Digits

  /** Sum of the parities of the digits, accumulated from the least significant end. */
  ghost function DigitParitySum(s: seq<int>): int
  {
    if |s| == 0 then 0 else DigitParitySum(s[..|s| - 1]) + s[|s| - 1] % 2
  }

  lemma {:induction false} PowerOdd(b: int, n: nat)
    requires b % 2 == 1
    ensures Power(b, n) % 2 == 1
  {
    if n > 0 {
      PowerOdd(b, n - 1);
      var p := Power(b, n - 1);
      OddFactorParity(0, b, p, 0);
      assert (0 + b * p) % 2 == (0 + p % 2) % 2;
    }
  }

  /** In an even radix every place above the first is even, so the lowest digit decides. */
  lemma {:induction false} EvenRadixParity(s: seq<int>, B: int)
    requires B % 2 == 0 && |s| > 0
    ensures Value(s, B) % 2 == s[0] % 2
  {
    var k := (B / 2) * Value(s[1..], B);
    assert B * Value(s[1..], B) == 2 * k;
    ParityShift(s[0], k);
  }

  /** In an odd radix every place value is odd, so the value has the parity of the digit sum. */
  lemma {:induction false} OddRadixParity(s: seq<int>, B: int)
    requires B % 2 == 1
    ensures Value(s, B) % 2 == DigitParitySum(s) % 2
  {
    if |s| > 0 {
      var n := |s| - 1;
      OddRadixParity(s[..n], B);
      ValuePrefixStep(s, n, B);
      assert s[..n + 1] == s;
      PowerOdd(B, n);
      OddFactorParity(Value(s[..n], B), Power(B, n), s[n], DigitParitySum(s[..n]));
    }
  }
}
