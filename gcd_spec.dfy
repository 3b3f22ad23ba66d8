/** GCD SPECIFICATION: divisibility, the greatest common divisor, and Euclid's step. */
module GcdSpec {
  import opened Arith

  /** d divides n; zero divides only zero. */
  predicate Divides(d: nat, n: nat)
  {
    if d == 0 then n == 0 else n % d == 0
  }

  /** g is a common divisor of a and b that every common divisor divides. */
  ghost predicate IsGcd(g: nat, a: nat, b: nat)
  {
    Divides(g, a) && Divides(g, b) &&
    forall d: nat :: Divides(d, a) && Divides(d, b) ==> Divides(d, g)
  }

  /** The pairs (a, b) and (c, e) have the same common divisors. */
  ghost predicate SameCommonDivisors(a: nat, b: nat, c: nat, e: nat)
  {
    forall d: nat :: (Divides(d, a) && Divides(d, b)) <==> (Divides(d, c) && Divides(d, e))
  }

  /** A divisor d of b divides a exactly when it divides a mod b. */
  lemma {:induction false} DivisorOfRemainder(a: nat, b: nat, d: nat)
    requires 0 < b && 0 < d && b % d == 0
    ensures a % d == 0 <==> (a % b) % d == 0
  {
    var k := b / d;
    DivModUnique(b, d, k, 0);
    assert b == d * k;
    var q, r := a / b, a % b;
    assert a == b * q + r;
    assert b * q == d * (k * q);
    if a % d == 0 {
      var m := a / d;
      assert a == d * m;
      assert r == d * (m - k * q);
      DivModUnique(r, d, m - k * q, 0);
    }
    if r % d == 0 {
      var m := r / d;
      assert r == d * m;
      assert a == d * (k * q + m);
      DivModUnique(a, d, k * q + m, 0);
    }
  }

  /** Euclid's step: (a, b) and (b, a mod b) have the same common divisors. */
  lemma {:induction false} EuclidStep(a: nat, b: nat)
    requires 0 < b
    ensures SameCommonDivisors(a, b, b, a % b)
  {
    forall d: nat
      ensures (Divides(d, a) && Divides(d, b)) <==> (Divides(d, b) && Divides(d, a % b))
    {
      if 0 < d && b % d == 0 {
        DivisorOfRemainder(a, b, d);
      }
    }
  }

  /** Having the same common divisors is transitive. */
  lemma {:induction false} SameCommonDivisorsTrans(a: nat, b: nat, c: nat, e: nat, f: nat, g: nat)
    requires SameCommonDivisors(a, b, c, e) && SameCommonDivisors(c, e, f, g)
    ensures SameCommonDivisors(a, b, f, g)
  {
  }

  /** Every number divides itself and divides zero. */
  lemma {:induction false} DividesSelfAndZero(a: nat)
    ensures Divides(a, a) && Divides(a, 0)
  {
    if a > 0 {
      DivExact(a, 1);
      DivExact(a, 0);
    }
  }

  /** gcd(x, 0) = x. */
  lemma {:induction false} GcdWithZero(a: nat)
    ensures IsGcd(a, a, 0)
  {
    DividesSelfAndZero(a);
  }

  /** When Euclid's loop reaches (g, 0), g is the gcd of the pair it started from. */
  lemma {:induction false} GcdFromCommonDivisors(g: nat, a: nat, b: nat)
    requires SameCommonDivisors(g, 0, a, b)
    ensures IsGcd(g, a, b)
  {
    DividesSelfAndZero(g);
    assert Divides(g, g) && Divides(g, 0);
  }

  /** The greatest common divisor is unique. */
  lemma {:induction false} GcdUnique(g: nat, h: nat, a: nat, b: nat)
    requires IsGcd(g, a, b) && IsGcd(h, a, b)
    ensures g == h
  {
    assert Divides(g, h) && Divides(h, g);
    if g != 0 && h != 0 {
      DivDecompose(h, g);
      DivDecompose(g, h);
      MulGrows(g, h / g);
      MulGrows(h, g / h);
    }
  }
}
