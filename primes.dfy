/** `findGreatestPrime` of the secondary maps: trial division upward from `index + 1`. */
module PrimeSearch {
  import opened Arithmetic

  /** At least 2 and divisible by no number in `[2, q)`. */
  predicate IsPrime(q: int)
  {
    q >= 2 && forall d :: 2 <= d < q ==> q % d != 0
  }

  /** Divisibility is transitive. */
  lemma DividesTrans(n: int, d: int, e: int)
    requires d > 0 && e > 0 && n % d == 0 && d % e == 0
    ensures n % e == 0
  {
    var a, b := n / d, d / e;
    assert n == d * a;
    assert d == e * b;
    assert n == e * (b * a);
    MultipleMod(e, b * a);
  }

  /** The least divisor above 1 of a number at least 2 is prime. */
  lemma LeastDivisorIsPrime(n: int, d: int)
    requires 2 <= d <= n && n % d == 0
    requires forall e :: 2 <= e < d ==> n % e != 0
    ensures IsPrime(d)
  {
    forall e | 2 <= e < d
      ensures d % e != 0
    {
      if d % e == 0 {
        DividesTrans(n, d, e);
      }
    }
  }

  /** Every number at least 2 has a prime divisor. */
  lemma PrimeDivisor(n: int) returns (p: int)
    requires n >= 2
    ensures IsPrime(p) && n % p == 0
  {
    p := 2;
    while n % p != 0
      invariant 2 <= p <= n
      invariant forall e :: 2 <= e < p ==> n % e != 0
      decreases n - p
    {
      p := p + 1;
    }
    LeastDivisorIsPrime(n, p);
  }

  function Factorial(n: nat): (r: nat)
    ensures r >= 1
  {
    if n == 0 then 1 else n * Factorial(n - 1)
  }

  /** Every number from 1 to `n` divides `n!`. */
  lemma {:induction false} FactorialMultiple(n: nat, d: int) returns (q: int)
    requires 1 <= d <= n
    ensures Factorial(n) == d * q
  {
    if d == n {
      q := Factorial(n - 1);
    } else {
      var q' := FactorialMultiple(n - 1, d);
      q := n * q';
      assert Factorial(n) == n * (d * q');
    }
  }

  /** Euclid: there is a prime above every number; a prime divisor of `n! + 1` is one. */
  lemma PrimeAbove(n: nat) returns (p: int)
    ensures IsPrime(p) && p > n
  {
    p := PrimeDivisor(Factorial(n) + 1);
    if p <= n {
      var q := FactorialMultiple(n, p);
      MultiplePlusOneMod(p, q);
    }
  }

  /** `findGreatestPrime(index)`: the least prime above `index` when `index >= 1`, and
      `index + 1` otherwise, where the loop body never runs. After a candidate fails, `i` is
      reset to 2 and then stepped to 3, so 2 is tried only on the first candidate; an even
      candidate after that is still rejected, by its half. */
  method FindGreatestPrime(index: int) returns (r: int)
    ensures index >= 1 ==> r > index && IsPrime(r) && forall q :: index < q < r ==> !IsPrime(q)
    ensures index <= 0 ==> r == index + 1
  {
    var nonPrime := index;
    nonPrime := nonPrime + 1;
    ghost var bound := 2;
    if index >= 1 {
      bound := PrimeAbove(index);
    }
    ghost var bumped := false;
    var i := 2;
    while i < nonPrime
      invariant index + 1 <= nonPrime <= bound
      invariant index >= 1 ==> bound > index && IsPrime(bound)
      invariant forall q :: index < q < nonPrime ==> !IsPrime(q)
      invariant bumped ==> nonPrime >= 5 && i >= 3
      invariant !bumped ==> nonPrime == index + 1 && i >= 2 && (i > 2 ==> nonPrime % 2 != 0)
      invariant forall d :: 3 <= d < i ==> nonPrime % d != 0
      invariant i <= nonPrime || i == 2
      decreases bound - nonPrime, nonPrime - i
    {
      if nonPrime % i == 0 {
        assert !IsPrime(nonPrime);
        nonPrime := nonPrime + 1;
        i := 2;
        bumped := true;
      }
      i := i + 1;
    }
    if index >= 1 && bumped && nonPrime % 2 == 0 {
      var half := nonPrime / 2;
      assert nonPrime == half * 2;
      MultipleMod(half, 2);
      assert false;
    }
    r := nonPrime;
  }
}
