/**
 `calculateNthPrime`: counts primes upward from 4, having already counted 2
 and 3, and tests each candidate that is not a multiple of 2 or 3 by trial
 division from 4 up to its square root.

 The loop runs until the count reaches `n`; that it always does rests on
 there being a prime beyond every number, proved here from the least divisor
 of `m! + 1`.
 */
module Primes {
  import opened JavaSemantics

  predicate Divides(d: int, n: int)
    requires d != 0
  {
    n % d == 0
  }

  predicate IsPrime(p: int) {
    p >= 2 && forall d :: 2 <= d < p ==> !Divides(d, p)
  }

  /** The number of primes below `m`. */
  function PrimesBelow(m: int): nat
    decreases m
  {
    if m <= 2 then 0
    else PrimesBelow(m - 1) + (if IsPrime(m - 1) then 1 else 0)
  }

  /** The result of `calculateNthPrime(n)`. With the count starting at 2 and
      the last prime at 3, a negative `n` never enters the loop; for `n >= 2`
      the result is the `n`-th prime (2 being the first). */
  method CalculateNthPrime(n: int) returns (r: int)
    ensures n == 0 ==> r == 0
    ensures n == 1 ==> r == 2
    ensures n < 0 ==> r == 3
    ensures n >= 2 ==> IsPrime(r) && PrimesBelow(r) == n - 1
  {
    var primeCount := 2;
    var lastPrime := 3;

    if n == 0 {
      return 0;
    }
    if n == 1 {
      return 2;
    }

    var counter := 4;
    ghost var next := 5;
    assert PrimesBelow(4) == 2 by {
      assert IsPrime(2) && IsPrime(3);
    }

    while primeCount < n
      invariant 2 <= primeCount && (n >= 2 ==> primeCount <= n)
      invariant 4 <= counter && lastPrime < counter
      invariant n < 2 ==> lastPrime == 3
      invariant IsPrime(lastPrime) && PrimesBelow(lastPrime) == primeCount - 1
      invariant PrimesBelow(counter) == primeCount
      invariant IsPrime(next) && counter <= next
      decreases n - primeCount, next - counter
    {
      var counted := false;
      // Both operands are positive, so `%` agrees with Java's.
      if counter % 2 != 0 && counter % 3 != 0 {
        var temp := TrialDivision(counter);
        CandidateTest(counter, temp);
        if temp * temp > counter {
          PrimesBelowStep(counter);
          lastPrime := counter;
          primeCount := primeCount + 1;
          counted := true;
        }
      } else {
        assert !IsPrime(counter) by {
          if counter % 2 == 0 { assert Divides(2, counter); }
          else { assert Divides(3, counter); }
        }
      }
      if counter == next {
        assert counted;
        next := PrimeAtLeast(counter + 1);
      }
      counter := counter + 1;

      if primeCount == n {
        return lastPrime;
      }
    }
    return lastPrime;
  }

  /** The inner loop of `calculateNthPrime`: trial division from 4 while the square of
      the divisor does not exceed the candidate, stopping at the first divisor. */
  method TrialDivision(counter: int) returns (temp: int)
    requires counter >= 4
    ensures temp >= 4
    ensures forall t :: 4 <= t < temp ==> !Divides(t, counter)
    ensures temp * temp <= counter ==> Divides(temp, counter)
  {
    temp := 4;
    while temp * temp <= counter
      invariant 4 <= temp
      invariant forall t :: 4 <= t < temp ==> !Divides(t, counter)
      decreases counter - temp
    {
      assert temp <= counter by { assert temp <= temp * temp; }
      if counter % temp == 0 {
        break;
      }
      temp := temp + 1;
    }
  }

  /** For a candidate that is not a multiple of 2 or 3, the test
      `temp * temp > counter` that `calculateNthPrime` makes after trial
      division holds exactly when the candidate is prime. */
  lemma CandidateTest(c: int, temp: int)
    requires c >= 4 && c % 2 != 0 && c % 3 != 0 && temp >= 4
    requires forall t :: 4 <= t < temp ==> !Divides(t, c)
    requires temp * temp <= c ==> Divides(temp, c)
    ensures temp * temp > c <==> IsPrime(c)
  {
    if temp * temp > c {
      TrialDivisionFindsPrime(c, temp);
    } else {
      assert temp < c by { assert temp < temp * temp; }
      assert !IsPrime(c) by { assert Divides(temp, c); }
    }
  }

  /** Counting one more number: the count below `c + 1` includes `c` exactly when it is prime. */
  lemma PrimesBelowStep(c: int)
    requires IsPrime(c) && c >= 2
    ensures PrimesBelow(c + 1) == PrimesBelow(c) + 1
  {
  }

  /** A candidate of at least 5 that is odd, not a multiple of 3, and has no
      divisor in `[4, t)` with `t * t > c`, is prime. */
  lemma TrialDivisionFindsPrime(c: int, t: int)
    requires c >= 4 && c % 2 != 0 && c % 3 != 0 && t >= 4 && t * t > c
    requires forall k :: 4 <= k < t ==> !Divides(k, c)
    ensures IsPrime(c)
  {
    forall d | 2 <= d < c
      ensures !Divides(d, c)
    {
      if Divides(d, c) {
        SmallDivisor(c, d);
        var e :| 2 <= e <= d && e * e <= c && Divides(e, c);
        if e >= t {
          MulMonotone(t, e, t);
          MulMonotone(t, e, e);
        }
        assert false;
      }
    }
  }

  /** A proper divisor `d` of `c` comes with a divisor `e` of `c` where
      `2 <= e <= d` and `e * e <= c`. */
  lemma SmallDivisor(c: int, d: int)
    requires 2 <= d < c && Divides(d, c)
    ensures exists e :: 2 <= e <= d && e * e <= c && Divides(e, c)
  {
    var q := c / d;
    assert c == d * q;
    assert q >= 2 by {
      if q <= 1 { MulMonotone(q, 1, d); }
    }
    assert Divides(q, c) by {
      assert c == q * d;
      DivisionByFactor(c, q, d);
    }
    if d * d <= c {
      assert 2 <= d <= d && d * d <= c && Divides(d, c);
    } else {
      assert q <= d by {
        if q > d { MulMonotone(d, q, d); }
      }
      assert q * q <= c by { MulMonotone(q, d, q); }
      assert 2 <= q <= d && q * q <= c && Divides(q, c);
    }
  }

  lemma DivisionByFactor(c: int, q: int, d: int)
    requires q > 0 && c == q * d
    ensures c % q == 0
  {
    assert c / q == d by { DivisionExact(c, q, d); }
  }

  lemma DivisionExact(c: int, q: int, d: int)
    requires q > 0 && c == q * d
    ensures c / q == d && c % q == 0
  {
    var r := c % q;
    var k := c / q;
    assert c == q * k + r && 0 <= r < q;
    assert q * (d - k) == r;
    if d - k >= 1 {
      MulMonotone(1, d - k, q);
    } else if d - k <= -1 {
      MulMonotone(d - k, -1, q);
    }
  }

  lemma DividesTransitive(a: int, b: int, c: int)
    requires a > 0 && b > 0 && Divides(a, b) && Divides(b, c)
    ensures Divides(a, c)
  {
    var x := b / a;
    var y := c / b;
    assert b == a * x;
    assert c == b * y;
    assert c == a * (x * y);
    DivisionExact(c, a, x * y);
  }

  function Factorial(m: nat): (f: nat)
    ensures f >= 1
  {
    if m == 0 then 1 else m * Factorial(m - 1)
  }

  lemma {:induction false} FactorialDivisible(m: nat, d: int)
    requires 1 <= d <= m
    ensures Divides(d, Factorial(m))
  {
    if d == m {
      DivisionExact(Factorial(m), m, Factorial(m - 1));
    } else {
      FactorialDivisible(m - 1, d);
      var f := Factorial(m - 1);
      var k := f / d;
      assert f == d * k;
      assert Factorial(m) == d * (m * k);
      DivisionExact(Factorial(m), d, m * k);
    }
  }

  /** The least divisor of `n` from `k` on. */
  function LeastDivisorFrom(n: int, k: int): (d: int)
    requires 2 <= k <= n
    ensures k <= d <= n && Divides(d, n)
    ensures forall j :: k <= j < d ==> !Divides(j, n)
    decreases n - k
  {
    if Divides(k, n) then k
    else
      assert Divides(n, n);
      LeastDivisorFrom(n, k + 1)
  }

  /** The least divisor above 1 of any `n >= 2` is prime. */
  lemma LeastDivisorIsPrime(n: int)
    requires n >= 2
    ensures IsPrime(LeastDivisorFrom(n, 2))
  {
    var p := LeastDivisorFrom(n, 2);
    forall d | 2 <= d < p
      ensures !Divides(d, p)
    {
      if Divides(d, p) {
        DividesTransitive(d, p, n);
      }
    }
  }

  /** Euclid: beyond any number there is a prime. */
  lemma PrimeAtLeast(m: int) returns (p: int)
    ensures IsPrime(p) && p >= m
  {
    var k: nat := if m < 2 then 2 else m;
    var n := Factorial(k) + 1;
    p := LeastDivisorFrom(n, 2);
    LeastDivisorIsPrime(n);
    if p <= k {
      FactorialDivisible(k, p);
      var a := Factorial(k) / p;
      var b := n / p;
      assert Factorial(k) == p * a;
      assert n == p * b;
      assert p * (b - a) == 1;
      if b - a >= 1 {
        MulMonotone(1, b - a, p);
      } else {
        MulMonotone(b - a, 0, p);
      }
      assert false;
    }
  }
}
