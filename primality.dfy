/** The primality test applied to every matrix cell: trial division by every
    divisor whose square does not exceed the candidate. */
module Primality {

  /** `d` divides `n` exactly. */
  predicate Divides(d: int, n: int) {
    d != 0 && n % d == 0
  }

  /** Mathematical primality: at least 2 and no divisor strictly between 1 and itself. */
  ghost predicate Prime(n: int) {
    n >= 2 && forall d :: 2 <= d < n ==> !Divides(d, n)
  }

  /** For positive numbers, comparing squares compares the numbers. */
  lemma SquareMonotone(a: int, b: int)
    requires 0 <= a && 0 <= b
    ensures a <= b <==> a * a <= b * b
  {
    if a <= b {
      assert a * a <= a * b <= b * b;
    } else {
      assert b * b <= b * a < a * a;
    }
  }

  /** Multiplying by a non-negative factor preserves order. */
  lemma MulMonotone(a: int, b: int, c: int)
    requires 0 <= a && b <= c
    ensures a * b <= a * c
  {
  }

  /** The cofactor of an exact divisor. */
  lemma Cofactor(n: int, d: int) returns (q: int)
    requires Divides(d, n)
    ensures n == d * q
  {
    q := n / d;
  }

  /** Each positive factor of a product divides it. */
  lemma FactorDivides(n: int, q: int, d: int)
    requires q > 0 && n == q * d
    ensures Divides(q, n)
  {
    var t, r := n / q, n % q;
    assert n == q * t + r && 0 <= r < q;
    assert r == q * (d - t);
    if d - t >= 1 {
      MulMonotone(q, 1, d - t);
      assert false;
    } else if d - t <= -1 {
      MulMonotone(q, d - t, -1);
      assert false;
    }
  }

  /** A composite number has a divisor no larger than its square root:
      either the divisor itself or its cofactor. */
  lemma {:induction false} SmallDivisor(n: int, d: int) returns (e: int)
    requires n >= 2 && 2 <= d < n && Divides(d, n)
    ensures 2 <= e && e * e <= n && Divides(e, n)
  {
    var q := Cofactor(n, d);
    if q <= 1 {
      MulMonotone(d, q, 1);
      assert false;
    }
    if d * d <= n {
      e := d;
    } else {
      if q >= d {
        MulMonotone(d, d, q);
        assert false;
      }
      MulMonotone(q, q, d);
      FactorDivides(n, q, d);
      e := q;
    }
  }

  /** Trial division up to (but excluding) `k` with `k * k > n` decides primality. */
  lemma {:induction false} PrimeByTrialDivision(n: int, k: int)
    requires n >= 2 && k >= 2 && k * k > n
    requires forall d :: 2 <= d < k ==> !Divides(d, n)
    ensures Prime(n)
  {
    forall d | 2 <= d < n
      ensures !Divides(d, n)
    {
      if Divides(d, n) {
        var e := SmallDivisor(n, d);
        SquareMonotone(e, k);
        assert false;
      }
    }
  }

  /** `isPrime`: 0 for every `n <= 1`; otherwise 0 as soon as a divisor
      `divisor` with `divisor * divisor <= n` divides `n`, and 1 when none does.
      The C result is an int used as a truth value, so it is kept as 0 or 1. */
  method IsPrime(n: int) returns (r: int)
    ensures r == 0 || r == 1
    ensures r == 1 <==> Prime(n)
  {
    var divisor := 2;
    if n <= 1 {
      return 0;
    }
    while divisor * divisor <= n
      invariant 2 <= divisor <= n
      invariant forall d :: 2 <= d < divisor ==> !Divides(d, n)
      decreases n - divisor
    {
      if n % divisor == 0 {
        assert divisor < n by {
          assert divisor * 2 <= divisor * divisor;
        }
        assert Divides(divisor, n);
        return 0;
      }
      assert divisor + 1 <= n by {
        assert divisor * 2 <= divisor * divisor;
      }
      divisor := divisor + 1;
    }
    PrimeByTrialDivision(n, divisor);
    return 1;
  }

  /** True when no `d` in `[lo, hi)` divides `n`; evaluated by unfolding on literals. */
  predicate NoDivisorIn(n: int, lo: int, hi: int)
    decreases hi - lo
  {
    lo >= hi || (!Divides(lo, n) && NoDivisorIn(n, lo + 1, hi))
  }

  lemma {:induction false} NoDivisorInSound(n: int, lo: int, hi: int)
    requires NoDivisorIn(n, lo, hi)
    ensures forall d :: lo <= d < hi ==> !Divides(d, n)
    decreases hi - lo
  {
    if lo < hi {
      NoDivisorInSound(n, lo + 1, hi);
    }
  }

  /** Sample values: -5, 0, 1, 4 and 25 are not prime; 2, 3, 17 and 997 are. */
  lemma PrimeExamples()
    ensures !Prime(-5) && !Prime(0) && !Prime(1)
    ensures Prime(2) && Prime(3) && Prime(17) && Prime(997)
    ensures !Prime(4) && !Prime(25)
  {
    assert Divides(2, 4);
    assert Divides(5, 25);
    PrimeByTrialDivision(2, 2);
    PrimeByTrialDivision(3, 2);
    assert NoDivisorIn(17, 2, 5);
    NoDivisorInSound(17, 2, 5);
    PrimeByTrialDivision(17, 5);
    assert NoDivisorIn(997, 24, 32);
    assert NoDivisorIn(997, 16, 32);
    assert NoDivisorIn(997, 8, 32);
    assert NoDivisorIn(997, 2, 32);
    NoDivisorInSound(997, 2, 32);
    PrimeByTrialDivision(997, 32);
  }
}
