/** The arithmetic behind the prime tables: prime factors, trial division, and Euclid's theorem. */
module PrimeNumbers {

  ghost predicate Divides(d: int, n: int)
    requires d > 0
  {
    n % d == 0
  }

  ghost predicate Prime(n: int) {
    n >= 2 && forall d | 2 <= d < n :: !Divides(d, n)
  }

  /** r is the smallest prime above p. */
  ghost predicate IsNextPrime(p: int, r: int) {
    p < r && Prime(r) && forall q | p < q < r :: !Prime(q)
  }

  lemma {:induction false} MulGap(d: int, a: int, b: int)
    requires d > 0
    ensures a < b ==> d * a + d <= d * b
  {
    if a < b {
      var k := b - a - 1;
      assert d * k >= 0;
      assert b == a + 1 + k;
    }
  }

  lemma RemainderUnique(n: int, d: int, q: int, r: int)
    requires d > 0 && n == d * q + r && 0 <= r < d
    ensures n % d == r && n / d == q
  {
    MulGap(d, q, n / d);
    MulGap(d, n / d, q);
  }

  lemma DividesProduct(d: int, k: int)
    requires d > 0
    ensures Divides(d, d * k)
  {
    RemainderUnique(d * k, d, k, 0);
  }

  lemma DividesTrans(a: int, b: int, n: int)
    requires a > 0 && b > 0 && Divides(a, b) && Divides(b, n)
    ensures Divides(a, n)
  {
    var k, l := b / a, n / b;
    assert n == b * l == (a * k) * l == a * (k * l);
    DividesProduct(a, k * l);
  }

  lemma {:induction false} PrimeFactor(n: int) returns (p: int)
    requires n >= 2
    ensures Prime(p) && p <= n && Divides(p, n)
  {
    if Prime(n) {
      p := n;
      DividesProduct(n, 1);
    } else {
      var d :| 2 <= d < n && Divides(d, n);
      p := PrimeFactor(d);
      DividesTrans(p, d, n);
    }
  }

  /** Trial division up to the square root is exact. */
  lemma TrialDivisionExact(n: int, limit: int)
    requires n >= 2 && limit >= 2 && limit * limit > n
    requires forall d | 2 <= d < limit && d < n :: !Divides(d, n)
    ensures Prime(n)
  {
    forall d | 2 <= d < n
      ensures !Divides(d, n)
    {
      if d >= limit && Divides(d, n) {
        var k := n / d;
        assert n == d * k;
        Cofactor(n, d, k, limit);
        DividesProduct(k, d);
      }
    }
  }

  /** The cofactor of a divisor beyond the square root lies below it. */
  lemma Cofactor(n: int, d: int, k: int, limit: int)
    requires 2 <= limit <= d < n && n == d * k && limit * limit > n
    ensures 2 <= k < limit && k * d == n && k < n
  {
    MulGap(d, k, 2);
    MulGap(d, limit, k + 1);
    MulGap(limit, limit, d + 1);
    MulGap(k, 1, d);
  }

  // ---- there is always a larger prime ----

  ghost function Factorial(n: nat): (f: nat)
    ensures f >= 1
  {
    if n == 0 then 1 else n * Factorial(n - 1)
  }

  lemma {:induction false} DividesFactorial(d: nat, n: nat)
    requires 1 <= d <= n
    ensures Divides(d, Factorial(n))
  {
    var f := Factorial(n - 1);
    if d == n {
      DividesProduct(n, f);
    } else {
      DividesFactorial(d, n - 1);
      DividesProduct(f, n);
      assert f * n == Factorial(n);
      DividesTrans(d, f, Factorial(n));
    }
  }

  lemma LargerPrime(n: nat) returns (p: int)
    ensures Prime(p) && p > n
  {
    var f := Factorial(n);
    p := PrimeFactor(f + 1);
    if p <= n {
      DividesFactorial(p, n);
      RemainderUnique(f + 1, p, f / p, 1);
    }
  }

  lemma {:induction false} FirstPrimeAbove(p: int, bound: int) returns (r: int)
    requires p < bound && Prime(bound)
    ensures IsNextPrime(p, r)
    decreases bound - p
  {
    if q :| p < q < bound && Prime(q) {
      r := FirstPrimeAbove(p, q);
    } else {
      r := bound;
    }
  }

  lemma NextPrimeExists(p: int)
    ensures exists r :: IsNextPrime(p, r)
  {
    var bound := LargerPrime(if p < 0 then 0 else p);
    var r := FirstPrimeAbove(p, bound);
  }

  /** The smallest prime above p. */
  ghost function NextPrime(p: int): (r: int)
    ensures IsNextPrime(p, r)
    ensures forall s | IsNextPrime(p, s) :: s == r
  {
    NextPrimeExists(p);
    var r :| IsNextPrime(p, r);
    r
  }

  /** A composite number has a prime factor below itself; a prime has none. */
  lemma PrimeIffNoSmallerPrimeFactor(n: int)
    requires n >= 2
    ensures Prime(n) <==> forall p | Prime(p) && p < n :: !Divides(p, n)
  {
    if !Prime(n) {
      var d :| 2 <= d < n && Divides(d, n);
      var p := PrimeFactor(d);
      DividesTrans(p, d, n);
    }
  }
}
