/**
  Three prime tables with one interface, on 32-bit integers: trial division on the fly, a
  sieve computed in advance, and a hybrid of the two.
 */
module PrimeTables {
  import opened PrimeNumbers
  import opened PrimeCertificates

  const INT_MAX := 0x7FFF_FFFF

  newtype int32 = x: int | -0x8000_0000 <= x <= 0x7FFF_FFFF

  /** The largest number whose square is representable as an int32. */
  const ROOT := 46340

  /** The largest prime below ROOT * ROOT. */
  const LAST_SAFE_PRIME := 2147395589

  /** The smallest prime whose double is not representable as an int32. */
  const FIRST_UNSAFE_STEP := 1073741827

  /** The outcome of a computation on 32-bit integers and bounded arrays. */
  datatype Outcome<T> = Answer(value: T) | Overflow | OutOfBounds

  // ---- trial division ----

  /** Trial division answers rightly, except that the square i*i overflows exactly for the
      primes from ROOT * ROOT on. */
  ghost function TrialOutcome(n: int): Outcome<bool> {
    if Prime(n) && n >= ROOT * ROOT then Overflow else Answer(Prime(n))
  }

  /** The search for a next prime finds it, unless it is one whose trial overflows. */
  ghost function SearchOutcome(p: int): Outcome<int> {
    if p < 0 then Answer(-1)
    else if NextPrime(p) >= ROOT * ROOT then Overflow
    else Answer(NextPrime(p))
  }

  class OnTheFlyPrimeTable {
    constructor () {}

    method IsPrime(n: int32) returns (r: Outcome<bool>)
      ensures r == TrialOutcome(n as int)
    {
      if n <= 1 {
        return Answer(false);
      }
      ghost var m := n as int;
      var i: int32 := 2;
      while true
        invariant 2 <= i as int <= ROOT + 1
        invariant i == 2 || (i as int - 1) * (i as int - 1) <= m
        invariant forall d | 2 <= d < i as int :: d < m && !Divides(d, m)
        decreases ROOT + 1 - i as int
      {
        if i as int * i as int > INT_MAX {
          SquareOverflow(i as int);
          TrialDivisionExact(m, i as int);
          return Overflow;
        }
        SquareFits(i as int);
        if i * i > n {
          TrialDivisionExact(m, i as int);
          if m >= ROOT * ROOT {
            SquareGrows(i as int, ROOT);
          }
          return Answer(true);
        }
        MulGap(i as int, 1, i as int);
        if n % i == 0 {
          assert Divides(i as int, m);
          return Answer(false);
        }
        i := i + 1;
      }
    }

    method GetNextPrime(p: int32) returns (r: Outcome<int>)
      ensures r == SearchOutcome(p as int)
    {
      if p as int + 1 > INT_MAX {
        return Overflow;
      }
      var n := p + 1;
      while n > 0
        invariant p < n
        invariant p >= 0 ==> n as int <= NextPrime(p as int)
        invariant p < 0 ==> n <= 0
        decreases INT_MAX - n as int
      {
        var found := IsPrime(n);
        if found != Answer(false) {
          return if found == Answer(true) then Answer(n as int) else Overflow;
        }
        if n as int + 1 > INT_MAX {
          return Overflow;
        }
        n := n + 1;
      }
      return Answer(-1);
    }
  }

  /** The search overflows exactly from the last prime below ROOT * ROOT on. */
  lemma SearchOverflowsIff(p: int)
    ensures SearchOutcome(p).Overflow? <==> p >= LAST_SAFE_PRIME
  {
    LastPrimeBelowSquare();
  }

  /** There are arguments whose trial overflows: the largest of all is one. */
  lemma LargestOverflows()
    ensures TrialOutcome(INT_MAX) == Overflow
  {
    Prime2147483647();
  }

  lemma SquareGrows(a: int, b: int)
    requires 0 <= a <= b
    ensures a * a <= b * b
  {
    assert a * a <= a * b <= b * b;
  }

  lemma SquareFits(i: int)
    requires 2 <= i && i * i <= INT_MAX
    ensures i <= ROOT
  {
    if i > ROOT {
      SquareGrows(ROOT + 1, i);
    }
  }

  lemma SquareOverflow(i: int)
    requires 2 <= i <= ROOT + 1 && i * i > INT_MAX
    ensures i == ROOT + 1
  {
    if i <= ROOT {
      SquareGrows(i, ROOT);
    }
  }

  // ---- the sieve ----

  /** Which entries are still marked once the multiples of all primes below i are crossed out. */
  ghost predicate Survives(n: int, i: int) {
    n >= 2 && forall p | Prime(p) && p < i && p < n :: !Divides(p, n)
  }

  /** Some step of the sieve is a prime whose double is too large. */
  ghost predicate HasUnsafeStep(max: int) {
    exists p :: Prime(p) && INT_MAX / 2 < p <= max
  }

  lemma UnsafeStepIff(max: int)
    ensures HasUnsafeStep(max) <==> max >= FIRST_UNSAFE_STEP
  {
    NextPrimeAboveHalf();
  }

  class PreCalculatedPrimeTable {
    const isPrimeSize: int32
    const isPrime: array<bool>

    ghost predicate Valid()
      reads isPrime
    {
      && isPrime.Length == isPrimeSize as int
      && 2 <= isPrimeSize as int <= FIRST_UNSAFE_STEP
      && forall n | 0 <= n < isPrime.Length :: isPrime[n] <==> Prime(n)
    }

    constructor (max: int32)
      requires 1 <= max as int < FIRST_UNSAFE_STEP
      ensures Valid() && isPrimeSize == max + 1 && fresh(isPrime)
    {
      isPrimeSize := max + 1;
      isPrime := new bool[max + 1];
      new;
      UnsafeStepIff(max as int);
      var overflow := CalculatePrimesUpTo(max);
    }

    /** The sieve of Eratosthenes; composite steps are skipped. A step overflows exactly if
        there is a prime in the table whose double does. */
    method CalculatePrimesUpTo(max: int32) returns (overflow: bool)
      requires 1 <= max as int < INT_MAX
      requires isPrime.Length == isPrimeSize as int && isPrimeSize == max + 1
      modifies isPrime
      ensures overflow <==> HasUnsafeStep(max as int)
      ensures !overflow ==> Valid()
    {
      forall n | 0 <= n < isPrime.Length {
        isPrime[n] := true;
      }
      isPrime[0], isPrime[1] := false, false;
      UnsafeStepIff(max as int);
      var i: int32 := 2;
      while i <= max
        invariant 2 <= i <= max + 1
        invariant forall p | Prime(p) && p < i as int :: p <= INT_MAX / 2
        invariant forall n | 0 <= n < isPrime.Length :: isPrime[n] <==> Survives(n, i as int)
      {
        SurvivorIsPrime(i as int);
        StepSurvivors(i as int);
        if isPrime[i] {
          overflow := CrossOut(max, i);
          if overflow {
            return true;
          }
        }
        i := i + 1;
      }
      forall n | 2 <= n < isPrime.Length
        ensures Survives(n, i as int) <==> Prime(n)
      {
        PrimeIffNoSmallerPrimeFactor(n);
      }
      return false;
    }

    /** Crosses out all multiples of i except i itself. */
    method CrossOut(max: int32, i: int32) returns (overflow: bool)
      requires 2 <= i <= max && max as int < INT_MAX && isPrime.Length == max as int + 1
      modifies isPrime
      ensures overflow ==> i as int > INT_MAX / 2 || max as int >= FIRST_UNSAFE_STEP
      ensures i as int > INT_MAX / 2 ==> overflow
      ensures !overflow ==> forall n | 0 <= n < isPrime.Length ::
                isPrime[n] <==> old(isPrime[n]) && !(i as int < n && Divides(i as int, n))
    {
      if 2 * i as int > INT_MAX {
        return true;
      }
      DividesProduct(i as int, 2);
      NoMultipleBetween(i as int, i as int);
      var j: int32 := 2 * i;
      while j <= max
        invariant 2 * i <= j && Divides(i as int, j as int)
        invariant forall n | 0 <= n < isPrime.Length ::
                    isPrime[n] <==> old(isPrime[n]) && !(i as int < n < j as int && Divides(i as int, n))
        decreases INT_MAX - j as int
      {
        isPrime[j] := false;
        NoMultipleBetween(i as int, j as int);
        if j as int + i as int > INT_MAX {
          return true;
        }
        j := j + i;
      }
      return false;
    }

    method IsPrime(n: int32) returns (b: bool)
      requires Valid()
      ensures b <==> n < isPrimeSize && Prime(n as int)
    {
      return 0 <= n < isPrimeSize && isPrime[n];
    }

    /** The smallest prime above p, or -1 if it is beyond the capacity of the table. */
    method GetNextPrime(p: int32) returns (r: Outcome<int>)
      requires Valid()
      ensures r == if p < -1 then OutOfBounds
                   else if p as int == INT_MAX then Overflow
                   else if NextPrime(p as int) < isPrimeSize as int then Answer(NextPrime(p as int))
                   else Answer(-1)
    {
      if p as int + 1 > INT_MAX {
        return Overflow;
      }
      var n := p + 1;
      while n < isPrimeSize
        invariant p < n && (p < -1 ==> n < 0)
        invariant p >= -1 ==> n as int <= NextPrime(p as int) || NextPrime(p as int) >= isPrimeSize as int
      {
        if n < 0 {
          return OutOfBounds;
        }
        if isPrime[n] {
          return Answer(n as int);
        }
        n := n + 1;
      }
      return Answer(-1);
    }
  }

  /** When the sieve reaches i, the entry is still marked exactly if i is prime. */
  lemma SurvivorIsPrime(i: int)
    requires i >= 2
    ensures Survives(i, i) <==> Prime(i)
  {
    PrimeIffNoSmallerPrimeFactor(i);
  }

  /** Crossing out the multiples of a prime step, or skipping a composite one, keeps the
      marks of exactly the numbers with no smaller prime factor up to the step. */
  lemma StepSurvivors(i: int)
    requires i >= 2
    ensures forall n :: Survives(n, i + 1) <==>
              Survives(n, i) && !(Prime(i) && i < n && Divides(i, n))
  {
  }

  lemma NoMultipleBetween(i: int, j: int)
    requires i > 0 && Divides(i, j)
    ensures Divides(i, j + i)
    ensures forall n | j < n < j + i :: !Divides(i, n)
  {
    var k := j / i;
    assert j + i == i * (k + 1);
    DividesProduct(i, k + 1);
    forall n | j < n < j + i
      ensures !Divides(i, n)
    {
      RemainderUnique(n, i, k, n - j);
    }
  }

  // ---- the hybrid ----

  class HybridPrimeTable {
    const onTheFlyImpl: OnTheFlyPrimeTable
    const precalcImpl: PreCalculatedPrimeTable?
    const maxPrecalculated: int32

    ghost predicate Valid()
      reads if precalcImpl == null then {} else {precalcImpl.isPrime}
    {
      precalcImpl != null ==>
        precalcImpl.Valid() && precalcImpl.isPrimeSize as int == maxPrecalculated as int + 1
    }

    constructor (forceOnTheFly: bool, maxPrecalculated: int32)
      requires forceOnTheFly || 1 <= maxPrecalculated as int < FIRST_UNSAFE_STEP
      ensures Valid() && this.maxPrecalculated == maxPrecalculated
      ensures precalcImpl == null <==> forceOnTheFly
    {
      onTheFlyImpl := new OnTheFlyPrimeTable();
      var table: PreCalculatedPrimeTable? := null;
      if !forceOnTheFly {
        table := new PreCalculatedPrimeTable(maxPrecalculated);
      }
      precalcImpl := table;
      this.maxPrecalculated := maxPrecalculated;
    }

    /** Agrees with trial division everywhere. */
    method IsPrime(n: int32) returns (r: Outcome<bool>)
      requires Valid()
      ensures r == TrialOutcome(n as int)
    {
      if precalcImpl != null && n < maxPrecalculated {
        var b := precalcImpl.IsPrime(n);
        r := Answer(b);
      } else {
        r := onTheFlyImpl.IsPrime(n);
      }
    }

    /** Agrees with the search on the fly for all p >= 0, also when the next prime lies
        beyond the table; a table also answers for p == -1, and for no smaller p. */
    method GetNextPrime(p: int32) returns (r: Outcome<int>)
      requires Valid()
      ensures r == if precalcImpl == null || p >= 0 then SearchOutcome(p as int)
                   else if p < -1 then OutOfBounds
                   else if maxPrecalculated >= 2 then Answer(2)
                   else Answer(-1)
    {
      var nextPrime := Answer(-1);
      if precalcImpl != null && p < maxPrecalculated {
        nextPrime := precalcImpl.GetNextPrime(p);
      }
      if nextPrime != Answer(-1) {
        r := nextPrime;
      } else {
        r := onTheFlyImpl.GetNextPrime(p);
      }
      assert IsNextPrime(-1, 2);
    }
  }
}
