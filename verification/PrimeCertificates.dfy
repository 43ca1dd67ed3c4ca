/**
  Certificates of primality for numbers too large for trial division: a power of x that is
  one shows how many residues there are modulo any divisor.
 */
module PrimeCertificates {
  import opened Collections
  import opened PrimeNumbers

  ghost function Pow(x: int, n: nat): int {
    if n == 0 then 1 else x * Pow(x, n - 1)
  }

  lemma {:induction false} PowAdd(x: int, m: nat, n: nat)
    ensures Pow(x, m + n) == Pow(x, m) * Pow(x, n)
  {
    if m > 0 {
      PowAdd(x, m - 1, n);
    }
  }

  // ---- remainders ----

  lemma AddMultiple(a: int, k: int, q: int)
    requires q > 0
    ensures (a + q * k) % q == a % q
  {
    RemainderUnique(a + q * k, q, a / q + k, a % q);
  }

  lemma ProductRemainder(a: int, b: int, q: int)
    requires q > 0
    ensures (a * b) % q == (a % q) * b % q
  {
    AddMultiple((a % q) * b, (a / q) * b, q);
    assert a * b == (a % q) * b + q * ((a / q) * b);
  }

  lemma SameTimes(a: int, b: int, c: int, q: int)
    requires q > 0 && a % q == b % q
    ensures (a * c) % q == (b * c) % q
  {
    ProductRemainder(a, c, q);
    ProductRemainder(b, c, q);
  }

  lemma RemainderOfDivisor(a: int, n: int, q: int)
    requires n > 0 && q > 0 && Divides(q, n)
    ensures a % q == (a % n) % q
  {
    AddMultiple(a % n, (n / q) * (a / n), q);
    assert a == a % n + q * ((n / q) * (a / n));
  }

  lemma OneBelow(a: int, n: int, q: int)
    requires n > 0 && q >= 2 && Divides(q, n) && a % n == 1
    ensures a % q == 1
  {
    RemainderOfDivisor(a, n, q);
    RemainderUnique(1, q, 0, 1);
  }

  // ---- powers that are one ----

  ghost predicate One(x: int, n: nat, q: int)
    requires q >= 2
  {
    Pow(x, n) % q == 1
  }

  lemma OneShift(x: int, m: nat, n: nat, q: int)
    requires q >= 2 && One(x, m, q)
    ensures Pow(x, m + n) % q == Pow(x, n) % q
  {
    PowAdd(x, m, n);
    ProductRemainder(Pow(x, m), Pow(x, n), q);
  }

  lemma {:induction false} OneMultiple(x: int, e: nat, k: nat, q: int)
    requires q >= 2 && One(x, e, q)
    ensures One(x, e * k, q)
  {
    if k > 0 {
      OneMultiple(x, e, k - 1, q);
      OneShift(x, e, e * (k - 1), q);
      assert e + e * (k - 1) == e * k;
    }
  }

  lemma OneWhereDivides(x: int, e: nat, n: nat, q: int)
    requires q >= 2 && e > 0 && One(x, e, q) && Divides(e, n)
    ensures One(x, n, q)
  {
    OneMultiple(x, e, n / e, q);
    assert e * (n / e) == n;
  }

  /** e is the order of x modulo q. */
  ghost predicate Order(x: int, e: nat, q: int)
    requires q >= 2
  {
    e > 0 && One(x, e, q) && forall k | 0 < k < e :: !One(x, k, q)
  }

  lemma {:induction false} HasOrder(x: int, r: nat, q: int) returns (e: nat)
    requires q >= 2 && r > 0 && One(x, r, q)
    ensures Order(x, e, q) && e <= r
    decreases r
  {
    if k :| 0 < k < r && One(x, k, q) {
      e := HasOrder(x, k, q);
    } else {
      e := r;
    }
  }

  lemma {:induction false} OrderDivides(x: int, e: nat, n: nat, q: int)
    requires q >= 2 && Order(x, e, q) && One(x, n, q)
    ensures Divides(e, n)
    decreases n
  {
    if n >= e {
      OneShift(x, e, n - e, q);
      OrderDivides(x, e, n - e, q);
      AddMultiple(n - e, 1, e);
    }
  }

  lemma PowersDiffer(x: int, e: nat, i: nat, j: nat, q: int)
    requires q >= 2 && Order(x, e, q) && i < j < e
    ensures Pow(x, i) % q != Pow(x, j) % q
  {
    if Pow(x, i) % q == Pow(x, j) % q {
      var gap := j - i;
      assert Pow(x, e) % q == Pow(x, e + gap) % q by {
        PowAdd(x, i, e - i);
        PowAdd(x, j, e - i);
        SameTimes(Pow(x, i), Pow(x, j), Pow(x, e - i), q);
      }
      OneShift(x, e, gap, q);
      assert One(x, gap, q);
    }
  }

  lemma PowerNotZero(x: int, e: nat, i: nat, q: int)
    requires q >= 2 && Order(x, e, q) && i < e
    ensures Pow(x, i) % q != 0
  {
    PowAdd(x, i, e - i);
    ProductRemainder(Pow(x, i), Pow(x, e - i), q);
  }

  /** The powers of x take as many values, none of them zero, as its order says. */
  lemma OrderBound(x: int, e: nat, q: int)
    requires q >= 2 && Order(x, e, q)
    ensures e < q
  {
    var powers := seq(e, i requires 0 <= i => Pow(x, i) % q);
    forall i, j | 0 <= i < j < e
      ensures powers[i] != powers[j]
    {
      PowersDiffer(x, e, i, j, q);
    }
    DistinctCount(powers);
    forall p | p in Elements(powers)
      ensures p in Range(q) - {0}
    {
      var i :| 0 <= i < e && powers[i] == p;
      PowerNotZero(x, e, i, q);
    }
    SubsetSize(Elements(powers), Range(q) - {0});
  }

  // ---- certificates ----

  /** x to the power a is one modulo no divisor of n. */
  ghost predicate NeverOne(n: int, x: int, a: nat) {
    forall q | q >= 2 && Divides(q, n) :: !One(x, a, q)
  }

  lemma LessOneIsZero(p: int, u: int, q: int)
    requires q >= 2 && p % q == 1
    ensures (p - 1) * u % q == 0
  {
    assert (p - 1) * u == 0 + q * ((p / q) * u);
    AddMultiple(0, (p / q) * u, q);
  }

  /** So it is when that power less one has an inverse modulo n. */
  lemma InverseShowsNeverOne(n: int, x: int, a: nat, u: int)
    requires n > 0 && (Pow(x, a) - 1) * u % n == 1
    ensures NeverOne(n, x, a)
  {
    forall q | q >= 2 && Divides(q, n)
      ensures !One(x, a, q)
    {
      OneBelow((Pow(x, a) - 1) * u, n, q);
      if One(x, a, q) {
        LessOneIsZero(Pow(x, a), u, q);
      }
    }
  }

  lemma OrderIs(x: int, r: nat, a: nat, b: nat, q: int)
    requires q >= 2 && r > 0 && One(x, r, q) && !One(x, a, q) && !One(x, b, q)
    requires forall e | 0 < e < r && Divides(e, r) :: Divides(e, a) || Divides(e, b)
    ensures Order(x, r, q)
  {
    var e := HasOrder(x, r, q);
    if e < r {
      OrderDivides(x, e, r, q);
      OneWhereDivides(x, e, if Divides(e, a) then a else b, q);
    }
  }

  lemma SquaresGrow(a: int, b: int)
    requires 0 <= a <= b
    ensures a * a <= a * b <= b * b
  {
  }

  /** A composite number has a divisor up to its square root. */
  lemma SmallDivisor(n: int) returns (q: int)
    requires n >= 2 && !Prime(n)
    ensures q >= 2 && Divides(q, n) && q * q <= n
  {
    var d :| 2 <= d < n && Divides(d, n);
    var k := n / d;
    assert n == d * k;
    if d <= k {
      q := d;
      SquaresGrow(d, k);
    } else {
      q := k;
      SquaresGrow(k, d);
      SwapCofactor(n, d, k);
    }
  }

  lemma SwapCofactor(n: int, d: int, k: int)
    requires 2 <= d < n && n == d * k
    ensures k >= 2 && Divides(k, n) && n == k * d
  {
    MulGap(d, k, 2);
    MulGap(d, 1, k);
    DividesProduct(k, d);
  }

  lemma OneModuloDivisor(x: int, r: nat, n: int, q: int)
    requires n >= 2 && q >= 2 && One(x, r, n) && Divides(q, n)
    ensures One(x, r, q)
  {
    OneBelow(Pow(x, r), n, q);
  }

  lemma DivisorsAreLarge(n: int, x: int, r: nat, a: nat, b: nat, q: int)
    requires n >= 2 && r > 0 && One(x, r, n) && NeverOne(n, x, a) && NeverOne(n, x, b)
    requires forall e | 0 < e < r && Divides(e, r) :: Divides(e, a) || Divides(e, b)
    requires q >= 2 && Divides(q, n)
    ensures r < q
  {
    OneModuloDivisor(x, r, n, q);
    OrderIs(x, r, a, b, q);
    OrderBound(x, r, q);
  }

  /** A number n is prime if some x has a large enough order r, the same one modulo all
      divisors of n. */
  lemma CertifiesPrime(n: int, x: int, r: nat, a: nat, b: nat)
    requires n >= 2 && r > 0 && One(x, r, n) && NeverOne(n, x, a) && NeverOne(n, x, b)
    requires forall e | 0 < e < r && Divides(e, r) :: Divides(e, a) || Divides(e, b)
    requires (r + 1) * (r + 1) > n
    ensures Prime(n)
  {
    if !Prime(n) {
      var q := SmallDivisor(n);
      DivisorsAreLarge(n, x, r, a, b, q);
      SquaresGrow(r + 1, q);
    }
  }

  // ---- divisors of the order ----

  /** The least positive m whose product with b is a multiple of q. */
  ghost predicate LeastMultiplier(q: int, b: int, m: nat)
    requires q > 0
  {
    m > 0 && Divides(q, m * b) && forall k | 0 < k < m :: !Divides(q, k * b)
  }

  lemma {:induction false} HasLeastMultiplier(q: int, b: int, n: nat) returns (m: nat)
    requires q > 0 && n > 0 && Divides(q, n * b)
    ensures LeastMultiplier(q, b, m)
  {
    if k :| 0 < k < n && Divides(q, k * b) {
      m := HasLeastMultiplier(q, b, k);
    } else {
      m := n;
    }
  }

  lemma DifferenceDivides(q: int, b: int, m: nat, n: nat)
    requires q > 0 && Divides(q, m * b) && Divides(q, n * b)
    ensures Divides(q, (n - m) * b)
  {
    var k := m * b / q;
    assert (n - m) * b == n * b - m * b == n * b + q * -k;
    AddMultiple(n * b, -k, q);
  }

  lemma {:induction false} LeastMultiplierDivides(q: int, b: int, m: nat, n: nat)
    requires q > 0 && LeastMultiplier(q, b, m) && Divides(q, n * b)
    ensures Divides(m, n)
    decreases n
  {
    if n >= m {
      DifferenceDivides(q, b, m, n);
      LeastMultiplierDivides(q, b, m, n - m);
      AddMultiple(n - m, 1, m);
    }
  }

  /** A prime that divides a product divides one of the factors. */
  lemma EuclidsLemma(q: int, a: nat, b: nat)
    requires Prime(q) && Divides(q, a * b)
    ensures Divides(q, a) || Divides(q, b)
  {
    DividesProduct(q, b);
    var m := HasLeastMultiplier(q, b, q);
    LeastMultiplierDivides(q, b, m, q);
    LeastMultiplierDivides(q, b, m, a);
    if m == 1 {
      assert 1 * b == b;
    }
  }

  lemma DivisorOfPrime(p: int, e: nat)
    requires Prime(p) && e > 0 && Divides(e, p)
    ensures e == 1 || e == p
  {
    if e > p {
      RemainderUnique(p, e, 0, p);
    }
  }

  /** A proper divisor of a product of two primes divides one of them. */
  lemma DivisorOfProduct(p: int, q: int, e: nat)
    requires Prime(p) && Prime(q) && 0 < e < p * q && Divides(e, p * q)
    ensures Divides(e, p) || Divides(e, q)
  {
    var f := p * q / e;
    assert e * f == p * q;
    assert f > 1 by {
      if f <= 1 {
        MulGap(e, f, 2);
      }
    }
    assert p * q == q * p;
    DividesProduct(q, p);
    EuclidsLemma(q, e, f);
    if Divides(q, e) {
      Split(p, q, e, f);
    } else {
      Split(p, q, f, e);
    }
  }

  /** If q divides the factor a of p * q == a * b, then a is q or all of it. */
  lemma Split(p: int, q: int, a: nat, b: nat)
    requires Prime(p) && q > 0 && a * b == p * q && Divides(q, a)
    ensures Divides(b, p)
    ensures b > 1 ==> a == q
  {
    var m := a / q;
    assert m * b == p by {
      assert a == q * m;
      assert q * (m * b) == a * b == q * p;
      Cancel(q, m * b, p);
    }
    DividesProduct(b, m);
    DividesProduct(m, b);
    DivisorOfPrime(p, m);
    if m == p {
      assert p * b == p * 1;
      Cancel(p, b, 1);
    }
  }

  lemma Cancel(q: int, x: int, y: int)
    requires q > 0 && q * x == q * y
    ensures x == y
  {
    MulGap(q, x, y);
    MulGap(q, y, x);
  }

  // ---- small primes ----

  lemma SmallFactor(d: int)
    requires 2 <= d < 47
    ensures d % 2 == 0 || d % 3 == 0 || d % 5 == 0 || d in {7, 11, 13, 17, 19, 23, 29, 31, 37, 41, 43}
  {
  }

  lemma PrimeByTrial(n: int)
    requires 47 < n < 2209
    requires n % 2 != 0 && n % 3 != 0 && n % 5 != 0 && n % 7 != 0 && n % 11 != 0 && n % 13 != 0 && n % 17 != 0
    requires n % 19 != 0 && n % 23 != 0 && n % 29 != 0 && n % 31 != 0 && n % 37 != 0 && n % 41 != 0 && n % 43 != 0
    ensures Prime(n)
  {
    forall d | 2 <= d < 47
      ensures !Divides(d, n)
    {
      SmallFactor(d);
      if Divides(d, n) {
        if d % 2 == 0 {
          DividesTrans(2, d, n);
        } else if d % 3 == 0 {
          DividesTrans(3, d, n);
        } else if d % 5 == 0 {
          DividesTrans(5, d, n);
        }
      }
    }
    TrialDivisionExact(n, 47);
  }

  // ---- computing powers ----

  function SmallPower(x: int, d: nat): int {
    if d == 0 then 1 else if d == 1 then x else if d == 2 then x * x else x * x * x
  }

  lemma SmallPowerIs(x: int, d: nat)
    requires d < 4
    ensures Pow(x, d) == SmallPower(x, d)
  {
    assert Pow(x, 0) == 1;
    assert Pow(x, 1) == x;
    assert Pow(x, 2) == x * x;
    assert Pow(x, 3) == x * Pow(x, 2) == x * x * x;
  }

  /** The k-th power of x is y modulo n; under a quantifier, so that no large power is
      ever unfolded. */
  ghost predicate HasPower(x: int, n: int, k: nat, y: int)
    requires n > 0
  {
    forall i: nat | i == k :: Pow(x, i) % n == y
  }

  lemma Start(x: int, n: int)
    requires n > 1
    ensures HasPower(x, n, 0, 1)
  {
  }

  /** Two binary digits of the exponent at a time. */
  lemma Step(x: int, n: int, k: nat, y: int, d: nat, z: int)
    requires n > 0 && HasPower(x, n, k, y) && d < 4
    requires z == (y * y) * (y * y) * SmallPower(x, d) % n
    ensures HasPower(x, n, 4 * k + d, z)
  {
    assert Pow(x, k) % n == y;
    Square(x, n, k, y);
    Square(x, n, 2 * k, y * y % n);
    SquareRemainder(y * y, n);
    PowAdd(x, 4 * k, d);
    SmallPowerIs(x, d);
    SameTimes(Pow(x, 4 * k), (y * y) * (y * y), SmallPower(x, d), n);
  }

  lemma Square(x: int, n: int, k: nat, y: int)
    requires n > 0 && Pow(x, k) % n == y
    ensures Pow(x, 2 * k) % n == y * y % n
  {
    PowAdd(x, k, k);
    SquareRemainder(Pow(x, k), n);
  }

  lemma SquareRemainder(a: int, n: int)
    requires n > 0
    ensures a * a % n == (a % n) * (a % n) % n
  {
    var m := a % n;
    ProductRemainder(a, a, n);
    assert m * a == a * m;
    ProductRemainder(a, m, n);
  }

  // ---- primes from computed powers ----

  lemma PowerNeverOne(n: int, x: int, a: nat, y: int, u: int)
    requires n > 0 && HasPower(x, n, a, y) && (y - 1) * u % n == 1
    ensures NeverOne(n, x, a)
  {
    var p := Pow(x, a);
    assert p - 1 == (y - 1) + n * (p / n) by {
      assert p % n == y;
    }
    AddMultiple(y - 1, p / n, n);
    SameTimes(p - 1, y - 1, u, n);
    InverseShowsNeverOne(n, x, a, u);
  }

  lemma PrimeByOnePrime(n: int, x: int, r: nat, u: int)
    requires n >= 2 && Prime(r) && HasPower(x, n, r, 1) && (Pow(x, 1) - 1) * u % n == 1
    requires (r + 1) * (r + 1) > n
    ensures Prime(n)
  {
    assert One(x, r, n);
    InverseShowsNeverOne(n, x, 1, u);
    forall e | 0 < e < r && Divides(e, r)
      ensures Divides(e, 1)
    {
      DivisorOfPrime(r, e);
    }
    CertifiesPrime(n, x, r, 1, 1);
  }

  lemma PrimeByTwoPrimes(n: int, x: int, p: nat, q: nat, y: int, z: int, u: int, v: int)
    requires n >= 2 && Prime(p) && Prime(q) && HasPower(x, n, p * q, 1)
    requires HasPower(x, n, p, y) && (y - 1) * u % n == 1
    requires HasPower(x, n, q, z) && (z - 1) * v % n == 1
    requires (p * q + 1) * (p * q + 1) > n
    ensures Prime(n)
  {
    MulGap(p, 0, q);
    assert One(x, p * q, n);
    PowerNeverOne(n, x, p, y, u);
    PowerNeverOne(n, x, q, z, v);
    forall e | 0 < e < p * q && Divides(e, p * q)
      ensures Divides(e, p) || Divides(e, q)
    {
      DivisorOfProduct(p, q, e);
    }
    CertifiesPrime(n, x, p * q, p, q);
  }

  // ---- primes that matter on 32-bit integers ----

  lemma Prime3033169()
    ensures Prime(3033169)
  {
    var n, x := 3033169, 1763961;
    PrimeByTrial(2179);
    Start(x, n);
    Step(x, n, 0, 1, 2, 189885);
    Step(x, n, 2, 189885, 0, 5290);
    Step(x, n, 8, 5290, 2, 1696553);
    Step(x, n, 34, 1696553, 0, 2601376);
    Step(x, n, 136, 2601376, 0, 300493);
    Step(x, n, 544, 300493, 3, 1);
    PrimeByOnePrime(n, x, 2179, 2265765);
  }

  /** The smallest prime above half of the largest 32-bit integer. */
  lemma Prime1073741827()
    ensures Prime(1073741827)
  {
    var n, x := 1073741827, 83894384;
    Prime3033169();
    Start(x, n);
    Step(x, n, 0, 1, 2, 586162637);
    Step(x, n, 2, 586162637, 3, 725456547);
    Step(x, n, 11, 725456547, 2, 679280216);
    Step(x, n, 46, 679280216, 1, 325050275);
    Step(x, n, 185, 325050275, 0, 167874434);
    Step(x, n, 740, 167874434, 2, 685226491);
    Step(x, n, 2962, 685226491, 0, 1015353772);
    Step(x, n, 11848, 1015353772, 1, 810867918);
    Step(x, n, 47393, 810867918, 1, 299186312);
    Step(x, n, 189573, 299186312, 0, 95382177);
    Step(x, n, 758292, 95382177, 1, 1);
    PrimeByOnePrime(n, x, 3033169, 588728584);
  }

  lemma Powers2147395589(n: int, x: int)
    requires n == 2147395589 && x == 1072830413
    ensures HasPower(x, n, 647, 692064126) && HasPower(x, n, 769, 1691184025)
    ensures HasPower(x, n, 497543, 1)
  {
    Start(x, n);
    Step(x, n, 0, 1, 2, 225361495);
    Step(x, n, 2, 225361495, 2, 1974850899);
    Step(x, n, 10, 1974850899, 0, 1348966530);
    Step(x, n, 40, 1348966530, 1, 547316016);
    Step(x, n, 161, 547316016, 3, 692064126);
    Step(x, n, 0, 1, 3, 1955193533);
    Step(x, n, 3, 1955193533, 0, 515725411);
    Step(x, n, 12, 515725411, 0, 506107040);
    Step(x, n, 48, 506107040, 0, 1586116316);
    Step(x, n, 192, 1586116316, 1, 1691184025);
    Step(x, n, 0, 1, 1, 1072830413);
    Step(x, n, 1, 1072830413, 3, 1074612451);
    Step(x, n, 7, 1074612451, 2, 426189928);
    Step(x, n, 30, 426189928, 1, 1668640610);
    Step(x, n, 121, 1668640610, 1, 92654027);
    Step(x, n, 485, 92654027, 3, 2006229244);
    Step(x, n, 1943, 2006229244, 2, 74963783);
    Step(x, n, 7774, 74963783, 0, 1324582254);
    Step(x, n, 31096, 1324582254, 1, 1196482539);
    Step(x, n, 124385, 1196482539, 3, 1);
  }

  /** The largest prime below the largest square of a 32-bit integer. */
  lemma Prime2147395589()
    ensures Prime(2147395589)
  {
    var n, x := 2147395589, 1072830413;
    PrimeByTrial(647);
    PrimeByTrial(769);
    Powers2147395589(n, x);
    PrimeByTwoPrimes(n, x, 647, 769, 692064126, 1691184025, 333423458, 1272357948);
  }

  lemma Powers2147483647(n: int, x: int)
    requires n == 2147483647 && x == 1415456845
    ensures HasPower(x, n, 151, 272122089) && HasPower(x, n, 331, 556613938)
    ensures HasPower(x, n, 49981, 1)
  {
    Start(x, n);
    Step(x, n, 0, 1, 2, 1585447249);
    Step(x, n, 2, 1585447249, 1, 1877498741);
    Step(x, n, 9, 1877498741, 1, 1073001432);
    Step(x, n, 37, 1073001432, 3, 272122089);
    Step(x, n, 0, 1, 1, 1415456845);
    Step(x, n, 1, 1415456845, 1, 60384542);
    Step(x, n, 5, 60384542, 0, 340127895);
    Step(x, n, 20, 340127895, 2, 1897674508);
    Step(x, n, 82, 1897674508, 3, 556613938);
    Step(x, n, 0, 1, 3, 985436668);
    Step(x, n, 3, 985436668, 0, 600666757);
    Step(x, n, 12, 600666757, 0, 935771982);
    Step(x, n, 48, 935771982, 3, 1435252672);
    Step(x, n, 195, 1435252672, 0, 1725946765);
    Step(x, n, 780, 1725946765, 3, 20110126);
    Step(x, n, 3123, 20110126, 3, 918871420);
    Step(x, n, 12495, 918871420, 1, 1);
  }

  /** The largest 32-bit integer is a prime. */
  lemma Prime2147483647()
    ensures Prime(2147483647)
  {
    var n, x := 2147483647, 1415456845;
    PrimeByTrial(151);
    PrimeByTrial(331);
    Powers2147483647(n, x);
    PrimeByTwoPrimes(n, x, 151, 331, 272122089, 556613938, 411595504, 2069584139);
  }

  lemma NextPrimeAboveHalf()
    ensures IsNextPrime(0x3FFF_FFFF, 1073741827)
  {
    Prime1073741827();
    assert Divides(2, 1073741824) && Divides(5, 1073741825) && Divides(2, 1073741826);
  }

  lemma LastPrimeBelowSquare()
    ensures Prime(2147395589)
    ensures forall q | 2147395589 < q < 46340 * 46340 :: !Prime(q)
  {
    Prime2147395589();
    assert Divides(2, 2147395590) && Divides(11, 2147395591) && Divides(2, 2147395592);
    assert Divides(3, 2147395593) && Divides(2, 2147395594) && Divides(5, 2147395595);
    assert Divides(2, 2147395596) && Divides(1489, 2147395597) && Divides(2, 2147395598);
    assert Divides(3, 2147395599);
  }
}
