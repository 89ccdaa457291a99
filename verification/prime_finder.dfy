/**
  The prime finder of part 1: a 6k±1 trial-division primality test and the
  scan of a closed range [a, b] that collects the primes it finds, in order.
  Threads, console output and timing are not part of the model.
*/
module PrimeFinder {
  import opened JavaValues

  /** 46337 * 46337. For every n below it the trial-division loop only squares
      divisors whose square still fits a Java `int`. From this n on, the loop
      can reach i = 46343, whose square overflows: it does so when no
      candidate up to 46339 divides n. */
  const OverflowFreeBound: int := 2147117569

  /** Mathematical primality: greater than one, and no divisor strictly between 1 and n. */
  ghost predicate IsPrimeNumber(n: int) {
    n > 1 && forall d :: 1 < d < n ==> n % d != 0
  }

  /** No d with 1 < d < k divides n. */
  ghost predicate NoDivisorBelow(n: int, k: int) {
    forall d :: 1 < d < k ==> n % d != 0
  }

  // ---------------------------------------------------------------------------
  // Arithmetic helpers
  // ---------------------------------------------------------------------------

  lemma MulMonotone(a: int, b: int, c: int)
    requires a >= 0 && b <= c
    ensures a * b <= a * c
  {
    assert a * c - a * b == a * (c - b);
  }

  lemma SquareMonotone(x: int, y: int)
    requires 0 <= x <= y
    ensures x * x <= y * y
  {
    MulMonotone(x, x, y);
    MulMonotone(y, x, y);
  }

  /** The only multiple of a positive k in [0, k) is zero. */
  lemma MulBetween(k: int, y: int)
    requires k > 0 && 0 <= k * y < k
    ensures y == 0
  {
  }

  /** A multiple of k leaves no remainder when divided by k. */
  lemma MultipleHasZeroRemainder(k: int, m: int)
    requires k > 0
    ensures (k * m) % k == 0
  {
    var x := k * m;
    var q, r := x / k, x % k;
    assert x == k * q + r;
    assert k * (m - q) == k * m - k * q;
    MulBetween(k, m - q);
  }

  /** Divisibility is transitive: k | d and d | n give k | n. */
  lemma DividesTransitive(n: int, d: int, k: int)
    requires k > 0 && d > 0
    requires n % d == 0 && d % k == 0
    ensures n % k == 0
  {
    var a, b := n / d, d / k;
    assert n == d * a;
    assert d == k * b;
    assert n == k * (b * a);
    MultipleHasZeroRemainder(k, b * a);
  }

  /** A divisor d of n with d >= i > sqrt(n) has a cofactor that is a smaller divisor. */
  lemma SmallCofactor(n: int, d: int, i: int)
    requires 0 < n < i * i
    requires 0 < i <= d < n
    requires n % d == 0
    ensures 1 < n / d < i && n % (n / d) == 0
  {
    var q := n / d;
    assert n == d * q;
    if q <= 1 {
      MulMonotone(d, q, 1);
    }
    if q >= i {
      MulMonotone(d, i, q);
      MulMonotone(i, i, d);
    }
    MultipleHasZeroRemainder(q, d);
  }

  /** Once i * i exceeds n, having no divisor below i means n is prime. */
  lemma NoDivisorBelowRootIsPrime(n: int, i: int)
    requires 1 < n < i * i && i > 0
    requires NoDivisorBelow(n, i)
    ensures IsPrimeNumber(n)
  {
    forall d | 1 < d < n
      ensures n % d != 0
    {
      if d >= i && n % d == 0 {
        SmallCofactor(n, d, i);
      }
    }
  }

  /** One round of the loop: if neither 6k - 1 nor 6k + 1 divides n, and
      neither 2 nor 3 does, then nothing below 6k + 5 does. */
  lemma NoDivisorBelowNextRound(n: int, i: int)
    requires n % 2 != 0 && n % 3 != 0
    requires 5 <= i && i % 6 == 5
    requires NoDivisorBelow(n, i)
    requires n % i != 0 && n % (i + 2) != 0
    ensures NoDivisorBelow(n, i + 6)
  {
    forall d | 1 < d < i + 6
      ensures n % d != 0
    {
      if d >= i && n % d == 0 {
        if d == i + 1 || d == i + 3 || d == i + 5 {
          DividesTransitive(n, d, 2);
        } else if d == i + 4 {
          DividesTransitive(n, d, 3);
        }
      }
    }
  }

  /** The loop squares only numbers whose square fits a Java `int`. */
  lemma LoopSquareFits(n: int, i: int)
    requires 5 <= i && i % 6 == 5
    requires (i - 6) * (i - 6) <= n < OverflowFreeBound
    ensures i * i <= OverflowFreeBound <= IntMax
  {
    if i > 46337 {
      assert i - 6 >= 46337;
      SquareMonotone(46337, i - 6);
    }
    SquareMonotone(i, 46337);
  }

  // ---------------------------------------------------------------------------
  // isPrime
  // ---------------------------------------------------------------------------

  /** The trial-division loop of isPrime over i = 5, 11, 17, ... while
      i * i <= n: each round tests the candidates i and i + 2. A rejection is
      always sound: the divisor it found lies strictly between 1 and n. */
  function SixKLoop(n: int, i: int): (r: bool)
    requires 5 <= i && i % 6 == 5
    requires (i - 6) * (i - 6) <= n < OverflowFreeBound
    ensures !r ==> !IsPrimeNumber(n)
    decreases n - i
  {
    LoopSquareFits(n, i);
    var square: Int32 := i * i;
    if square > n then true
    else
      MulMonotone(i, 5, i);
      if n % i == 0 || n % (i + 2) == 0 then
        assert 1 < i < i + 2 < n;
        false
      else SixKLoop(n, i + 6)
  }

  /** isPrime(n): the edge cases for n <= 3 and the factors 2 and 3, then the
      6k±1 loop. Every operand is non-negative where `%` is applied, so
      Java's truncating remainder and Dafny's Euclidean one agree. */
  function IsPrime(n: Int32): (r: bool)
    requires n < OverflowFreeBound
    ensures n <= 1 ==> !r
    ensures n == 2 || n == 3 ==> r
    ensures n > 3 && (n % 2 == 0 || n % 3 == 0) ==> !r
    ensures !r ==> !IsPrimeNumber(n)
  {
    if n <= 1 then false
    else if n <= 3 then true
    else if n % 2 == 0 || n % 3 == 0 then false
    else SixKLoop(n, 5)
  }

  /** Each step of the loop is sound (a divisor found is a real divisor) and,
      together with the final i * i > n test, complete. */
  lemma {:induction false} SixKLoopCorrect(n: int, i: int)
    requires n > 3 && n % 2 != 0 && n % 3 != 0
    requires 5 <= i && i % 6 == 5
    requires (i - 6) * (i - 6) <= n < OverflowFreeBound
    requires NoDivisorBelow(n, i)
    ensures SixKLoop(n, i) <==> IsPrimeNumber(n)
    decreases n - i
  {
    LoopSquareFits(n, i);
    if i * i > n {
      NoDivisorBelowRootIsPrime(n, i);
    } else {
      MulMonotone(i, 5, i);
      if n % i == 0 || n % (i + 2) == 0 {
        assert 1 < i < i + 2 < n;
      } else {
        NoDivisorBelowNextRound(n, i);
        SixKLoopCorrect(n, i + 6);
      }
    }
  }

  /** isPrime agrees with mathematical primality on its whole domain. */
  lemma IsPrimeCorrect(n: Int32)
    requires n < OverflowFreeBound
    ensures IsPrime(n) <==> IsPrimeNumber(n)
  {
    if n > 3 && n % 2 != 0 && n % 3 != 0 {
      forall d | 1 < d < 5
        ensures n % d != 0
      {
        if d == 4 && n % d == 0 {
          DividesTransitive(n, 4, 2);
        }
      }
      SixKLoopCorrect(n, 5);
    } else if n > 3 {
      assert n % 2 == 0 || n % 3 == 0;
    }
  }

  // ---------------------------------------------------------------------------
  // PrimeFinderThread
  // ---------------------------------------------------------------------------

  /** The state of a PrimeFinderThread: its range, its print option, and the
      primes collected so far. */
  datatype PrimeFinderThread = PrimeFinderThread(a: Int32, b: Int32, printPrimes: bool, primes: seq<Int32>)

  function GetStartRange(t: PrimeFinderThread): Int32 { t.a }

  function GetEndRange(t: PrimeFinderThread): Int32 { t.b }

  function GetPrimes(t: PrimeFinderThread): seq<Int32> { t.primes }

  /** The three-argument constructor: the range getters give back a and b, and
      no prime has been collected yet. */
  function NewPrimeFinderThread(a: Int32, b: Int32, printPrimes: bool): (t: PrimeFinderThread)
    ensures GetStartRange(t) == a && GetEndRange(t) == b
    ensures t.printPrimes == printPrimes
    ensures GetPrimes(t) == []
  {
    PrimeFinderThread(a, b, printPrimes, [])
  }

  /** The two-argument constructor delegates with printing switched off. */
  function NewQuietPrimeFinderThread(a: Int32, b: Int32): (t: PrimeFinderThread)
    ensures GetStartRange(t) == a && GetEndRange(t) == b
    ensures !t.printPrimes && GetPrimes(t) == []
  {
    NewPrimeFinderThread(a, b, false)
  }

  ghost predicate StrictlyIncreasing(s: seq<int>) {
    forall j, k :: 0 <= j < k < |s| ==> s[j] < s[k]
  }

  /** run(): scans i = a, a + 1, ..., b and appends every i that isPrime
      accepts. The primes appended are exactly the primes of [a, b], in
      strictly increasing order; the range is left as it was. */
  method Run(t: PrimeFinderThread) returns (u: PrimeFinderThread)
    requires t.b < OverflowFreeBound
    ensures GetStartRange(u) == GetStartRange(t) && GetEndRange(u) == GetEndRange(t)
    ensures u.printPrimes == t.printPrimes
    ensures |GetPrimes(u)| >= |GetPrimes(t)| && GetPrimes(u)[..|GetPrimes(t)|] == GetPrimes(t)
    ensures StrictlyIncreasing(GetPrimes(u)[|GetPrimes(t)|..])
    ensures forall k: int :: k in GetPrimes(u)[|GetPrimes(t)|..] <==> t.a <= k <= t.b && IsPrimeNumber(k)
    ensures t.a > t.b ==> GetPrimes(u) == GetPrimes(t)
  {
    var found: seq<Int32> := [];
    var i: int := t.a;
    while i <= t.b
      invariant t.a <= i && (i <= t.b + 1 || i == t.a)
      invariant StrictlyIncreasing(found)
      invariant |found| <= i - t.a
      invariant forall j :: 0 <= j < |found| ==> found[j] < i
      invariant forall k: int :: k in found <==> t.a <= k < i && IsPrimeNumber(k)
    {
      IsPrimeCorrect(i);
      if IsPrime(i) {
        found := found + [i];
      }
      i := i + 1;
    }
    u := t.(primes := t.primes + found);
    assert GetPrimes(u)[|GetPrimes(t)|..] == found;
  }
}
