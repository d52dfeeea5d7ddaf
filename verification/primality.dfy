/**
 * The trial-division predicate `isPrime` of the benchmark (Main.java).
 *
 * It is NOT mathematical primality: 2 is reported as not prime, and because
 * odd candidates are only tried while `i * i < n` (strict), the square of an
 * odd prime (9, 25, 49, 121, ...) is reported as prime; no other composite
 * is (`ReportedExactly`). The model keeps both quirks and states exactly
 * what the code computes; `IsMathPrime` is the textbook notion, used only
 * to relate the two.
 */
module Primality {
  import opened Wrappers

  /** `IllegalArgumentException` thrown for a non-positive argument. */
  datatype PrimeError = InvalidArgument

  /** `d` is a positive divisor of `n`. */
  predicate Divides(d: int, n: int)
  {
    d > 0 && n % d == 0
  }

  /** Textbook primality, the reference the quirks are measured against. */
  ghost predicate IsMathPrime(n: int)
  {
    n >= 2 && forall d :: 1 < d < n ==> !Divides(d, n)
  }

  /** No odd `i >= from` whose square is strictly below `n` divides `n`:
      the condition the loop of `isPrime` in Main.java (lines 121-127)
      checks, started at `from`. */
  ghost predicate NoOddDivisorFrom(n: int, from: int)
  {
    forall i :: from <= i && i % 2 == 1 && i * i < n ==> !Divides(i, n)
  }

  /** What `isPrime(n)` answers for a positive `n`. */
  ghost predicate Reported(n: int)
  {
    n >= 3 && n % 2 == 1 && NoOddDivisorFrom(n, 3)
  }

  lemma SquareMonotone(i: int, k: int)
    requires 0 <= i <= k
    ensures i * i <= k * k
  {
    assert i * i <= i * k <= k * k;
  }

  /** Squares grow at least as fast as their roots once the root is 1 or more. */
  lemma RootBelowSquare(i: int)
    requires i >= 1
    ensures i <= i * i
  {
    assert i * i == i * (i - 1) + i;
    assert i * (i - 1) >= 0;
  }

  /** Once `i * i >= n`, no larger odd candidate can pass the loop's test. */
  lemma NoCandidateBeyondRoot(n: int, i: int)
    requires i >= 0 && i * i >= n
    ensures NoOddDivisorFrom(n, i)
  {
    forall k | i <= k && k % 2 == 1
      ensures k * k < n ==> !Divides(k, n)
    {
      SquareMonotone(i, k);
    }
  }

  /** The odd-divisor loop of `isPrime`, written as recursion on the candidate `i`. */
  function OddTrial(n: int, i: int): (passes: bool)
    requires i >= 3 && i % 2 == 1
    ensures passes <==> NoOddDivisorFrom(n, i)
    decreases n - i
  {
    if i * i >= n then
      NoCandidateBeyondRoot(n, i);
      true
    else if n % i == 0 then
      assert Divides(i, n);
      false
    else
      RootBelowSquare(i);
      var next := OddTrial(n, i + 2);
      assert NoOddDivisorFrom(n, i) <==> NoOddDivisorFrom(n, i + 2) by {
        assert forall k :: i <= k && k % 2 == 1 ==> k == i || i + 2 <= k;
      }
      next
  }

  /** `isPrime(n)`: an error for `n <= 0`; `false` for 1, 2 and every even
      number; otherwise `true` exactly when no odd `i >= 3` with `i * i < n`
      divides `n`. */
  function IsPrime(n: int): (r: Result<bool, PrimeError>)
    ensures r.Failure? <==> n <= 0
    ensures r.Failure? ==> r.error == InvalidArgument
    ensures r.Success? ==> (r.value <==> Reported(n))
  {
    if n <= 0 then Failure(InvalidArgument)
    else if n == 1 then Success(false)
    else if n == 2 then Success(false)
    else if n % 2 == 0 then Success(false)
    else Success(OddTrial(n, 3))
  }

  /** `isPrime` in Main.java (lines 100-130) as written: early returns,
      then a loop over odd candidates `i = 3, 5, 7, ...` while `i * i < n`. */
  method IsPrimeLoop(n: int) returns (r: Result<bool, PrimeError>)
    ensures r.Failure? <==> n <= 0
    ensures n > 0 ==> r == Success(Reported(n))
    ensures r == IsPrime(n)
  {
    if n <= 0 {
      return Failure(InvalidArgument);
    }
    if n == 1 {
      return Success(false);
    }
    if n == 2 {
      return Success(false);
    }
    if n % 2 == 0 {
      return Success(false);
    }
    var i := 3;
    while i * i < n
      invariant i >= 3 && i % 2 == 1
      invariant forall k :: 3 <= k < i && k % 2 == 1 && k * k < n ==> !Divides(k, n)
      decreases n - i
    {
      if n % i == 0 {
        assert Divides(i, n);
        return Success(false);
      }
      RootBelowSquare(i);
      i := i + 2;
    }
    NoCandidateBeyondRoot(n, i);
    return Success(true);
  }

  /** The contract of `isPrime`: it rejects every `n <= 0` instead of answering. */
  lemma NonPositiveRejected(n: int)
    requires n <= 0
    ensures IsPrime(n) == Failure(InvalidArgument)
  {
  }

  /** 1, 2 and every even number are reported as not prime. */
  lemma SmallAndEvenNotReported(n: int)
    requires n > 0 && (n <= 2 || n % 2 == 0)
    ensures IsPrime(n) == Success(false)
  {
  }

  /** A `true` answer is only ever given for an odd number of at least 3. */
  lemma ReportedIsOddAtLeastThree(n: int)
    requires IsPrime(n) == Success(true)
    ensures n >= 3 && n % 2 == 1
  {
  }

  /** A `false` answer for `n > 2` is sound: `n` really has a proper divisor. */
  lemma NotReportedHasDivisor(n: int)
    requires n > 2 && IsPrime(n) == Success(false)
    ensures exists d :: 1 < d < n && Divides(d, n)
  {
    if n % 2 == 0 {
      assert Divides(2, n);
    } else {
      assert !NoOddDivisorFrom(n, 3);
      var i :| 3 <= i && i % 2 == 1 && i * i < n && Divides(i, n);
      assert i * i >= 3 * i;
      assert 1 < i < n;
    }
  }

  /** Every prime other than 2 is reported as prime: the loop never misses a prime. */
  lemma MathPrimeReported(n: int)
    requires n >= 3 && IsMathPrime(n)
    ensures IsPrime(n) == Success(true)
  {
    assert !Divides(2, n);
    forall i | 3 <= i && i % 2 == 1 && i * i < n
      ensures !Divides(i, n)
    {
      assert i * i >= 3 * i;
    }
  }

  /** 2 is prime, yet not reported as one. */
  lemma TwoNotReported()
    ensures IsMathPrime(2) && IsPrime(2) == Success(false)
  {
  }

  /** The strict bound `i * i < n` never tries `i = 3` on 9, `i = 5` on 25
      nor `i = 7` on 49, so these odd squares are reported as prime although
      they are not. */
  lemma OddSquaresReported()
    ensures IsPrime(9) == Success(true) && !IsMathPrime(9)
    ensures IsPrime(25) == Success(true) && !IsMathPrime(25)
    ensures IsPrime(49) == Success(true) && !IsMathPrime(49)
  {
    assert Divides(3, 9);
    assert Divides(5, 25);
    assert Divides(7, 49);
  }

  /** Sample answers: 3 and 97 are reported as prime, 4 and 100 are not. */
  lemma SampleAnswers()
    ensures IsPrime(3) == Success(true)
    ensures IsPrime(4) == Success(false)
    ensures IsPrime(97) == Success(true)
    ensures IsPrime(100) == Success(false)
  {
  }

  /** Divisibility is transitive. */
  lemma DividesTransitive(a: int, b: int, c: int)
    requires Divides(a, b) && Divides(b, c)
    ensures Divides(a, c)
  {
    var x := b / a;
    var y := c / b;
    assert c == a * (x * y);
    MultipleDivisible(a, x * y);
  }

  /** A multiple of a positive `d` leaves no remainder. */
  lemma MultipleDivisible(d: int, k: int)
    requires d > 0
    ensures (d * k) % d == 0
  {
    var q := (d * k) / d;
    assert d * (k - q) == (d * k) % d;
    if k - q >= 1 {
      assert false;
    } else if k - q <= -1 {
      assert false;
    }
  }

  /** The least divisor above 1 of `n`, searched upward from `k`. */
  function LeastDivisorFrom(n: int, k: int): (d: int)
    requires 2 <= k <= n
    requires forall e :: 1 < e < k ==> !Divides(e, n)
    ensures k <= d <= n && Divides(d, n)
    ensures forall e :: 1 < e < d ==> !Divides(e, n)
    decreases n - k
  {
    if n % k == 0 then k else LeastDivisorFrom(n, k + 1)
  }

  /** The least divisor above 1 of any `n >= 2` is prime. */
  lemma LeastDivisorIsPrime(n: int)
    requires n >= 2
    ensures IsMathPrime(LeastDivisorFrom(n, 2))
  {
    var d := LeastDivisorFrom(n, 2);
    forall e | 1 < e < d
      ensures !Divides(e, d)
    {
      if Divides(e, d) {
        DividesTransitive(e, d, n);
      }
    }
  }

  /** Euclid's lemma for a multiplier below the prime, by descent on `r`. */
  lemma {:induction false} EuclidBelow(q: int, r: int, b: int)
    requires IsMathPrime(q) && 0 < r < q && Divides(q, r * b)
    ensures Divides(q, b)
    decreases r
  {
    if r > 1 {
      var k := q / r;
      var s := q % r;
      assert q == k * r + s;
      assert s != 0 by {
        if s == 0 {
          assert Divides(r, q);
        }
      }
      var t := (r * b) / q;
      assert r * b == q * t;
      assert s * b == q * (b - k * t) by {
        assert s * b == (q - k * r) * b;
        assert (q - k * r) * b == q * b - k * (r * b);
      }
      MultipleDivisible(q, b - k * t);
      EuclidBelow(q, s, b);
    }
  }

  /** Euclid's lemma: a prime dividing a product divides one of the factors. */
  lemma Euclid(q: int, a: int, b: int)
    requires IsMathPrime(q) && Divides(q, a * b) && !Divides(q, a)
    ensures Divides(q, b)
  {
    var m := a / q;
    var r := a % q;
    assert a == q * m + r;
    var t := (a * b) / q;
    assert a * b == q * t;
    assert r * b == q * (t - m * b) by {
      assert r * b == (a - q * m) * b;
      assert (a - q * m) * b == a * b - q * (m * b);
    }
    MultipleDivisible(q, t - m * b);
    EuclidBelow(q, r, b);
  }

  /** The square of every odd prime is reported as prime: its only proper
      divisor is its root, which the strict bound `i * i < n` never tries. */
  lemma PrimeSquareReported(p: int)
    requires IsMathPrime(p) && p >= 3
    ensures IsPrime(p * p) == Success(true) && !IsMathPrime(p * p)
  {
    var n := p * p;
    assert IsMathPrime(2);
    assert !Divides(2, p);
    SquareMonotone(3, p);
    assert n % 2 == 1 by {
      if Divides(2, n) {
        Euclid(2, p, p);
      }
    }
    forall i | 3 <= i && i % 2 == 1 && i * i < n
      ensures !Divides(i, n)
    {
      if p <= i {
        SquareMonotone(p, i);
      }
      if Divides(i, n) {
        var g := LeastDivisorFrom(i, 2);
        LeastDivisorIsPrime(i);
        DividesTransitive(g, i, n);
        assert !Divides(g, p);
        Euclid(g, p, p);
      }
    }
    MultipleDivisible(p, p);
    assert Divides(p, n) && 1 < p < n;
  }

  /** A least proper divisor whose square reaches `n` is the root of `n`:
      its cofactor is a divisor too, so it cannot be smaller. */
  lemma LeastDivisorSquare(n: int, d: int)
    requires 1 < d < n && Divides(d, n) && n <= d * d
    requires forall e :: 1 < e < d ==> !Divides(e, n)
    ensures n == d * d
  {
    var q := n / d;
    assert n == d * q;
    assert 1 < q by {
      assert q != 1;
    }
    MultipleDivisible(q, d);
    assert Divides(q, n);
    assert d <= q;
    assert d * (q - d) == 0 by {
      assert d * q - d * d == d * (q - d);
    }
    assert q == d;
  }

  /** Every odd composite reported as prime is the square of an odd prime. */
  lemma ReportedCompositeIsPrimeSquare(n: int)
    requires IsPrime(n) == Success(true) && !IsMathPrime(n)
    ensures exists p :: IsMathPrime(p) && p >= 3 && n == p * p
  {
    assert Reported(n);
    var d := LeastDivisorFrom(n, 2);
    LeastDivisorIsPrime(n);
    var e :| 1 < e < n && Divides(e, n);
    assert d <= e < n;
    assert d % 2 == 1 by {
      if d % 2 == 0 {
        DividesTransitive(2, d, n);
      }
    }
    assert !(d * d < n);
    LeastDivisorSquare(n, d);
  }

  /** Exactly what `isPrime` answers `true` for: the primes from 3 on, and
      the squares of those primes. */
  lemma ReportedExactly(n: int)
    ensures IsPrime(n) == Success(true)
        <==> (n >= 3 && IsMathPrime(n)) || exists p :: IsMathPrime(p) && p >= 3 && n == p * p
  {
    if IsPrime(n) == Success(true) {
      ReportedIsOddAtLeastThree(n);
      if !IsMathPrime(n) {
        ReportedCompositeIsPrimeSquare(n);
      }
    } else if n >= 3 && IsMathPrime(n) {
      MathPrimeReported(n);
    } else if exists p :: IsMathPrime(p) && p >= 3 && n == p * p {
      var p :| IsMathPrime(p) && p >= 3 && n == p * p;
      PrimeSquareReported(p);
    }
  }
}
