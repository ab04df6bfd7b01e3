/** Prime generation by trial division (getPrimes), the per-number check used
    by the fan-out (checkPrime) and the fan-in that collects its survivors
    (getPrimesConcurrent). */
module Primes {

  /** `d` divides `n` (Go's `n % d == 0`; both are positive wherever it is used). */
  predicate Divides(d: int, n: int)
    requires d > 0
  {
    n % d == 0
  }

  /** The reference notion: n >= 2 and no d with 2 <= d < n divides it. */
  predicate IsPrime(n: int)
  {
    n >= 2 && forall d :: 2 <= d < n ==> !Divides(d, n)
  }

  /** The primes in [2, n), ascending. */
  function PrimesBelow(n: int): seq<int>
    decreases n
  {
    if n <= 2 then [] else PrimesBelow(n - 1) + (if IsPrime(n - 1) then [n - 1] else [])
  }

  /** Membership: PrimesBelow(n) holds exactly the primes p with p < n. */
  lemma {:induction false} PrimesBelowMembers(n: int)
    ensures forall p :: p in PrimesBelow(n) <==> 2 <= p < n && IsPrime(p)
    decreases n
  {
    if n > 2 {
      PrimesBelowMembers(n - 1);
    }
  }

  /** PrimesBelow(n) is strictly increasing and all of its elements are below n. */
  lemma {:induction false} PrimesBelowIncreasing(n: int)
    ensures forall i, j :: 0 <= i < j < |PrimesBelow(n)| ==> PrimesBelow(n)[i] < PrimesBelow(n)[j]
    ensures forall i :: 0 <= i < |PrimesBelow(n)| ==> PrimesBelow(n)[i] < n
    decreases n
  {
    if n > 2 {
      PrimesBelowIncreasing(n - 1);
    }
  }

  /** getPrimes: for each num in [2, n), trial-divide by every i in [2, num)
      and append num if no division succeeds. */
  method GetPrimes(n: int) returns (primes: seq<int>)
    ensures primes == PrimesBelow(n)
    ensures forall p :: p in primes <==> 2 <= p < n && IsPrime(p)
    ensures forall i, j :: 0 <= i < j < |primes| ==> primes[i] < primes[j]
    ensures n <= 2 ==> primes == []
  {
    primes := [];
    var num := 2;
    while num < n
      invariant 2 <= num <= if n < 2 then 2 else n
      invariant primes == PrimesBelow(num)
    {
      var isPrime := true;
      var i := 2;
      while i < num
        invariant 2 <= i <= num
        invariant forall d :: 2 <= d < i ==> !Divides(d, num)
      {
        if num % i == 0 {
          isPrime := false;
          break;
        }
        i := i + 1;
      }
      assert isPrime ==> i == num;
      assert !isPrime ==> 2 <= i < num && Divides(i, num);
      assert PrimesBelow(num + 1) == PrimesBelow(num) + (if IsPrime(num) then [num] else []);
      if isPrime {
        primes := primes + [num];
      }
      num := num + 1;
    }
    assert n <= 2 ==> PrimesBelow(n) == [] && PrimesBelow(num) == [];
    PrimesBelowMembers(n);
    PrimesBelowIncreasing(n);
  }

  /** The bound of checkPrime with the float square root replaced by
      `i * i <= num`: no i >= 2 with i * i <= num divides num. */
  ghost predicate NoDivisorUpToRoot(num: int)
  {
    forall i :: 2 <= i && i * i <= num ==> !Divides(i, num)
  }

  /** checkPrime's flag loop. */
  method CheckPrime(num: int) returns (isPrime: bool)
    ensures isPrime <==> NoDivisorUpToRoot(num)
    ensures num >= 2 ==> (isPrime <==> IsPrime(num))
  {
    isPrime := true;
    var i := 2;
    while i * i <= num
      invariant i >= 2
      invariant forall k :: 2 <= k < i ==> !Divides(k, num)
      decreases num - i
    {
      if num % i == 0 {
        isPrime := false;
        break;
      }
      i := i + 1;
    }
    if !isPrime {
      assert Divides(i, num);
    } else {
      forall k | 2 <= k && k * k <= num
        ensures !Divides(k, num)
      {
        if k >= i {
          MulMonotone(i, k);
        }
      }
    }
    if num >= 2 {
      CheckPrimeAgrees(num);
    }
  }

  /** The sign of a product with a positive factor. */
  lemma ProductSign(a: int, b: int)
    requires a > 0
    ensures b > 0 ==> a * b > 0
    ensures b == 0 ==> a * b == 0
    ensures b < 0 ==> a * b < 0
  {
  }

  lemma MulMonotone(a: int, b: int)
    requires 0 <= a <= b
    ensures a * a <= b * b
  {
  }

  /** A number at least 2 is smaller than its square. */
  lemma BelowSquare(i: int)
    requires i >= 2
    ensures i < i * i
  {
  }

  /** Euclidean remainder of an exact multiple. */
  lemma ModOfMultiple(q: int, d: int)
    requires q > 0
    ensures (q * d) % q == 0
  {
    var a := q * d;
    var k, r := a / q, a % q;
    assert a == q * k + r && 0 <= r < q;
    assert q * (d - k) == r by {
      assert q * d - q * k == q * (d - k);
    }
    ProductSign(q, d - k);
    ProductSign(q, d - k - 1);
    assert q * (d - k) == q * (d - k - 1) + q;
    assert d - k == 0;
    assert r == 0;
  }

  /** A divisor d of num with d * d > num has a cofactor num / d that is a
      divisor in [2, d) whose square is at most num. */
  lemma SmallCofactor(num: int, d: int)
    requires 2 <= d < num && Divides(d, num) && d * d > num
    ensures 2 <= num / d && (num / d) * (num / d) <= num && Divides(num / d, num)
  {
    var q := num / d;
    assert num == d * q;
    ProductSign(d, q);
    assert q >= 2 by {
      ProductSign(d, 1 - q);
      assert d - d * q == d * (1 - q);
    }
    assert q < d by {
      ProductSign(d, d - q);
      assert d * d - d * q == d * (d - q);
    }
    assert q * q <= num by {
      ProductSign(q, d - q);
      assert q * d - q * q == q * (d - q);
      assert d * q == q * d;
    }
    ModOfMultiple(q, d);
    assert num == q * d;
  }

  /** For num >= 2 the square-root test of checkPrime and the full test of
      getPrimes agree: a divisor above the root has a cofactor at or below it. */
  lemma CheckPrimeAgrees(num: int)
    requires num >= 2
    ensures NoDivisorUpToRoot(num) <==> IsPrime(num)
  {
    if IsPrime(num) {
      forall i | 2 <= i && i * i <= num
        ensures !Divides(i, num)
      {
        BelowSquare(i);
      }
    } else {
      var d :| 2 <= d < num && Divides(d, num);
      if d * d > num {
        SmallCofactor(num, d);
      }
    }
  }

  /** The numbers checked by the fan-out, in launch order: [lo, hi). */
  function Range(lo: int, hi: int): seq<int>
    decreases hi - lo
  {
    if hi <= lo then [] else Range(lo, hi - 1) + [hi - 1]
  }

  lemma {:induction false} RangeCount(lo: int, hi: int, x: int)
    ensures multiset(Range(lo, hi))[x] == if lo <= x < hi then 1 else 0
    decreases hi - lo
  {
    if hi > lo {
      RangeCount(lo, hi - 1, x);
    }
  }

  lemma {:induction false} PrimesBelowCount(n: int, x: int)
    ensures multiset(PrimesBelow(n))[x] == if 2 <= x < n && IsPrime(x) then 1 else 0
    decreases n
  {
    if n > 2 {
      PrimesBelowCount(n - 1, x);
    }
  }

  /** The survivors of the primality test among `s`, in the order of `s`. */
  function PrimesIn(s: seq<int>): seq<int>
    decreases |s|
  {
    if s == [] then [] else PrimesIn(s[..|s| - 1]) + (if IsPrime(s[|s| - 1]) then [s[|s| - 1]] else [])
  }

  lemma {:induction false} PrimesInCount(s: seq<int>, x: int)
    ensures multiset(PrimesIn(s))[x] == if IsPrime(x) then multiset(s)[x] else 0
    decreases |s|
  {
    if s != [] {
      PrimesInCount(s[..|s| - 1], x);
      assert s == s[..|s| - 1] + [s[|s| - 1]];
    }
  }

  /** Every number that arrives is one of those launched. */
  lemma ArrivalInRange(n: int, arrival: seq<int>, k: int)
    requires multiset(arrival) == multiset(Range(2, n))
    requires 0 <= k < |arrival|
    ensures 2 <= arrival[k] < n
  {
    assert arrival[k] in multiset(arrival);
    RangeCount(2, n, arrival[k]);
  }

  /** The goroutines' results may reach the channel in any order. Whatever
      order is a permutation of [2, n), the survivors are, as a multiset,
      exactly the primes below n. */
  lemma FilterAnyOrder(n: int, arrival: seq<int>)
    requires multiset(arrival) == multiset(Range(2, n))
    ensures multiset(PrimesIn(arrival)) == multiset(PrimesBelow(n))
  {
    forall x
      ensures multiset(PrimesIn(arrival))[x] == multiset(PrimesBelow(n))[x]
    {
      PrimesInCount(arrival, x);
      RangeCount(2, n, x);
      PrimesBelowCount(n, x);
    }
  }

  /** Sequences with the same multiset have the same members. */
  lemma SameMembers(a: seq<int>, b: seq<int>)
    requires multiset(a) == multiset(b)
    ensures forall p :: p in a <==> p in b
  {
    forall p
      ensures p in a <==> p in b
    {
      assert p in a <==> p in multiset(a);
      assert p in b <==> p in multiset(b);
    }
  }

  /** getPrimesConcurrent, with the goroutines and the channel replaced by the
      order `arrival` in which the checkPrime calls complete (any permutation
      of [2, n)); each call sends its number iff it passes the check, and the
      collector appends what it receives. */
  method GetPrimesConcurrent(n: int, arrival: seq<int>) returns (primes: seq<int>)
    requires multiset(arrival) == multiset(Range(2, n))
    ensures n < 2 ==> primes == []
    ensures primes == PrimesIn(arrival)
    ensures multiset(primes) == multiset(PrimesBelow(n))
    ensures forall p :: p in primes <==> 2 <= p < n && IsPrime(p)
  {
    if n < 2 {
      return [];
    }
    primes := [];
    var k := 0;
    while k < |arrival|
      invariant 0 <= k <= |arrival|
      invariant primes == PrimesIn(arrival[..k])
    {
      var num := arrival[k];
      ArrivalInRange(n, arrival, k);
      var isPrime := CheckPrime(num);
      assert arrival[..k + 1][..k] == arrival[..k];
      if isPrime {
        primes := primes + [num];
      }
      k := k + 1;
    }
    assert arrival[..k] == arrival;
    FilterAnyOrder(n, arrival);
    SameMembers(primes, PrimesBelow(n));
    PrimesBelowMembers(n);
  }
}
