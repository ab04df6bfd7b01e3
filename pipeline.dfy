/** The computation the two `main` functions run after the timing and
    environment reads are taken away: generate the primes, bubble-sort them,
    sum their squares. */
module PrimePipeline {
  import opened Primes
  import opened Sorting
  import opened Squares

  /** Copies a sequence into a fresh array (the Go slice the primes live in). */
  method ToArray(s: seq<int>) returns (arr: array<int>)
    ensures fresh(arr) && arr[..] == s
  {
    arr := new int[|s|](k requires 0 <= k < |s| => s[k]);
  }

  /** go-primes.go main with USE_BUBBLE set: getPrimes(n), then bubbleSort,
      then sumOfSquares. getPrimes already yields ascending primes, so the sort
      changes nothing. */
  method SequentialPipeline(n: int) returns (sorted: seq<int>, total: int)
    ensures sorted == PrimesBelow(n)
    ensures total == SumSquares(PrimesBelow(n))
  {
    var primes := GetPrimes(n);
    var arr := ToArray(primes);
    BubbleSort(arr);
    assert Sorted(primes);
    sorted := arr[..];
    total := SumOfSquares(sorted);
  }

  /** opt-go-primes.go main with PRIME_ALG unset and SORT_ALG not "bubble":
      getPrimesConcurrent(n) with the numbers arriving in order `arrival`, then
      bubbleSort, then sumOfSquares. Whatever the arrival order, the sorted
      list is exactly getPrimes(n) and the total is the same. */
  method ConcurrentPipeline(n: int, arrival: seq<int>) returns (sorted: seq<int>, total: int)
    requires multiset(arrival) == multiset(Range(2, n))
    ensures sorted == PrimesBelow(n)
    ensures total == SumSquares(PrimesBelow(n))
  {
    var primes := GetPrimesConcurrent(n, arrival);
    var arr := ToArray(primes);
    BubbleSort(arr);
    sorted := arr[..];
    PrimesBelowIncreasing(n);
    assert Sorted(PrimesBelow(n));
    SortedUnique(sorted, PrimesBelow(n));
    total := SumOfSquares(sorted);
  }

  /** Sorting by another method than bubbleSort (sort.Ints in the other
      branch of main) gives the same list, because a sorted permutation is
      unique; so the reported total never depends on the branch taken. */
  lemma AnySortAgrees(n: int, other: seq<int>)
    requires Sorted(other) && multiset(other) == multiset(PrimesBelow(n))
    ensures other == PrimesBelow(n)
    ensures SumSquares(other) == SumSquares(PrimesBelow(n))
  {
    PrimesBelowIncreasing(n);
    SortedUnique(other, PrimesBelow(n));
  }
}
