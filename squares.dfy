/** sumOfSquares: the accumulator loop `sum += num * num`. Go's int is 64 bits
    wide and wraps; here sums are unbounded integers. */
module Squares {

  /** The sum of x * x over the elements of s. */
  function SumSquares(s: seq<int>): int
    decreases |s|
  {
    if s == [] then 0 else SumSquares(s[..|s| - 1]) + s[|s| - 1] * s[|s| - 1]
  }

  method SumOfSquares(nums: seq<int>) returns (sum: int)
    ensures sum == SumSquares(nums)
    ensures nums == [] ==> sum == 0
    ensures sum >= 0
  {
    sum := 0;
    var k := 0;
    while k < |nums|
      invariant 0 <= k <= |nums|
      invariant sum == SumSquares(nums[..k])
    {
      assert nums[..k + 1][..k] == nums[..k];
      sum := sum + nums[k] * nums[k];
      k := k + 1;
    }
    assert nums[..k] == nums;
    SumSquaresNonNegative(nums);
  }

  /** Without wrap-around the sum of squares is never negative. */
  lemma {:induction false} SumSquaresNonNegative(s: seq<int>)
    ensures SumSquares(s) >= 0
    decreases |s|
  {
    if s != [] {
      SumSquaresNonNegative(s[..|s| - 1]);
      var x := s[|s| - 1];
      assert x * x >= 0 by {
        if x < 0 { assert x * x == (-x) * (-x); }
      }
    }
  }

  /** The sum splits over concatenation. */
  lemma {:induction false} SumSquaresAppend(a: seq<int>, b: seq<int>)
    ensures SumSquares(a + b) == SumSquares(a) + SumSquares(b)
    decreases |b|
  {
    if b == [] {
      assert a + b == a;
    } else {
      var b' := b[..|b| - 1];
      assert (a + b)[..|a + b| - 1] == a + b';
      SumSquaresAppend(a, b');
    }
  }

  /** The order of the elements does not matter: a permutation has the same
      sum of squares. */
  lemma {:induction false} SumSquaresPermutation(a: seq<int>, b: seq<int>)
    requires multiset(a) == multiset(b)
    ensures SumSquares(a) == SumSquares(b)
    decreases |a|
  {
    assert |a| == |multiset(a)| == |b|;
    if a != [] {
      var a' := a[..|a| - 1];
      var x := a[|a| - 1];
      assert a == a' + [x];
      assert x in multiset(b);
      var i :| 0 <= i < |b| && b[i] == x;
      var b' := b[..i] + b[i + 1..];
      assert b == b[..i] + [x] + b[i + 1..];
      assert multiset(a') == multiset(b') by {
        assert multiset(a) == multiset(a') + multiset{x};
        assert multiset(b) == multiset(b[..i]) + multiset{x} + multiset(b[i + 1..]);
        assert multiset(b') == multiset(b[..i]) + multiset(b[i + 1..]);
        forall y
          ensures multiset(a')[y] == multiset(b')[y]
        {
          assert multiset(a)[y] == multiset(a')[y] + multiset{x}[y];
          assert multiset(b)[y] == multiset(b')[y] + multiset{x}[y];
        }
      }
      SumSquaresPermutation(a', b');
      SumSquaresAppend(b[..i] + [x], b[i + 1..]);
      SumSquaresAppend(b[..i], b[i + 1..]);
      assert (b[..i] + [x])[..i] == b[..i];
    }
  }
}
