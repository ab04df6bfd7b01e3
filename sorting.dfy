/** bubbleSort: in-place adjacent-swap sorting of an int slice. */
module Sorting {

  /** Ascending order, stated over every pair of positions. */
  ghost predicate Sorted(s: seq<int>)
  {
    forall i, j :: 0 <= i < j < |s| ==> s[i] <= s[j]
  }

  /** Ascending order, stated over adjacent positions (arr[j] <= arr[j+1]). */
  ghost predicate AdjacentSorted(s: seq<int>)
  {
    forall j :: 0 <= j < |s| - 1 ==> s[j] <= s[j + 1]
  }

  /** The adjacent form and the pairwise form of sortedness coincide. */
  lemma {:induction false} AdjacentSortedIsSorted(s: seq<int>)
    ensures AdjacentSorted(s) <==> Sorted(s)
    decreases |s|
  {
    if AdjacentSorted(s) && |s| > 1 {
      AdjacentSortedIsSorted(s[1..]);
      assert Sorted(s[1..]);
      forall i, j | 0 <= i < j < |s|
        ensures s[i] <= s[j]
      {
        if i > 0 {
          assert s[1..][i - 1] <= s[1..][j - 1];
        } else if j > 1 {
          assert s[1..][0] <= s[1..][j - 1];
        }
      }
    }
  }

  /** The head of a sorted sequence is at most each of its elements. */
  lemma SortedHeadIsLeast(a: seq<int>, x: int)
    requires Sorted(a) && x in multiset(a)
    ensures a[0] <= x
  {
  }

  lemma SortedTail(a: seq<int>)
    requires Sorted(a) && a != []
    ensures Sorted(a[1..])
  {
  }

  lemma SameHeadSameTail(a: seq<int>, b: seq<int>)
    requires a != [] && b != [] && a[0] == b[0] && multiset(a) == multiset(b)
    ensures multiset(a[1..]) == multiset(b[1..])
  {
    assert a == [a[0]] + a[1..];
    assert b == [b[0]] + b[1..];
    assert multiset(a) == multiset{a[0]} + multiset(a[1..]);
    assert multiset(b) == multiset{b[0]} + multiset(b[1..]);
    forall y
      ensures multiset(a[1..])[y] == multiset(b[1..])[y]
    {
      assert multiset(a)[y] == multiset{a[0]}[y] + multiset(a[1..])[y];
      assert multiset(b)[y] == multiset{b[0]}[y] + multiset(b[1..])[y];
    }
  }

  /** A sorted sequence is determined by its multiset of elements. */
  lemma {:induction false} SortedUnique(a: seq<int>, b: seq<int>)
    requires Sorted(a) && Sorted(b) && multiset(a) == multiset(b)
    ensures a == b
    decreases |a|
  {
    assert |a| == |multiset(a)| == |b|;
    if a != [] {
      SortedHeadIsLeast(a, b[0]);
      SortedHeadIsLeast(b, a[0]);
      SameHeadSameTail(a, b);
      SortedTail(a);
      SortedTail(b);
      SortedUnique(a[1..], b[1..]);
      assert a == [a[0]] + a[1..] && b == [b[0]] + b[1..];
    }
  }

  /** One pass of the inner loop over arr[..m]: the largest element of
      arr[..m] ends at position m - 1; arr[m..] is not touched, and every
      element of the prefix stays at most every element of the suffix. */
  method BubblePass(arr: array<int>, m: int)
    requires 0 < m <= arr.Length
    requires forall a, b :: 0 <= a < m <= b < arr.Length ==> arr[a] <= arr[b]
    modifies arr
    ensures forall k :: 0 <= k < m ==> arr[k] <= arr[m - 1]
    ensures forall a, b :: 0 <= a < m <= b < arr.Length ==> arr[a] <= arr[b]
    ensures forall k :: m <= k < arr.Length ==> arr[k] == old(arr[k])
    ensures multiset(arr[..]) == multiset(old(arr[..]))
  {
    var j := 0;
    while j < m - 1
      invariant 0 <= j <= m - 1
      invariant forall k :: 0 <= k <= j ==> arr[k] <= arr[j]
      invariant forall a, b :: 0 <= a < m <= b < arr.Length ==> arr[a] <= arr[b]
      invariant forall k :: m <= k < arr.Length ==> arr[k] == old(arr[k])
      invariant multiset(arr[..]) == multiset(old(arr[..]))
    {
      if arr[j] > arr[j + 1] {
        arr[j], arr[j + 1] := arr[j + 1], arr[j];
      }
      j := j + 1;
    }
  }

  /** bubbleSort: pass i bubbles the largest of arr[..n-i] up to position
      n-i-1 by swapping out-of-order neighbours. The array ends up sorted and a
      permutation of what it held, and an input already sorted is left as it
      was. */
  method BubbleSort(arr: array<int>)
    modifies arr
    ensures Sorted(arr[..])
    ensures AdjacentSorted(arr[..])
    ensures multiset(arr[..]) == multiset(old(arr[..]))
    ensures Sorted(old(arr[..])) ==> arr[..] == old(arr[..])
  {
    var n := arr.Length;
    var i := 0;
    while i < n
      invariant 0 <= i <= n
      invariant forall a, b :: n - i <= a < b < n ==> arr[a] <= arr[b]
      invariant forall a, b :: 0 <= a < n - i <= b < n ==> arr[a] <= arr[b]
      invariant multiset(arr[..]) == multiset(old(arr[..]))
    {
      BubblePass(arr, n - i);
      i := i + 1;
    }
    assert Sorted(arr[..]);
    AdjacentSortedIsSorted(arr[..]);
    if Sorted(old(arr[..])) {
      SortedUnique(arr[..], old(arr[..]));
    }
  }
}
