/** The two in-place sorts of DeDup: the nested compare-and-swap loop of
    findDupeSimple and the recursive quickSort, with the swapNumbers helper
    they share. The Java methods overwrite the caller's int[]; here an array's
    contents are a `seq<int>` that each method takes and returns updated. */
module Sorting {
  import opened DistinctSpec

  /** `b` agrees with `a` everywhere outside the inclusive index range
      [begin, last]. */
  predicate SameOutside(a: seq<int>, b: seq<int>, begin: int, last: int)
  {
    |b| == |a| && forall k :: 0 <= k < |a| && !(begin <= k <= last) ==> b[k] == a[k]
  }

  /** swapNumbers(i, j, a): exchanges the entries at `i` and `j`. */
  function Swap(a: seq<int>, i: int, j: int): (b: seq<int>)
    requires 0 <= i < |a| && 0 <= j < |a|
    ensures |b| == |a| && b[i] == a[j] && b[j] == a[i]
    ensures forall k :: 0 <= k < |a| && k != i && k != j ==> b[k] == a[k]
    ensures multiset(b) == multiset(a)
  {
    var temp := a[i];
    a[i := a[j]][j := temp]
  }

  /** Swapping the same two positions twice restores the array. */
  lemma SwapTwice(a: seq<int>, i: int, j: int)
    requires 0 <= i < |a| && 0 <= j < |a|
    ensures Swap(Swap(a, i, j), i, j) == a
  {
  }

  /** The nested loop at the head of findDupeSimple: for each position `i`,
      every later entry smaller than a[i] is swapped into position `i`. */
  method SimpleSort(a: seq<int>) returns (b: seq<int>)
    ensures Sorted(b)
    ensures multiset(b) == multiset(a)
  {
    b := a;
    var i := 0;
    while i < |b|
      invariant |b| == |a| && 0 <= i <= |b|
      invariant multiset(b) == multiset(a)
      invariant SortedBetween(b, 0, i)
      // every settled entry is at most every unsettled one
      invariant forall p, q :: 0 <= p < i <= q < |b| ==> b[p] <= b[q]
    {
      var j := i;
      while j < |b|
        invariant |b| == |a| && i <= j <= |b|
        invariant multiset(b) == multiset(a)
        invariant SortedBetween(b, 0, i)
        invariant forall p, q :: 0 <= p < i <= q < |b| ==> b[p] <= b[q]
        // b[i] is the minimum of b[i..j)
        invariant forall q :: i <= q < j ==> b[i] <= b[q]
      {
        if b[i] > b[j] {
          b := Swap(b, i, j);
        }
        j := j + 1;
      }
      i := i + 1;
    }
  }

  /** The partitioning `while (i <= j)` loop of quickSort on the inclusive
      range [begin, last], with the middle entry as pivot. On return the
      cursors have crossed (j < i), everything in [begin, i) is at most the
      pivot, everything in (j, last] is at least the pivot, and both
      sub-ranges the recursion visits are strictly shorter than [begin, last]. */
  method Partition(a: seq<int>, begin: int, last: int)
    returns (b: seq<int>, i: int, j: int, pivot: int)
    requires 0 <= begin <= last < |a|
    ensures pivot == a[begin + (last - begin) / 2]
    ensures multiset(b) == multiset(a) && SameOutside(a, b, begin, last)
    ensures begin < i <= last + 1 && begin - 1 <= j < last && j < i
    ensures forall k :: begin <= k < i ==> b[k] <= pivot
    ensures forall k :: j < k <= last ==> b[k] >= pivot
  {
    b := a;
    i, j := begin, last;
    var mid := begin + (last - begin) / 2;
    pivot := b[mid];
    ghost var first := true;
    while i <= j
      invariant multiset(b) == multiset(a) && SameOutside(a, b, begin, last)
      invariant begin <= i <= last + 1 && begin - 1 <= j <= last
      invariant first ==> i == begin && j == last && b == a
      invariant !first ==> begin < i && j < last
      invariant forall k :: begin <= k < i ==> b[k] <= pivot
      invariant forall k :: j < k <= last ==> b[k] >= pivot
      decreases j - i + 1
    {
      // An entry at least the pivot that stops the upward scan, and one at
      // most the pivot that stops the downward scan: the pivot itself on the
      // first pass, afterwards the two entries swapped last.
      ghost var up := if first then mid else j + 1;
      ghost var down := if first then mid else i - 1;
      while b[i] < pivot
        invariant begin <= i <= up <= last && b[up] >= pivot
        invariant forall k :: begin <= k < i ==> b[k] <= pivot
        decreases up - i
      {
        i := i + 1;
      }
      while b[j] > pivot
        invariant begin <= down <= j <= last && b[down] <= pivot
        invariant forall k :: j < k <= last ==> b[k] >= pivot
        decreases j - down
      {
        j := j - 1;
      }
      if i <= j {
        SwapKeepsPartition(a, b, begin, last, i, j, pivot);
        b := Swap(b, i, j);
        i := i + 1;
        j := j - 1;
      }
      first := false;
    }
  }

  /** One swap of the partition loop: exchanging an entry at least the pivot
      at `i` with an entry at most the pivot at `j` extends both settled
      regions by one position and keeps the range a permutation. */
  lemma SwapKeepsPartition(a: seq<int>, b: seq<int>, begin: int, last: int, i: int, j: int, pivot: int)
    requires 0 <= begin <= i <= j <= last < |a| == |b|
    requires multiset(b) == multiset(a) && SameOutside(a, b, begin, last)
    requires b[i] >= pivot && b[j] <= pivot
    requires forall k :: begin <= k < i ==> b[k] <= pivot
    requires forall k :: j < k <= last ==> b[k] >= pivot
    ensures multiset(Swap(b, i, j)) == multiset(a) && SameOutside(a, Swap(b, i, j), begin, last)
    ensures forall k :: begin <= k < i + 1 ==> Swap(b, i, j)[k] <= pivot
    ensures forall k :: j - 1 < k <= last ==> Swap(b, i, j)[k] >= pivot
  {
  }

  /** Under a permutation that leaves everything outside [begin, last] in
      place, every entry of that range comes from the same range. */
  lemma EntryFromRange(a: seq<int>, b: seq<int>, begin: int, last: int, k: int) returns (m: int)
    requires 0 <= begin <= k <= last < |a|
    requires multiset(b) == multiset(a) && SameOutside(a, b, begin, last)
    ensures begin <= m <= last && a[m] == b[k]
  {
    SliceMultiset(a, b, begin, last);
    assert b[k] == b[begin..last + 1][k - begin];
    assert b[k] in multiset(a[begin..last + 1]);
    var n :| 0 <= n < last + 1 - begin && a[begin..last + 1][n] == b[k];
    m := begin + n;
  }

  /** A permutation that leaves everything outside [begin, last] in place
      permutes the entries inside it. */
  lemma {:induction false} SliceMultiset(a: seq<int>, b: seq<int>, begin: int, last: int)
    requires 0 <= begin <= last < |a|
    requires multiset(b) == multiset(a) && SameOutside(a, b, begin, last)
    ensures multiset(b[begin..last + 1]) == multiset(a[begin..last + 1])
  {
    var outside := multiset(a[..begin]) + multiset(a[last + 1..]);
    assert a == a[..begin] + a[begin..last + 1] + a[last + 1..];
    assert b == b[..begin] + b[begin..last + 1] + b[last + 1..];
    assert a[..begin] == b[..begin];
    assert a[last + 1..] == b[last + 1..];
    assert multiset(a) == outside + multiset(a[begin..last + 1]);
    assert multiset(b) == outside + multiset(b[begin..last + 1]);
    assert multiset(b[begin..last + 1]) == multiset(b) - outside;
  }

  /** quickSort(begin, last, a): sorts the inclusive range [begin, last] in
      place and leaves the rest of the array alone. */
  method QuickSort(a: seq<int>, begin: int, last: int) returns (b: seq<int>)
    requires 0 <= begin <= last < |a|
    ensures multiset(b) == multiset(a) && SameOutside(a, b, begin, last)
    ensures SortedBetween(b, begin, last + 1)
    decreases last - begin
  {
    var i, j, pivot;
    b, i, j, pivot := Partition(a, begin, last);
    ghost var parted := b;
    if begin < j {
      b := QuickSort(b, begin, j);
      forall k | begin <= k <= j
        ensures b[k] <= pivot
      {
        var m := EntryFromRange(parted, b, begin, j, k);
      }
    }
    ghost var lowSorted := b;
    if i < last {
      b := QuickSort(b, i, last);
      forall k | i <= k <= last
        ensures b[k] >= pivot
      {
        var m := EntryFromRange(lowSorted, b, i, last, k);
      }
    }
  }
}
