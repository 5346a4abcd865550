/** removeDuplicatesAndPrint: in-place compaction by overwriting a repeated
    entry with the last active entry and shrinking the active length. */
module Compaction {
  import opened DistinctSpec

  /** Overwriting a repeat at `j` of the entry at `i` with the last active
      entry and dropping the last position keeps the active values. */
  lemma OverwriteKeepsValues(b: seq<int>, n: int, i: int, j: int)
    requires 0 <= i < j < n <= |b| && b[j] == b[i]
    ensures Elems(b[j := b[n - 1]][..n - 1]) == Elems(b[..n])
  {
    var c := b[j := b[n - 1]];
    forall x | x in Elems(b[..n])
      ensures x in Elems(c[..n - 1])
    {
      var k :| 0 <= k < n && b[k] == x;
      if k == j {
        assert c[..n - 1][i] == x;
      } else if k == n - 1 {
        assert c[..n - 1][j] == x;
      } else {
        assert c[..n - 1][k] == x;
      }
    }
    forall x | x in Elems(c[..n - 1])
      ensures x in Elems(b[..n])
    {
      var k :| 0 <= k < n - 1 && c[k] == x;
      if k == j {
        assert b[..n][n - 1] == x;
      } else {
        assert b[..n][k] == x;
      }
    }
  }

  /** The compaction loops of removeDuplicatesAndPrint followed by the copy
      of the active prefix into noDupList, which is what it logs. The result
      holds every input value exactly once; it need not be sorted, because
      entries are pulled forward from the tail. */
  method RemoveDuplicates(a: seq<int>) returns (noDupList: seq<int>)
    ensures Distinct(noDupList)
    ensures Elems(noDupList) == Elems(a)
    ensures |noDupList| == |Elems(a)|
    ensures Distinct(a) ==> noDupList == a
  {
    var b := a;
    var lastIndex := |b|;
    var i := 0;
    while i < lastIndex
      invariant |b| == |a| && 0 <= i <= lastIndex <= |b|
      invariant Elems(b[..lastIndex]) == Elems(a)
      // each settled entry differs from every active entry after it
      invariant forall p, q :: 0 <= p < i && p < q < lastIndex ==> b[p] != b[q]
      invariant Distinct(a) ==> b == a && lastIndex == |a|
      decreases lastIndex - i
    {
      var j := i + 1;
      ghost var activeBefore := lastIndex;
      while j < lastIndex
        invariant lastIndex <= activeBefore
        invariant |b| == |a| && i < lastIndex <= |b| && i + 1 <= j <= lastIndex
        invariant Elems(b[..lastIndex]) == Elems(a)
        invariant forall p, q :: 0 <= p < i && p < q < lastIndex ==> b[p] != b[q]
        invariant forall q :: i < q < j ==> b[q] != b[i]
        invariant Distinct(a) ==> b == a && lastIndex == |a|
        decreases lastIndex - j
      {
        if b[i] == b[j] {
          OverwriteKeepsValues(b, lastIndex, i, j);
          b := b[j := b[lastIndex - 1]];
          lastIndex := lastIndex - 1;
          j := j - 1;
        }
        j := j + 1;
      }
      i := i + 1;
    }
    noDupList := b[..lastIndex];
    DistinctCard(noDupList);
  }
}
