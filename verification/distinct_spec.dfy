/** Reference notions shared by every deduplication strategy: the values of a
    sequence, sortedness, pairwise distinctness, multiplicity and the position
    of a value's first occurrence. None of them mirrors an algorithm; they are
    the yardsticks the algorithms are measured against. */
module DistinctSpec {

  /** The values occurring in `s`, forgetting order and multiplicity. */
  function Elems(s: seq<int>): set<int>
  {
    set x | x in s
  }

  /** `s` is non-decreasing on the half-open index range [lo, hi). */
  predicate SortedBetween(s: seq<int>, lo: int, hi: int)
    requires 0 <= lo && hi <= |s|
  {
    forall p, q :: lo <= p < q < hi ==> s[p] <= s[q]
  }

  /** `s` is non-decreasing. */
  predicate Sorted(s: seq<int>)
  {
    SortedBetween(s, 0, |s|)
  }

  /** No value occurs twice in `s`. */
  predicate Distinct(s: seq<int>)
  {
    forall p, q :: 0 <= p < q < |s| ==> s[p] != s[q]
  }

  /** The values that occur at least twice in `s`. */
  function Duplicated(s: seq<int>): set<int>
  {
    set x | x in s && multiset(s)[x] >= 2
  }

  /** The index of the first occurrence of `x` in `s`. */
  function FirstIndex(s: seq<int>, x: int): (k: nat)
    requires x in s
    ensures k < |s| && s[k] == x
    ensures forall m :: 0 <= m < k ==> s[m] != x
  {
    if s[0] == x then 0 else 1 + FirstIndex(s[1..], x)
  }

  /** Every value of `r` occurs in `a`, and `r` lists its values in the order
      in which they first occur in `a`. */
  predicate InFirstOccurrenceOrder(r: seq<int>, a: seq<int>)
  {
    && (forall p :: 0 <= p < |r| ==> r[p] in a)
    && forall p, q :: 0 <= p < q < |r| ==>
      r[p] in a && r[q] in a && FirstIndex(a, r[p]) < FirstIndex(a, r[q])
  }

  /** The first entry of a non-empty sequence is one of its values. */
  lemma HeadInElems(s: seq<int>)
    requires s != []
    ensures s[0] in Elems(s)
  {
  }

  /** A sequence without repeats has exactly as many values as entries. */
  lemma {:induction false} DistinctCard(s: seq<int>)
    requires Distinct(s)
    ensures |Elems(s)| == |s|
  {
    if s != [] {
      var t := s[..|s| - 1];
      assert Distinct(t);
      DistinctCard(t);
      assert s == t + [s[|s| - 1]];
      assert Elems(s) == Elems(t) + {s[|s| - 1]};
      assert s[|s| - 1] !in Elems(t);
    }
  }

  /** A permutation has the same values. */
  lemma SameValues(a: seq<int>, b: seq<int>)
    requires multiset(a) == multiset(b)
    ensures Elems(a) == Elems(b)
  {
    forall x
      ensures x in a <==> x in b
    {
      assert x in a <==> x in multiset(a);
      assert x in b <==> x in multiset(b);
    }
  }

  /** Any position before the first occurrence does not hold `x`, so an
      occurrence at `m` bounds the first one from above. */
  lemma FirstIndexAtMost(s: seq<int>, x: int, m: int)
    requires 0 <= m < |s| && s[m] == x
    ensures FirstIndex(s, x) <= m
  {
  }

  /** A value that does not occur before position `i` but occurs at `i`
      first occurs at `i`; a value that occurs before `i` first occurs there. */
  lemma FirstIndexPrefix(s: seq<int>, x: int, i: int)
    requires 0 <= i <= |s| && x in s
    ensures x in s[..i] <==> FirstIndex(s, x) < i
  {
  }
}
