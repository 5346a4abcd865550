/** The four public strategies of class DeDup. Each Java method is void and
    only logs its outcome; here each returns the values it would log. */
module DeDup {
  import opened DistinctSpec
  import opened Sorting
  import opened Compaction

  /** The runtime failure a strategy can run into. */
  datatype Failure = IndexOutOfBounds(index: int)

  datatype Result<T> = Ok(value: T) | Err(error: Failure)

  /** What a sort-based strategy logs: the whole array once sorted ("All the
      elements") and the compacted distinct values. */
  datatype Report = Report(sorted: seq<int>, uniques: seq<int>)

  // ---------------------------------------------------------------------
  // findDeDupJava8: a stream filter over a HashSet of values seen so far
  // ---------------------------------------------------------------------

  /** Runs `s` in order through `filter(n -> allItems.add(n) == keepAdded)`
      starting from the set `seen` of values already added, and collects the
      kept values into a set. `Set.add` succeeds exactly when the value was
      not yet in the set. */
  function FilterByAdd(s: seq<int>, seen: set<int>, keepAdded: bool): (kept: set<int>)
    ensures kept <= Elems(s)
    ensures keepAdded ==> kept !! seen
    decreases |s|
  {
    if s == [] then {}
    else
      var added := s[0] !in seen;
      var rest := FilterByAdd(s[1..], seen + {s[0]}, keepAdded);
      if added == keepAdded then {s[0]} + rest else rest
  }

  /** Keeping the failed adds keeps the values already seen and those
      occurring twice or more in what remains. */
  lemma {:induction false} FailedAddsAreRepeats(s: seq<int>, seen: set<int>)
    ensures FilterByAdd(s, seen, false) ==
            set x | x in s && (x in seen || multiset(s)[x] >= 2)
  {
    if s != [] {
      var t := s[1..];
      assert s == [s[0]] + t;
      FailedAddsAreRepeats(t, seen + {s[0]});
      forall x
        ensures (x in s && (x in seen || multiset(s)[x] >= 2)) <==>
                ((x == s[0] && s[0] in seen) ||
                 (x in t && (x in seen + {s[0]} || multiset(t)[x] >= 2)))
      {
        assert multiset(s)[x] == multiset(t)[x] + (if x == s[0] then 1 else 0);
      }
    }
  }

  /** Keeping the successful adds keeps every value not seen before. */
  lemma {:induction false} SuccessfulAddsAreNewValues(s: seq<int>, seen: set<int>)
    ensures FilterByAdd(s, seen, true) == Elems(s) - seen
  {
    if s != [] {
      var t := s[1..];
      assert s == [s[0]] + t;
      SuccessfulAddsAreNewValues(t, seen + {s[0]});
      assert Elems(s) == {s[0]} + Elems(t);
    }
  }

  /** findDeDupJava8 as written: the filter keeps the values whose add fails,
      which are the values occurring at least twice. */
  function FindDeDupJava8(s: seq<int>): (duplicates: set<int>)
    ensures duplicates == Duplicated(s)
  {
    FailedAddsAreRepeats(s, {});
    FilterByAdd(s, {}, false)
  }

  /** findDeDupJava8 with the filter its comment describes (collect the values
      that were successfully added): the distinct values of the input. */
  function FindDistinctJava8(s: seq<int>): (uniques: set<int>)
    ensures uniques == Elems(s)
  {
    SuccessfulAddsAreNewValues(s, {});
    FilterByAdd(s, {}, true)
  }

  /** On the sample input the method as written reports {1, 34}, not the four
      distinct values its log message announces. */
  lemma Java8ReportsOnlyRepeats()
    ensures FindDeDupJava8([1, 2, 34, 34, 25, 1]) == {1, 34}
    ensures FindDistinctJava8([1, 2, 34, 34, 25, 1]) == {1, 2, 34, 25}
  {
  }

  // ---------------------------------------------------------------------
  // findDupe: order-preserving linear scan into a list
  // ---------------------------------------------------------------------

  /** The list built by findDupe: each entry is appended unless the list
      already contains it. */
  method FindDupe(a: seq<int>) returns (dupes: seq<int>)
    ensures Distinct(dupes)
    ensures Elems(dupes) == Elems(a)
    ensures InFirstOccurrenceOrder(dupes, a)
    ensures Distinct(a) ==> dupes == a
  {
    dupes := [];
    var i := 0;
    while i < |a|
      invariant 0 <= i <= |a|
      invariant Distinct(dupes)
      invariant Elems(dupes) == Elems(a[..i])
      invariant InFirstOccurrenceOrder(dupes, a)
      invariant forall p :: 0 <= p < |dupes| ==> dupes[p] in a && FirstIndex(a, dupes[p]) < i
    {
      assert a[..i + 1] == a[..i] + [a[i]];
      assert Elems(a[..i + 1]) == Elems(a[..i]) + {a[i]};
      if a[i] !in dupes {
        FirstIndexPrefix(a, a[i], i);
        FirstIndexAtMost(a, a[i], i);
        assert Elems(dupes + [a[i]]) == Elems(dupes) + {a[i]};
        AppendLaterValue(dupes, a, i);
        dupes := dupes + [a[i]];
      }
      i := i + 1;
    }
    assert a[..|a|] == a;
    if Distinct(a) {
      DistinctInOwnOrder(a);
      FirstOccurrenceOrderUnique(dupes, a, a);
    }
  }

  /** The head of a repeat-free list in first-occurrence order is the value
      of the list that occurs first in `a`. */
  lemma SameHead(r1: seq<int>, r2: seq<int>, a: seq<int>)
    requires r1 != [] && Elems(r1) == Elems(r2)
    requires InFirstOccurrenceOrder(r1, a) && InFirstOccurrenceOrder(r2, a)
    ensures r2 != [] && r1[0] == r2[0]
  {
    HeadInElems(r1);
    HeadInElems(r2);
    var m2 :| 0 <= m2 < |r2| && r2[m2] == r1[0];
    if m2 != 0 {
      assert false;
    }
  }

  /** A repeat-free list is in the order of its own first occurrences. */
  lemma DistinctInOwnOrder(a: seq<int>)
    requires Distinct(a)
    ensures InFirstOccurrenceOrder(a, a)
  {
  }

  /** Appending a value that first occurs after every value of the list keeps
      the list in first-occurrence order. */
  lemma AppendLaterValue(r: seq<int>, a: seq<int>, i: int)
    requires 0 <= i < |a| && FirstIndex(a, a[i]) == i
    requires InFirstOccurrenceOrder(r, a)
    requires forall p :: 0 <= p < |r| ==> r[p] in a && FirstIndex(a, r[p]) < i
    ensures InFirstOccurrenceOrder(r + [a[i]], a)
  {
  }

  /** The list findDupe must build is fixed by its contract: two repeat-free
      lists with the same values, both in first-occurrence order, are equal. */
  lemma {:induction false} FirstOccurrenceOrderUnique(r1: seq<int>, r2: seq<int>, a: seq<int>)
    requires Distinct(r1) && Distinct(r2) && Elems(r1) == Elems(r2)
    requires InFirstOccurrenceOrder(r1, a) && InFirstOccurrenceOrder(r2, a)
    ensures r1 == r2
  {
    if r1 != [] {
      SameHead(r1, r2, a);
      var t1, t2 := r1[1..], r2[1..];
      assert r1 == [r1[0]] + t1 && r2 == [r2[0]] + t2;
      assert Elems(r1) == {r1[0]} + Elems(t1) && r1[0] !in Elems(t1);
      assert Elems(r2) == {r2[0]} + Elems(t2) && r2[0] !in Elems(t2);
      assert InFirstOccurrenceOrder(t1, a) && InFirstOccurrenceOrder(t2, a);
      FirstOccurrenceOrderUnique(t1, t2, a);
      assert r1 == r2;
    } else if r2 != [] {
      HeadInElems(r2);
      assert false;
    }
  }

  /** [1, 2, 34, 25] lists the values of the sample input in the order of
      their first occurrences. */
  lemma SampleFirstOccurrences(a: seq<int>, e: seq<int>)
    requires a == [1, 2, 34, 34, 25, 1] && e == [1, 2, 34, 25]
    ensures Elems(e) == Elems(a)
    ensures InFirstOccurrenceOrder(e, a)
  {
    var first := [0, 1, 2, 4];
    assert Elems(a) == {1, 2, 34, 25};
    forall k | 0 <= k < 4
      ensures e[k] in a && FirstIndex(a, e[k]) == first[k]
    {
      assert a[first[k]] == e[k];
      FirstIndexAtMost(a, e[k], first[k]);
    }
  }

  /** On the sample input, the only list meeting findDupe's contract is
      [1, 2, 34, 25]. */
  lemma FindDupeSample(r: seq<int>)
    requires Distinct(r) && Elems(r) == Elems([1, 2, 34, 34, 25, 1])
    requires InFirstOccurrenceOrder(r, [1, 2, 34, 34, 25, 1])
    ensures r == [1, 2, 34, 25]
  {
    var a, e := [1, 2, 34, 34, 25, 1], [1, 2, 34, 25];
    SampleFirstOccurrences(a, e);
    FirstOccurrenceOrderUnique(r, e, a);
  }

  // ---------------------------------------------------------------------
  // findDupeSimple and findDupeWithQuickSort: sort, then compact
  // ---------------------------------------------------------------------

  /** findDupeSimple: nested-loop sort, then compaction. */
  method FindDupeSimple(a: seq<int>) returns (r: Report)
    ensures Sorted(r.sorted) && multiset(r.sorted) == multiset(a)
    ensures Distinct(r.uniques) && Elems(r.uniques) == Elems(a)
    ensures |r.uniques| == |Elems(a)|
  {
    var sorted := SimpleSort(a);
    SameValues(sorted, a);
    var uniques := RemoveDuplicates(sorted);
    r := Report(sorted, uniques);
  }

  /** findDupeWithQuickSort as written: quickSort(0, length - 1, a) reads its
      pivot at index 0 + (-1 - 0) / 2, which Java's truncating division makes
      0, so an empty array fails with an out-of-bounds read at index 0. */
  method FindDupeWithQuickSort(a: seq<int>) returns (r: Result<Report>)
    ensures |a| == 0 ==> r == Err(IndexOutOfBounds(0))
    ensures |a| > 0 ==> r.Ok?
    ensures r.Ok? ==> Sorted(r.value.sorted) && multiset(r.value.sorted) == multiset(a)
    ensures r.Ok? ==> Distinct(r.value.uniques) && Elems(r.value.uniques) == Elems(a)
    ensures r.Ok? ==> |r.value.uniques| == |Elems(a)|
  {
    var length := |a|;
    if length == 0 {
      return Err(IndexOutOfBounds(0));
    }
    var sorted := QuickSort(a, 0, length - 1);
    SameValues(sorted, a);
    var uniques := RemoveDuplicates(sorted);
    return Ok(Report(sorted, uniques));
  }

  /** findDupeWithQuickSort with the empty array handled like the other
      strategies handle it: nothing to sort and no values to report. */
  method FindDupeWithQuickSortGuarded(a: seq<int>) returns (r: Report)
    ensures Sorted(r.sorted) && multiset(r.sorted) == multiset(a)
    ensures Distinct(r.uniques) && Elems(r.uniques) == Elems(a)
    ensures |r.uniques| == |Elems(a)|
  {
    if |a| == 0 {
      return Report([], []);
    }
    var res := FindDupeWithQuickSort(a);
    r := res.value;
  }
}
