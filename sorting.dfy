/**
 * The hand-written sorts of the analysis service
 * (service/StockAnalysisService.java): a merge sort over lists and an
 * in-place quick sort with the last element as pivot.
 *
 * Both take the comparator as the relation `le` (see `Orders`); the results
 * are sorted ascending for `le`.
 */
module Sorting {
  import opened Orders

  // ---------------------------------------------------------------------
  // Merge sort

  /** The merge of two lists: the smaller head goes first, the left head on ties. */
  function Merged<T>(a: seq<T>, b: seq<T>, le: (T, T) -> bool): (r: seq<T>)
    ensures |r| == |a| + |b|
    ensures multiset(r) == multiset(a) + multiset(b)
    decreases |a| + |b|
  {
    if a == [] then b
    else if b == [] then a
    else if le(a[0], b[0]) then
      assert a == [a[0]] + a[1..];
      [a[0]] + Merged(a[1..], b, le)
    else
      assert b == [b[0]] + b[1..];
      [b[0]] + Merged(a, b[1..], le)
  }

  /**
   * `merge`: the index loop that takes the smaller head of the two lists,
   * then appends what is left of either; it computes `Merged`.
   */
  method Merge<T>(left: seq<T>, right: seq<T>, le: (T, T) -> bool) returns (result: seq<T>)
    ensures result == Merged(left, right, le)
  {
    result := [];
    var i, j := 0, 0;
    while i < |left| && j < |right|
      invariant 0 <= i <= |left| && 0 <= j <= |right|
      invariant result + Merged(left[i..], right[j..], le) == Merged(left, right, le)
      decreases |left| - i + |right| - j
    {
      MergedAt(left, right, i, j, le);
      if le(left[i], right[j]) {
        ConcatAssoc(result, [left[i]], Merged(left[i + 1..], right[j..], le));
        result := result + [left[i]];
        i := i + 1;
      } else {
        ConcatAssoc(result, [right[j]], Merged(left[i..], right[j + 1..], le));
        result := result + [right[j]];
        j := j + 1;
      }
    }
    result := result + left[i..];
    result := result + right[j..];
  }

  /** One step of the merge loop, at positions `i` and `j`. */
  lemma MergedAt<T>(left: seq<T>, right: seq<T>, i: int, j: int, le: (T, T) -> bool)
    requires 0 <= i < |left| && 0 <= j < |right|
    ensures le(left[i], right[j]) ==> Merged(left[i..], right[j..], le) == [left[i]] + Merged(left[i + 1..], right[j..], le)
    ensures !le(left[i], right[j]) ==> Merged(left[i..], right[j..], le) == [right[j]] + Merged(left[i..], right[j + 1..], le)
  {
    MergedUnfold(left[i..], right[j..], le);
    assert left[i..][1..] == left[i + 1..];
    assert right[j..][1..] == right[j + 1..];
  }

  lemma MergedUnfold<T>(a: seq<T>, b: seq<T>, le: (T, T) -> bool)
    requires a != [] && b != []
    ensures le(a[0], b[0]) ==> Merged(a, b, le) == [a[0]] + Merged(a[1..], b, le)
    ensures !le(a[0], b[0]) ==> Merged(a, b, le) == [b[0]] + Merged(a, b[1..], le)
  {
  }

  /** `mergeSort`: lists of at most one element are returned as they are; longer ones are split at the middle. */
  function MergeSort<T>(s: seq<T>, le: (T, T) -> bool): (r: seq<T>)
    ensures |r| == |s|
    ensures multiset(r) == multiset(s)
    decreases |s|
  {
    if |s| <= 1 then s
    else
      var mid := |s| / 2;
      assert s == s[..mid] + s[mid..];
      Merged(MergeSort(s[..mid], le), MergeSort(s[mid..], le), le)
  }

  /** A head that is `le` everything after it extends a sorted list. */
  lemma SortedCons<T>(h: T, s: seq<T>, le: (T, T) -> bool)
    requires SortedBy(s, le)
    requires forall x :: x in s ==> le(h, x)
    ensures SortedBy([h] + s, le)
  {
    var r := [h] + s;
    forall i, j | 0 <= i < j < |r|
      ensures le(r[i], r[j])
    {
      if i == 0 {
        assert r[j] == s[j - 1];
        assert r[j] in s;
      } else {
        assert r[i] == s[i - 1] && r[j] == s[j - 1];
      }
    }
  }

  /** Merging two sorted lists gives a sorted list. */
  lemma {:induction false} MergedSorted<T(!new)>(a: seq<T>, b: seq<T>, le: (T, T) -> bool)
    requires TotalPreorder(le)
    requires SortedBy(a, le) && SortedBy(b, le)
    ensures SortedBy(Merged(a, b, le), le)
    decreases |a| + |b|
  {
    if a == [] || b == [] {
    } else if le(a[0], b[0]) {
      var rest := Merged(a[1..], b, le);
      MergedSorted(a[1..], b, le);
      forall x | x in rest
        ensures le(a[0], x)
      {
        assert x in multiset(rest);
        if x in multiset(a[1..]) {
          assert x in a[1..];
        } else {
          assert x in b;
          var k :| 0 <= k < |b| && b[k] == x;
          if k > 0 {
            assert le(b[0], b[k]);
          }
        }
      }
      SortedCons(a[0], rest, le);
    } else {
      var rest := Merged(a, b[1..], le);
      MergedSorted(a, b[1..], le);
      assert le(b[0], a[0]);
      forall x | x in rest
        ensures le(b[0], x)
      {
        assert x in multiset(rest);
        if x in multiset(b[1..]) {
          assert x in b[1..];
        } else {
          assert x in a;
          var k :| 0 <= k < |a| && a[k] == x;
          if k > 0 {
            assert le(a[0], a[k]);
          }
        }
      }
      SortedCons(b[0], rest, le);
    }
  }

  /** `mergeSort` returns its input sorted ascending for a valid comparator. */
  lemma {:induction false} MergeSortSorted<T(!new)>(s: seq<T>, le: (T, T) -> bool)
    requires TotalPreorder(le)
    ensures SortedBy(MergeSort(s, le), le)
    decreases |s|
  {
    if |s| > 1 {
      var mid := |s| / 2;
      MergeSortSorted(s[..mid], le);
      MergeSortSorted(s[mid..], le);
      MergedSorted(MergeSort(s[..mid], le), MergeSort(s[mid..], le), le);
    }
  }

  // ---------------------------------------------------------------------
  // Stability

  /** The elements that compare equal to `x`. */
  function EquivalentTo<T>(le: (T, T) -> bool, x: T): T -> bool {
    y => le(x, y) && le(y, x)
  }

  lemma FilterNone<T(!new)>(s: seq<T>, p: T -> bool)
    requires forall y :: y in s ==> !p(y)
    ensures Filter(s, p) == []
  {
    FilterMembers(s, p);
    if Filter(s, p) != [] {
      assert Filter(s, p)[0] in Filter(s, p);
    }
  }

  lemma FilterCons<T(!new)>(h: T, s: seq<T>, p: T -> bool)
    ensures p(h) ==> Filter([h] + s, p) == [h] + Filter(s, p)
    ensures !p(h) ==> Filter([h] + s, p) == Filter(s, p)
  {
    assert ([h] + s)[1..] == s;
  }

  lemma ConcatAssoc<T>(x: seq<T>, y: seq<T>, z: seq<T>)
    ensures x + (y + z) == (x + y) + z
  {
  }

  /**
   * Merging keeps, for every class of equal elements, the left list's
   * members before the right list's, each in their own order.
   */
  lemma {:induction false} MergedStable<T(!new)>(a: seq<T>, b: seq<T>, le: (T, T) -> bool, x: T)
    requires TotalPreorder(le)
    requires SortedBy(a, le) && SortedBy(b, le)
    ensures Filter(Merged(a, b, le), EquivalentTo(le, x))
         == Filter(a, EquivalentTo(le, x)) + Filter(b, EquivalentTo(le, x))
    decreases |a| + |b|
  {
    var p := EquivalentTo(le, x);
    if a == [] {
      assert a + b == b;
    } else if b == [] {
      assert Filter(b, p) == [];
    } else if le(a[0], b[0]) {
      MergedStable(a[1..], b, le, x);
      StableTakeLeft(a, b, le, p);
    } else {
      MergedStable(a, b[1..], le, x);
      if p(b[0]) {
        NoneEquivalentInLarger(a, b[0], le, x);
        FilterNone(a, p);
      }
      StableTakeRight(a, b, le, p);
    }
  }

  /** The step of `MergedStable` that takes the left head. */
  lemma StableTakeLeft<T(!new)>(a: seq<T>, b: seq<T>, le: (T, T) -> bool, p: T -> bool)
    requires a != [] && b != [] && le(a[0], b[0])
    requires Filter(Merged(a[1..], b, le), p) == Filter(a[1..], p) + Filter(b, p)
    ensures Filter(Merged(a, b, le), p) == Filter(a, p) + Filter(b, p)
  {
    var m := Merged(a[1..], b, le);
    MergedUnfold(a, b, le);
    FilterCons(a[0], m, p);
    if p(a[0]) {
      ConcatAssoc([a[0]], Filter(a[1..], p), Filter(b, p));
    }
  }

  /** The step of `MergedStable` that takes the right head, which passes no kept element of the left list. */
  lemma StableTakeRight<T(!new)>(a: seq<T>, b: seq<T>, le: (T, T) -> bool, p: T -> bool)
    requires a != [] && b != [] && !le(a[0], b[0])
    requires Filter(Merged(a, b[1..], le), p) == Filter(a, p) + Filter(b[1..], p)
    requires p(b[0]) ==> Filter(a, p) == []
    ensures Filter(Merged(a, b, le), p) == Filter(a, p) + Filter(b, p)
  {
    var m := Merged(a, b[1..], le);
    MergedUnfold(a, b, le);
    FilterCons(b[0], m, p);
    if p(b[0]) {
      assert Filter(a, p) + Filter(b[1..], p) == Filter(b[1..], p);
    }
  }

  /**
   * When the right head is taken because it is smaller than the left head,
   * no element of the (sorted) left list is equal to it.
   */
  lemma NoneEquivalentInLarger<T(!new)>(a: seq<T>, h: T, le: (T, T) -> bool, x: T)
    requires TotalPreorder(le) && SortedBy(a, le)
    requires a != [] && !le(a[0], h) && EquivalentTo(le, x)(h)
    ensures forall y :: y in a ==> !EquivalentTo(le, x)(y)
  {
    forall y | y in a
      ensures !EquivalentTo(le, x)(y)
    {
      var k :| 0 <= k < |a| && a[k] == y;
      if k > 0 {
        assert le(a[0], a[k]);
      }
      Transitive(le, y, x, h);
      Transitive(le, a[0], y, h);
    }
  }

  /** One use of transitivity, stated so that it can be invoked before its premises are known. */
  lemma Transitive<T(!new)>(le: (T, T) -> bool, a: T, b: T, c: T)
    requires TotalPreorder(le)
    ensures le(a, b) && le(b, c) ==> le(a, c)
  {
  }


  lemma FilterSplit<T(!new)>(s: seq<T>, mid: int, p: T -> bool)
    requires 0 <= mid <= |s|
    ensures Filter(s, p) == Filter(s[..mid], p) + Filter(s[mid..], p)
  {
    FilterConcat(s[..mid], s[mid..], p);
    assert s == s[..mid] + s[mid..];
  }

  /** `MergedStable` for the two sorted halves of a merge sort. */
  lemma MergedSortedHalves<T(!new)>(l: seq<T>, r: seq<T>, le: (T, T) -> bool, x: T)
    requires TotalPreorder(le)
    ensures Filter(Merged(MergeSort(l, le), MergeSort(r, le), le), EquivalentTo(le, x))
         == Filter(MergeSort(l, le), EquivalentTo(le, x)) + Filter(MergeSort(r, le), EquivalentTo(le, x))
  {
    MergeSortSorted(l, le);
    MergeSortSorted(r, le);
    MergedStable(MergeSort(l, le), MergeSort(r, le), le, x);
  }

  /** `mergeSort` is stable: elements that compare equal keep their input order. */
  lemma {:induction false} MergeSortStable<T(!new)>(s: seq<T>, le: (T, T) -> bool, x: T)
    requires TotalPreorder(le)
    ensures Filter(MergeSort(s, le), EquivalentTo(le, x)) == Filter(s, EquivalentTo(le, x))
    decreases |s|
  {
    if |s| > 1 {
      var p := EquivalentTo(le, x);
      var mid := |s| / 2;
      var l, r := s[..mid], s[mid..];
      MergeSortStable(l, le, x);
      MergeSortStable(r, le, x);
      MergedSortedHalves(l, r, le, x);
      FilterSplit(s, mid, p);
    }
  }


  // ---------------------------------------------------------------------
  // Quick sort

  /**
   * `quickSort`: lists of at most one element are returned as they are;
   * otherwise a copy is sorted in place and returned, the input is untouched.
   */
  method QuickSort<T(!new)>(stocks: seq<T>, le: (T, T) -> bool) returns (sorted: seq<T>)
    requires TotalPreorder(le)
    ensures multiset(sorted) == multiset(stocks)
    ensures SortedBy(sorted, le)
  {
    if |stocks| <= 1 {
      return stocks;
    }
    var a := new T[|stocks|](k requires 0 <= k < |stocks| => stocks[k]);
    assert a[..] == stocks;
    assert a[0..a.Length] == a[..];
    QuickSortHelper(a, 0, a.Length - 1, le);
    assert a[0..a.Length] == a[..];
    sorted := a[..];
  }

  /** `quickSortHelper`: sorts the segment `a[low..high]` (both ends included) and touches nothing else. */
  method QuickSortHelper<T(!new)>(a: array<T>, low: int, high: int, le: (T, T) -> bool)
    requires TotalPreorder(le)
    requires 0 <= low <= high + 1 <= a.Length
    modifies a
    ensures a[..low] == old(a[..low]) && a[high + 1..] == old(a[high + 1..])
    ensures multiset(a[low..high + 1]) == multiset(old(a[low..high + 1]))
    ensures SortedBy(a[low..high + 1], le)
    decreases high - low
  {
    if low < high {
      var pi := Partition(a, low, high, le);
      ghost var parted := a[..];
      QuickSortHelper(a, low, pi - 1, le);
      ghost var leftSorted := a[..];
      QuickSortHelper(a, pi + 1, high, le);
      QuickSortJoin(parted, leftSorted, a[..], low, pi, high, le);
    }
  }

  /**
   * `partition` with the last element of the segment as pivot: the elements
   * `le` the pivot are swapped to the front, then the pivot is swapped in
   * after them; returns the pivot's final slot.
   */
  method Partition<T(!new)>(a: array<T>, low: int, high: int, le: (T, T) -> bool) returns (pi: int)
    requires TotalPreorder(le)
    requires 0 <= low < high < a.Length
    modifies a
    ensures low <= pi <= high
    ensures a[..low] == old(a[..low]) && a[high + 1..] == old(a[high + 1..])
    ensures multiset(a[low..high + 1]) == multiset(old(a[low..high + 1]))
    ensures forall x :: x in a[low..pi] ==> le(x, a[pi])
    ensures forall x :: x in a[pi + 1..high + 1] ==> le(a[pi], x)
  {
    var pivot := a[high];
    var i := low - 1;
    for j := low to high
      invariant Partitioning(a[..], old(a[..]), low, high, i, j, pivot, le)
    {
      i := PartitionVisit(a, old(a[..]), low, high, i, j, pivot, le);
    }
    ghost var s := a[..];
    SwapSlots(a, i + 1, high);
    pi := i + 1;
    PartitionEnd(s, old(a[..]), a[..], low, high, pi, pivot, le);
  }

  /** The body of the partition loop: slot `j` joins the `le` part by a swap when it is `le` the pivot. */
  method PartitionVisit<T>(a: array<T>, ghost s0: seq<T>, low: int, high: int, i: int, j: int, pivot: T,
                           le: (T, T) -> bool) returns (i': int)
    requires Partitioning(a[..], s0, low, high, i, j, pivot, le) && j < high
    modifies a
    ensures Partitioning(a[..], s0, low, high, i', j + 1, pivot, le)
  {
    PartitionStep(a[..], s0, low, high, i, j, pivot, le);
    i' := i;
    if le(a[j], pivot) {
      i' := i + 1;
      SwapSlots(a, i', j);
    }
  }

  /**
   * The state of `partition` before slot `j` is examined: the segment keeps
   * its elements, the pivot stays last, slots `low..i` hold elements `le` the
   * pivot and slots `i + 1..j - 1` elements that are not.
   */
  ghost predicate Partitioning<T>(s: seq<T>, s0: seq<T>, low: int, high: int, i: int, j: int, pivot: T,
                                  le: (T, T) -> bool) {
    && |s| == |s0| && 0 <= low <= high < |s| && low - 1 <= i < j <= high
    && s[high] == pivot
    && s[..low] == s0[..low] && s[high + 1..] == s0[high + 1..]
    && multiset(s[low..high + 1]) == multiset(s0[low..high + 1])
    && (forall k :: low <= k <= i ==> le(s[k], pivot))
    && (forall k :: i < k < j ==> !le(s[k], pivot))
  }

  /** One iteration of the partition loop keeps `Partitioning`. */
  lemma PartitionStep<T>(s: seq<T>, s0: seq<T>, low: int, high: int, i: int, j: int, pivot: T,
                         le: (T, T) -> bool)
    requires Partitioning(s, s0, low, high, i, j, pivot, le) && j < high
    ensures le(s[j], pivot) ==> Partitioning(Swap(s, i + 1, j), s0, low, high, i + 1, j + 1, pivot, le)
    ensures !le(s[j], pivot) ==> Partitioning(s, s0, low, high, i, j + 1, pivot, le)
  {
    if le(s[j], pivot) {
      PartitionTake(s, s0, low, high, i, j, pivot, le);
    }
  }

  /** The iteration that moves slot `j` into the `le` part. */
  lemma PartitionTake<T>(s: seq<T>, s0: seq<T>, low: int, high: int, i: int, j: int, pivot: T,
                         le: (T, T) -> bool)
    requires Partitioning(s, s0, low, high, i, j, pivot, le) && j < high && le(s[j], pivot)
    ensures Partitioning(Swap(s, i + 1, j), s0, low, high, i + 1, j + 1, pivot, le)
  {
    var t := Swap(s, i + 1, j);
    SwapInside(s, i + 1, j, low, high + 1);
    forall k | low <= k <= i + 1
      ensures le(t[k], pivot)
    {
      if k <= i {
        assert t[k] == s[k];
      }
    }
    forall k | i + 1 < k < j + 1
      ensures !le(t[k], pivot)
    {
      if k < j {
        assert t[k] == s[k];
      } else {
        assert t[k] == s[i + 1];
      }
    }
  }

  /** The final swap of `partition` puts the pivot between the two parts. */
  lemma PartitionEnd<T(!new)>(s: seq<T>, s0: seq<T>, t: seq<T>, low: int, high: int, pi: int, pivot: T,
                              le: (T, T) -> bool)
    requires TotalPreorder(le)
    requires Partitioning(s, s0, low, high, pi - 1, high, pivot, le)
    requires t == Swap(s, pi, high)
    ensures t[..low] == s0[..low] && t[high + 1..] == s0[high + 1..]
    ensures multiset(t[low..high + 1]) == multiset(s0[low..high + 1])
    ensures forall x :: x in t[low..pi] ==> le(x, t[pi])
    ensures forall x :: x in t[pi + 1..high + 1] ==> le(t[pi], x)
  {
    SwapInside(s, pi, high, low, high + 1);
    forall k | low <= k < pi
      ensures le(t[k], t[pi])
    {
      assert t[k] == s[k];
    }
    forall k | pi < k <= high
      ensures !le(t[k], t[pi])
    {
      if k < high {
        assert t[k] == s[k];
      } else {
        assert t[k] == s[pi];
      }
    }
    PartitionBounds(t, low, pi, high, le);
  }

  /** `Collections.swap` on the array being sorted. */
  method SwapSlots<T>(a: array<T>, i: int, j: int)
    requires 0 <= i < a.Length && 0 <= j < a.Length
    modifies a
    ensures a[..] == Swap(old(a[..]), i, j)
  {
    a[i], a[j] := a[j], a[i];
  }

  /** Swapping two slots inside `[lo, hi)` keeps that segment's elements and everything outside it. */
  lemma SwapInside<T>(s: seq<T>, i: int, j: int, lo: int, hi: int)
    requires 0 <= lo <= i < hi <= |s| && lo <= j < hi
    ensures Swap(s, i, j)[..lo] == s[..lo] && Swap(s, i, j)[hi..] == s[hi..]
    ensures multiset(Swap(s, i, j)[lo..hi]) == multiset(s[lo..hi])
  {
    assert Swap(s, i, j)[lo..hi] == Swap(s[lo..hi], i - lo, j - lo);
  }

  /** The slot-wise facts at the end of `partition`, stated over the two segments. */
  lemma PartitionBounds<T(!new)>(s: seq<T>, low: int, pi: int, high: int, le: (T, T) -> bool)
    requires TotalPreorder(le)
    requires 0 <= low <= pi <= high < |s|
    requires forall k :: low <= k < pi ==> le(s[k], s[pi])
    requires forall k :: pi < k <= high ==> !le(s[k], s[pi])
    ensures forall x :: x in s[low..pi] ==> le(x, s[pi])
    ensures forall x :: x in s[pi + 1..high + 1] ==> le(s[pi], x)
  {
    forall x | x in s[low..pi]
      ensures le(x, s[pi])
    {
      var m :| 0 <= m < pi - low && s[low..pi][m] == x;
      assert s[low + m] == x;
    }
    forall x | x in s[pi + 1..high + 1]
      ensures le(s[pi], x)
    {
      var m :| 0 <= m < high - pi && s[pi + 1..high + 1][m] == x;
      assert s[pi + 1 + m] == x;
    }
  }

  /**
   * After the two recursive calls: the sorted left part, the pivot and the
   * sorted right part make a sorted segment with the partitioned elements.
   */
  lemma QuickSortJoin<T(!new)>(s0: seq<T>, s1: seq<T>, s2: seq<T>, low: int, pi: int, high: int,
                               le: (T, T) -> bool)
    requires TotalPreorder(le)
    requires |s0| == |s1| == |s2| && 0 <= low <= pi <= high < |s0|
    requires forall x :: x in s0[low..pi] ==> le(x, s0[pi])
    requires forall x :: x in s0[pi + 1..high + 1] ==> le(s0[pi], x)
    requires s1[..low] == s0[..low] && s1[pi..] == s0[pi..]
    requires multiset(s1[low..pi]) == multiset(s0[low..pi]) && SortedBy(s1[low..pi], le)
    requires s2[..pi + 1] == s1[..pi + 1] && s2[high + 1..] == s1[high + 1..]
    requires multiset(s2[pi + 1..high + 1]) == multiset(s1[pi + 1..high + 1]) && SortedBy(s2[pi + 1..high + 1], le)
    ensures s2[..low] == s0[..low] && s2[high + 1..] == s0[high + 1..]
    ensures multiset(s2[low..high + 1]) == multiset(s0[low..high + 1])
    ensures SortedBy(s2[low..high + 1], le)
  {
    JoinFrame(s0, s1, s2, low, pi, high);
    SplitAtPivot(s2, low, pi, high);
    var l, p, r := s2[low..pi], s2[pi], s2[pi + 1..high + 1];
    forall x | x in l
      ensures le(x, p)
    {
      assert x in multiset(s0[low..pi]);
    }
    forall x | x in r
      ensures le(p, x)
    {
      assert x in multiset(s0[pi + 1..high + 1]);
    }
    SortedAroundPivot(l, p, r, le);
  }

  /** The frame and element facts of `QuickSortJoin`. */
  lemma JoinFrame<T>(s0: seq<T>, s1: seq<T>, s2: seq<T>, low: int, pi: int, high: int)
    requires |s0| == |s1| == |s2| && 0 <= low <= pi <= high < |s0|
    requires s1[..low] == s0[..low] && s1[pi..] == s0[pi..]
    requires multiset(s1[low..pi]) == multiset(s0[low..pi])
    requires s2[..pi + 1] == s1[..pi + 1] && s2[high + 1..] == s1[high + 1..]
    requires multiset(s2[pi + 1..high + 1]) == multiset(s1[pi + 1..high + 1])
    ensures s2[..low] == s0[..low] && s2[high + 1..] == s0[high + 1..]
    ensures multiset(s2[low..high + 1]) == multiset(s0[low..high + 1])
    ensures s2[low..pi] == s1[low..pi] && s2[pi] == s0[pi]
    ensures s1[pi + 1..high + 1] == s0[pi + 1..high + 1]
  {
    JoinOutside(s0, s1, s2, low, pi, high);
    SplitAtPivot(s2, low, pi, high);
    SplitAtPivot(s0, low, pi, high);
    assert s2[low..pi] == s1[low..pi] by {
      SameSlice(s1, s2, low, pi, pi + 1);
    }
    assert s2[pi] == s1[pi] == s0[pi] by {
      assert s2[pi] == s2[..pi + 1][pi];
      assert s1[pi] == s1[pi..][0];
    }
    assert s1[pi + 1..high + 1] == s0[pi + 1..high + 1] by {
      SameSuffixSlice(s0, s1, pi, pi + 1, high + 1);
    }
  }

  lemma JoinOutside<T>(s0: seq<T>, s1: seq<T>, s2: seq<T>, low: int, pi: int, high: int)
    requires |s0| == |s1| == |s2| && 0 <= low <= pi <= high < |s0|
    requires s1[..low] == s0[..low] && s1[pi..] == s0[pi..]
    requires s2[..pi + 1] == s1[..pi + 1] && s2[high + 1..] == s1[high + 1..]
    ensures s2[..low] == s0[..low] && s2[high + 1..] == s0[high + 1..]
  {
    assert s2[..low] == s2[..pi + 1][..low];
    assert s1[..low] == s1[..pi + 1][..low];
    assert s1[high + 1..] == s1[pi..][high + 1 - pi..];
    assert s0[high + 1..] == s0[pi..][high + 1 - pi..];
  }

  /** Two sequences that agree on a prefix agree on every slice inside it. */
  lemma SameSlice<T>(s: seq<T>, t: seq<T>, lo: int, hi: int, n: int)
    requires 0 <= lo <= hi <= n <= |s| && n <= |t| && s[..n] == t[..n]
    ensures s[lo..hi] == t[lo..hi]
  {
    forall k | 0 <= k < hi - lo
      ensures s[lo..hi][k] == t[lo..hi][k]
    {
      assert s[lo + k] == s[..n][lo + k];
      assert t[lo + k] == t[..n][lo + k];
    }
  }

  /** Two sequences that agree on a suffix agree on every slice inside it. */
  lemma SameSuffixSlice<T>(s: seq<T>, t: seq<T>, n: int, lo: int, hi: int)
    requires 0 <= n <= lo <= hi <= |s| == |t| && s[n..] == t[n..]
    ensures s[lo..hi] == t[lo..hi]
  {
    forall k | 0 <= k < hi - lo
      ensures s[lo..hi][k] == t[lo..hi][k]
    {
      assert s[lo + k] == s[n..][lo + k - n];
      assert t[lo + k] == t[n..][lo + k - n];
    }
  }

  lemma SplitAtPivot<T>(s: seq<T>, low: int, pi: int, high: int)
    requires 0 <= low <= pi <= high < |s|
    ensures s[low..high + 1] == s[low..pi] + [s[pi]] + s[pi + 1..high + 1]
    ensures multiset(s[low..high + 1]) == multiset(s[low..pi]) + multiset{s[pi]} + multiset(s[pi + 1..high + 1])
  {
    assert s[low..high + 1] == s[low..pi] + [s[pi]] + s[pi + 1..high + 1];
  }

  /** A sorted part all `le` the pivot, the pivot, and a sorted part all `le`-above it, in that order, are sorted. */
  lemma SortedAroundPivot<T(!new)>(l: seq<T>, p: T, r: seq<T>, le: (T, T) -> bool)
    requires TotalPreorder(le)
    requires SortedBy(l, le) && SortedBy(r, le)
    requires forall x :: x in l ==> le(x, p)
    requires forall x :: x in r ==> le(p, x)
    ensures SortedBy(l + [p] + r, le)
  {
    var s := l + [p] + r;
    forall i, j | 0 <= i < j < |s|
      ensures le(s[i], s[j])
    {
      if i < |l| && j < |l| {
        assert s[i] == l[i] && s[j] == l[j];
      } else if i < |l| && j == |l| {
        assert s[i] in l;
      } else if i < |l| {
        assert s[i] in l && s[j] in r;
        Transitive(le, s[i], p, s[j]);
      } else if i == |l| {
        assert s[j] in r;
      } else {
        assert s[i] == r[i - |l| - 1] && s[j] == r[j - |l| - 1];
      }
    }
  }
}
