/**
 * The comparator-driven heap of stocks (datastructures/StockMaxHeap.java).
 *
 * The backing `ArrayList` is the sequence `heap`, which the methods
 * reassign; the comparator is the key projection `key`
 * (`Comparator.comparingDouble(key)` or `comparingLong(key)`), so
 * `compare(a, b) > 0` is `key(a) > key(b)`. Entries are stock values.
 */
module StockHeaps {
  import opened Wrappers
  import opened Orders
  import opened HeapOrder
  import opened Stocks
  import opened Sorting

  /**
   * `list.indexOf(o)`: the first slot whose entry `o` equals (has the same
   * symbol as), or -1.
   */
  function IndexOf(s: seq<StockValue>, o: StockValue): (i: int)
    ensures -1 <= i < |s|
    ensures 0 <= i ==> o.Equals(s[i]) && forall k :: 0 <= k < i ==> !o.Equals(s[k])
    ensures i == -1 ==> forall k :: 0 <= k < |s| ==> !o.Equals(s[k])
  {
    if s == [] then -1
    else if o.Equals(s[0]) then 0
    else
      var r := IndexOf(s[1..], o);
      if r == -1 then -1 else r + 1
  }

  /**
   * What `getTopK(k)` returns for the backing list `s`: its first
   * `min(k, size)` slots, sorted by the reversed comparator with the stable
   * `List.sort`.
   */
  function TopKOf(s: seq<StockValue>, key: StockValue -> real, k: int): (r: seq<StockValue>)
    ensures |r| == PrefixLength(k, |s|)
    ensures multiset(r) == multiset(s[..PrefixLength(k, |s|)])
  {
    MergeSort(s[..PrefixLength(k, |s|)], Reversed(ByKey(key)))
  }

  /** The keys of `getTopK`'s result never increase. */
  lemma TopKNonIncreasing(s: seq<StockValue>, key: StockValue -> real, k: int)
    ensures forall i, j :: 0 <= i < j < |TopKOf(s, key, k)| ==>
              key(TopKOf(s, key, k)[j]) <= key(TopKOf(s, key, k)[i])
  {
    ByKeyIsTotalPreorder(key);
    ReversedIsTotalPreorder(ByKey(key));
    MergeSortSorted(s[..PrefixLength(k, |s|)], Reversed(ByKey(key)));
  }

  /** For `0 < k`, the first entry of `getTopK` on a heap holds the largest key in the heap. */
  lemma TopKStartsWithMax(s: seq<StockValue>, key: StockValue -> real, k: int)
    requires HeapOrdered(s, key, |s|) && 0 < k && s != []
    ensures TopKOf(s, key, k) != []
    ensures forall x :: x in s ==> key(x) <= key(TopKOf(s, key, k)[0])
  {
    var r := TopKOf(s, key, k);
    var m := PrefixLength(k, |s|);
    RootIsMax(s, key, |s|);
    assert s[..|s|] == s;
    assert s[0] == s[..m][0];
    assert s[0] in multiset(r);
    var i :| 0 <= i < |r| && r[i] == s[0];
    TopKNonIncreasing(s, key, k);
    if i > 0 {
      assert key(r[i]) <= key(r[0]);
    }
    forall x | x in s
      ensures key(x) <= key(r[0])
    {
      assert x in multiset(s[..|s|]);
    }
  }

  /** For `k >= size`, `getTopK` returns every entry of the heap. */
  lemma TopKWhole(s: seq<StockValue>, key: StockValue -> real, k: int)
    requires k >= |s|
    ensures multiset(TopKOf(s, key, k)) == multiset(s)
  {
    assert s[..|s|] == s;
  }

  /** A stock value with only a symbol and a percentage change. */
  function Sample(symbol: string, percent: real): StockValue {
    StockValue(symbol, symbol, 0.0, 0.0, 0.0, percent, 0, 0.0, "")
  }

  /**
   * `getTopK` takes the first k slots, not the k largest entries: on the
   * heap with percentage changes 3, 1, 2 (in slot order), `getTopK(2)`
   * returns the entries with 3 and 1 and leaves out the one with 2.
   */
  lemma TopKNeedNotBeLargest()
    ensures var s := [Sample("A", 3.0), Sample("B", 1.0), Sample("C", 2.0)];
            var key := (x: StockValue) => x.priceChangePercent;
      && HeapOrdered(s, key, |s|)
      && Sample("B", 1.0) in TopKOf(s, key, 2)
      && Sample("C", 2.0) !in TopKOf(s, key, 2)
  {
    var s := [Sample("A", 3.0), Sample("B", 1.0), Sample("C", 2.0)];
    var key := (x: StockValue) => x.priceChangePercent;
    assert IsChild(0, 1) && IsChild(0, 2);
    assert HeapOrdered(s, key, |s|);
    var r := TopKOf(s, key, 2);
    assert s[..2] == [Sample("A", 3.0), Sample("B", 1.0)];
    assert multiset(r) == multiset{Sample("A", 3.0), Sample("B", 1.0)};
    assert Sample("B", 1.0) in multiset(r);
    assert Sample("C", 2.0) !in multiset(r);
  }

  class StockMaxHeap {
    const key: StockValue -> real
    var heap: seq<StockValue>

    /** Every entry's key is at most its parent's. */
    ghost predicate Valid()
      reads this
    {
      HeapOrdered(heap, key, |heap|)
    }

    constructor (key: StockValue -> real)
      ensures Valid() && heap == [] && this.key == key
    {
      this.key := key;
      heap := [];
    }

    /** Appends and bubbles up; a stock already present under the same symbol stays, so the heap gains an entry. */
    method Insert(stock: StockValue)
      requires Valid()
      modifies this
      ensures Valid()
      ensures |heap| == old(|heap|) + 1
      ensures multiset(heap) == old(multiset(heap)) + multiset{stock}
    {
      var n := |heap|;
      heap := heap + [stock];
      assert heap[..n] == old(heap);
      HeapOrderedSamePrefix(old(heap), heap, key, n, 0);
      AppendStartsSiftUp(heap, key, n);
      HeapifyUp(n);
    }

    /**
     * Removes and returns the root: the last entry is removed and, if any
     * remain, written over the root and sifted down. None (Java null) when empty.
     */
    method ExtractMax() returns (r: Option<StockValue>)
      requires Valid()
      modifies this
      ensures Valid()
      ensures old(heap) == [] ==> r == None && heap == []
      ensures old(heap) != [] ==> && r == Some(old(heap)[0])
                                  && |heap| == old(|heap|) - 1
                                  && multiset(heap) == old(multiset(heap)) - multiset{r.value}
                                  && forall x :: x in old(heap) ==> key(x) <= key(r.value)
    {
      if heap == [] {
        return None;
      }
      RootIsMax(heap, key, |heap|);
      assert heap[..|heap|] == heap;
      r := Some(heap[0]);
      RemoveRoot();
    }

    /**
     * The body of `extractMax` after the empty check: removes the last
     * entry and, if any remain, writes it over the root and sifts it down.
     */
    method RemoveRoot()
      requires Valid() && heap != []
      modifies this
      ensures Valid()
      ensures |heap| == old(|heap|) - 1
      ensures multiset(heap) == old(multiset(heap)) - multiset{old(heap)[0]}
    {
      ghost var s := heap;
      var last := heap[|heap| - 1];
      heap := heap[..|heap| - 1];
      if heap != [] {
        LastToRoot(s, key);
        heap := heap[0 := last];
        HeapifyDown(0);
      } else {
        assert s == [s[0]];
      }
    }

    /** The root, or None (Java null) when empty; it has the largest key. */
    function PeekMax(): (r: Option<StockValue>)
      reads this
      requires Valid()
      ensures r == None <==> heap == []
      ensures r.Some? ==> r.value in heap && forall x :: x in heap ==> key(x) <= key(r.value)
    {
      if heap == [] then None
      else
        RootIsMax(heap, key, |heap|);
        assert heap[..|heap|] == heap;
        Some(heap[0])
    }

    /**
     * Copies the first `min(k, size)` entries in slot order and sorts the
     * copy by the reversed comparator; the heap is not changed.
     */
    method GetTopK(k: int) returns (topStocks: seq<StockValue>)
      ensures topStocks == TopKOf(heap, key, k)
    {
      topStocks := [];
      var i := 0;
      while i < k && i < |heap|
        invariant 0 <= i <= PrefixLength(k, |heap|)
        invariant topStocks == heap[..i]
      {
        topStocks := topStocks + [heap[i]];
        i := i + 1;
      }
      assert topStocks == heap[..PrefixLength(k, |heap|)];
      topStocks := MergeSort(topStocks, Reversed(ByKey(key)));
    }

    /** Swaps the entry at `index` with its parent while it has the larger key. */
    method HeapifyUp(index: int)
      requires SiftingUp(heap, key, |heap|, index, index)
      modifies this
      ensures |heap| == old(|heap|) && multiset(heap) == old(multiset(heap))
      ensures SiftingDown(heap, key, |heap|, 0, index)
      ensures 2 * index + 1 >= |heap| ==> Valid()
    {
      var current := index;
      while current > 0
        invariant SiftingUp(heap, key, |heap|, current, index)
        invariant |heap| == old(|heap|) && multiset(heap) == old(multiset(heap))
      {
        var parent := (current - 1) / 2;
        if key(heap[current]) > key(heap[parent]) {
          SiftUpStep(heap, key, |heap|, current, index);
          Exchange(current, parent);
          current := parent;
        } else {
          break;
        }
      }
      SiftUpDone(heap, key, |heap|, current, index);
    }

    /** Swaps the entry at `index` with its larger child (the left one on ties) while that child has the larger key. */
    method HeapifyDown(index: int)
      requires SiftingDown(heap, key, |heap|, 0, index)
      modifies this
      ensures Valid()
      ensures |heap| == old(|heap|) && multiset(heap) == old(multiset(heap))
    {
      var size := |heap|;
      var current := index;
      while true
        invariant size == |heap| && SiftingDown(heap, key, size, 0, current)
        invariant multiset(heap) == old(multiset(heap))
        decreases size - current
      {
        var largest := current;
        var left := 2 * current + 1;
        var right := 2 * current + 2;
        if left < size && key(heap[left]) > key(heap[largest]) {
          largest := left;
        }
        if right < size && key(heap[right]) > key(heap[largest]) {
          largest := right;
        }
        assert largest == Largest(heap, key, size, current);
        if largest != current {
          SiftDownStep(heap, key, size, 0, current, largest);
          Exchange(current, largest);
          current := largest;
        } else {
          break;
        }
      }
      SiftDownDone(heap, key, size, 0, current);
    }

    /** Exchanges two entries. */
    method Exchange(i: int, j: int)
      requires 0 <= i < |heap| && 0 <= j < |heap|
      modifies this
      ensures heap == Swap(old(heap), i, j)
    {
      var temp := heap[i];
      heap := heap[i := heap[j]];
      heap := heap[j := temp];
    }

    /**
     * Replaces the first entry with the stock's symbol by the stock and
     * restores the order by bubbling up and then down from that slot; does
     * nothing when no entry has the symbol.
     */
    method UpdateStock(stock: StockValue)
      requires Valid()
      modifies this
      ensures Valid() && |heap| == old(|heap|)
      ensures IndexOf(old(heap), stock) == -1 ==> heap == old(heap)
      ensures IndexOf(old(heap), stock) != -1 ==>
                multiset(heap) == multiset(old(heap)[IndexOf(old(heap), stock) := stock])
    {
      var index := IndexOf(heap, stock);
      if index != -1 {
        SetStartsSiftUp(heap, key, |heap|, index, stock);
        heap := heap[index := stock];
        HeapifyUp(index);
        HeapifyDown(index);
      }
    }

    /** Empties the heap. */
    method Clear()
      modifies this
      ensures Valid() && heap == []
    {
      heap := [];
    }

    /** The number of entries, duplicates by symbol included. */
    function Size(): (n: nat)
      reads this
      ensures n == |multiset(heap)|
    {
      |heap|
    }

    predicate IsEmpty()
      reads this
      ensures IsEmpty() <==> multiset(heap) == multiset{}
    {
      heap == []
    }

    /** A copy of the backing list, in slot order. */
    method GetAllStocks() returns (stocks: seq<StockValue>)
      ensures stocks == heap
    {
      stocks := heap;
    }
  }
}
