/**
 * The generic array-backed binary max-heap (datastructures/MaxHeap.java).
 *
 * `T extends Comparable<T>` is modelled by a projection `key` of each
 * element into the reals: `a.compareTo(b) <= 0` is `key(a) <= key(b)`.
 * The live elements are the first `size` slots of `heap`; the slots beyond
 * `size` hold values the model does not constrain.
 */
module Heaps {
  import opened Wrappers
  import opened Orders
  import opened HeapOrder

  const DefaultCapacity := 16

  /** Java's `(i - 1) / 2`, which rounds toward zero (so index 0 gives 0 and -1 gives -1). */
  function ParentIndex(i: int): (p: int)
    ensures i >= 1 ==> i - 2 <= 2 * p <= i - 1
    ensures i < 1 ==> i - 1 <= 2 * p <= i
  {
    if i - 1 >= 0 then (i - 1) / 2 else -((1 - i) / 2)
  }

  /** Each element's key is at most the key of every earlier element. */
  ghost predicate NonIncreasing<T>(s: seq<T>, key: T -> real) {
    forall i, j :: 0 <= i < j < |s| ==> key(s[j]) <= key(s[i])
  }

  /**
   * One poll of a drain: appending a maximum `v` of the remaining elements
   * `before` keeps the drained sequence non-increasing and the union of
   * drained and remaining elements unchanged.
   */
  lemma DrainStep<T>(prev: seq<T>, before: multiset<T>, after: multiset<T>, v: T, key: T -> real)
    requires NonIncreasing(prev, key)
    requires prev != [] ==> forall x :: x in before ==> key(x) <= key(prev[|prev| - 1])
    requires v in before && after == before - multiset{v}
    requires forall x :: x in before ==> key(x) <= key(v)
    ensures NonIncreasing(prev + [v], key)
    ensures forall x :: x in after ==> key(x) <= key(v)
    ensures multiset(prev + [v]) + after == multiset(prev) + before
  {
    var out := prev + [v];
    forall i, j | 0 <= i < j < |out|
      ensures key(out[j]) <= key(out[i])
    {
      if j < |prev| {
        assert out[i] == prev[i] && out[j] == prev[j];
      } else {
        assert out[i] == prev[i] && out[j] == v;
        assert key(v) <= key(prev[|prev| - 1]);
      }
    }
    forall x | x in after
      ensures key(x) <= key(v)
    {
      assert x in before;
    }
    assert multiset(out) == multiset(prev) + multiset{v};
  }

  class MaxHeap<T(0)> {
    const key: T -> real
    var heap: array<T>
    var size: nat

    ghost predicate Valid()
      reads this, heap
    {
      && size <= heap.Length
      && HeapOrdered(heap[..], key, size)
    }

    /** The stored elements. */
    ghost function Elements(): multiset<T>
      reads this, heap
      requires size <= heap.Length
    {
      multiset(heap[..size])
    }

    /** `MaxHeap()`: an empty heap with the default capacity. */
    constructor (key: T -> real)
      ensures Valid() && fresh(heap) && this.key == key
      ensures heap.Length == DefaultCapacity && size == 0
    {
      this.key := key;
      heap := new T[DefaultCapacity];
      size := 0;
    }

    /** `MaxHeap(int)`: a non-positive capacity falls back to the default. */
    constructor WithCapacity(initialCapacity: int, key: T -> real)
      ensures Valid() && fresh(heap) && this.key == key
      ensures heap.Length == (if initialCapacity <= 0 then DefaultCapacity else initialCapacity)
      ensures size == 0
    {
      this.key := key;
      var capacity := if initialCapacity <= 0 then DefaultCapacity else initialCapacity;
      heap := new T[capacity];
      size := 0;
    }

    /**
     * `MaxHeap(T[])`: copies the items and builds the heap bottom-up by
     * sifting down every parent, last parent first.
     */
    constructor FromArray(items: array<T>, key: T -> real)
      ensures Valid() && fresh(heap) && this.key == key
      ensures heap.Length == (if items.Length > DefaultCapacity then items.Length else DefaultCapacity)
      ensures size == items.Length && Elements() == multiset(items[..])
    {
      this.key := key;
      var cap := if items.Length > DefaultCapacity then items.Length else DefaultCapacity;
      var a := new T[cap];
      forall k | 0 <= k < items.Length {
        a[k] := items[k];
      }
      heap := a;
      size := items.Length;
      new;
      assert heap[..size] == items[..];
      var i := ParentIndex(size - 1);
      while i >= 0
        invariant -1 <= i < size
        invariant size == items.Length && heap == a && size <= heap.Length
        invariant multiset(heap[..size]) == multiset(items[..])
        invariant HeapOrderedFrom(heap[..], key, size, i + 1)
      {
        var _ := SiftDown(i);
        i := i - 1;
      }
    }

    /**
     * Moves the value in slot `idx` up while it is greater than its parent;
     * `insert` calls it before counting the new slot in `size`.
     */
    method SiftUp(idx: int)
      requires 0 <= idx < heap.Length
      requires HeapOrdered(heap[..], key, idx)
      modifies heap
      ensures HeapOrdered(heap[..], key, idx + 1)
      ensures multiset(heap[..idx + 1]) == multiset(old(heap[..idx])) + multiset{old(heap[idx])}
      ensures heap[idx + 1..] == old(heap[idx + 1..])
    {
      AppendStartsSiftUp(heap[..], key, idx);
      SiftUpRestores(heap[..], key, idx + 1, idx, idx);
      var current := idx;
      var val := heap[current];
      while current > 0
        invariant 0 <= current <= idx && heap[current] == val
        invariant SiftedUp(heap[..], key, current) == SiftedUp(old(heap[..]), key, idx)
      {
        var parent := (current - 1) / 2;
        var parentVal := heap[parent];
        if key(val) <= key(parentVal) {
          break;
        }
        Exchange(current, parent);
        current := parent;
      }
      SiftedUpFrame(old(heap[..]), key, idx);
      assert old(heap[..idx + 1]) == old(heap[..idx]) + [old(heap[idx])];
    }

    /**
     * Moves the value in slot `idx` below its larger child until no live
     * child is greater; the subtrees below `idx` must already be heaps.
     * Reports whether anything moved: if so, slot `idx` now holds a larger value.
     */
    method SiftDown(idx: int) returns (moved: bool)
      requires size <= heap.Length && 0 <= idx < size
      requires HeapOrderedFrom(heap[..], key, size, idx + 1)
      modifies heap
      ensures HeapOrderedFrom(heap[..], key, size, idx)
      ensures multiset(heap[..size]) == multiset(old(heap[..size]))
      ensures heap[size..] == old(heap[size..])
      ensures !moved ==> heap[..] == old(heap[..])
      ensures moved ==> key(old(heap[idx])) < key(heap[idx])
    {
      SiftDownRestores(heap[..], key, size, idx, idx);
      var current := idx;
      moved := false;
      while true
        invariant idx <= current < size
        invariant SiftedDown(heap[..], key, size, current) == SiftedDown(old(heap[..]), key, size, idx)
        invariant !moved ==> heap[..] == old(heap[..]) && current == idx
        invariant moved ==> idx < current && key(old(heap[idx])) < key(heap[idx])
        decreases size - current
      {
        var largest := LargestChild(current);
        if largest == current {
          break;
        }
        Exchange(current, largest);
        current := largest;
        moved := true;
      }
      SiftedDownFrame(old(heap[..]), key, size, idx);
    }

    /** The slot among `current` and its live children holding the largest key, earlier slot on ties. */
    method LargestChild(current: int) returns (largest: int)
      requires 0 <= current < size <= heap.Length
      ensures largest == Largest(heap[..], key, size, current)
    {
      var left := 2 * current + 1;
      var right := 2 * current + 2;
      largest := current;
      if left < size {
        if key(heap[largest]) < key(heap[left]) {
          largest := left;
        }
      }
      if right < size {
        if key(heap[largest]) < key(heap[right]) {
          largest := right;
        }
      }
    }

    /** Exchanges two slots of the array. */
    method Exchange(i: int, j: int)
      requires 0 <= i < heap.Length && 0 <= j < heap.Length
      modifies heap
      ensures heap[..] == Swap(old(heap[..]), i, j)
    {
      heap[i], heap[j] := heap[j], heap[i];
    }

    /** Grows the array to at least `capacity` slots, by half again at a time; keeps the live slots. */
    method EnsureCapacity(capacity: int)
      requires size <= heap.Length
      modifies this
      ensures size == old(size) && size <= heap.Length && heap[..size] == old(heap[..size])
      ensures heap.Length >= capacity
      ensures capacity <= old(heap.Length) ==> heap == old(heap)
      ensures capacity > old(heap.Length) ==>
                && fresh(heap)
                && heap.Length == (var grown := old(heap.Length) + old(heap.Length) / 2;
                                   if grown < capacity then capacity else grown)
    {
      if capacity <= heap.Length {
        return;
      }
      var newCap := heap.Length + heap.Length / 2;
      if newCap < capacity {
        newCap := capacity;
      }
      var newHeap := new T[newCap];
      forall k | 0 <= k < size {
        newHeap[k] := heap[k];
      }
      heap := newHeap;
    }

    /** Adds `value`: the heap keeps its order and gains exactly that element. */
    method Insert(value: T)
      requires Valid()
      modifies this, heap
      ensures Valid()
      ensures size == old(size) + 1
      ensures Elements() == old(Elements()) + multiset{value}
      ensures old(size) < old(heap.Length) ==> heap == old(heap)
      ensures old(size) == old(heap.Length) ==> fresh(heap)
    {
      EnsureCapacity(size + 1);
      heap[size] := value;
      assert heap[..size] == old(heap[..size]);
      HeapOrderedSamePrefix(old(heap[..]), heap[..], key, size, 0);
      SiftUp(size);
      size := size + 1;
    }

    /** A fresh array holding the live slots in array order. */
    method ToArray() returns (arr: array<T>)
      requires Valid()
      ensures fresh(arr) && arr[..] == heap[..size]
    {
      arr := new T[size];
      var i := 0;
      while i < size
        invariant 0 <= i <= size
        invariant arr[..i] == heap[..i]
      {
        arr[i] := heap[i];
        i := i + 1;
      }
    }

    /** The largest element, without removing it; None (Java null) on an empty heap. */
    function Peek(): (r: Option<T>)
      reads this, heap
      requires Valid()
      ensures r == None <==> size == 0
      ensures r.Some? ==> r.value in Elements() && forall x :: x in Elements() ==> key(x) <= key(r.value)
    {
      if size == 0 then None
      else
        RootIsMax(heap[..], key, size);
        Some(heap[0])
    }

    /**
     * Removes and returns the largest element: the last live slot moves to
     * the root and sifts down. None (Java null) and no change on an empty heap.
     */
    method Poll() returns (r: Option<T>)
      requires Valid()
      modifies this, heap
      ensures Valid() && heap == old(heap)
      ensures old(size) == 0 ==> r == None && size == 0 && heap[..] == old(heap[..])
      ensures old(size) > 0 ==> r == Some(old(heap[0])) && size == old(size) - 1
      ensures r.Some? ==> && r.value in old(Elements())
                          && Elements() == old(Elements()) - multiset{r.value}
                          && forall x :: x in old(Elements()) ==> key(x) <= key(r.value)
    {
      if size == 0 {
        return None;
      }
      RootIsMax(heap[..], key, size);
      r := Some(heap[0]);
      RemoveRoot();
    }

    /** The body of `poll` after the empty check: the last element replaces the root and sifts down. */
    method RemoveRoot()
      requires Valid() && size > 0
      modifies this, heap
      ensures Valid() && heap == old(heap)
      ensures size == old(size) - 1
      ensures Elements() == old(Elements()) - multiset{old(heap[0])}
    {
      ghost var s := heap[..];
      ghost var n := size;
      MoveLastToRoot(s, key, n);
      heap[0] := heap[size - 1];
      size := size - 1;
      assert heap[..] == s[0 := s[n - 1]];
      if size > 0 {
        var _ := SiftDown(0);
      }
    }

    predicate IsEmpty()
      reads this, heap
      requires size <= heap.Length
      ensures IsEmpty() <==> Elements() == multiset{}
    {
      size == 0
    }

    /**
     * Polls until empty, as the demo in the source does: the polled values
     * come out in non-increasing key order and are exactly the stored elements.
     */
    method DrainAll() returns (out: seq<T>)
      requires Valid()
      modifies this, heap
      ensures Valid() && size == 0 && heap == old(heap)
      ensures multiset(out) == old(Elements())
      ensures NonIncreasing(out, key)
    {
      out := [];
      while !IsEmpty()
        invariant Valid() && heap == old(heap)
        invariant multiset(out) + Elements() == old(Elements())
        invariant NonIncreasing(out, key)
        invariant out != [] ==> forall x :: x in Elements() ==> key(x) <= key(out[|out| - 1])
        decreases size
      {
        ghost var before := Elements();
        ghost var prev := out;
        var r := Poll();
        out := out + [r.value];
        DrainStep(prev, before, Elements(), r.value, key);
      }
    }
  }
}
