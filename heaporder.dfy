/**
 * The binary-heap shape shared by both heaps: slot i has children 2i + 1 and
 * 2i + 2, elements are compared through a key projection into the reals,
 * and only the first `n` slots of a sequence are live.
 *
 * The sift loops are proved through the predicates `SiftingUp` and
 * `SiftingDown`, which describe the heap part-way through a sift, and one
 * lemma per loop step.
 */
module HeapOrder {
  import opened Orders

  /** `j` is a child slot of `i`. */
  predicate IsChild(i: int, j: int) {
    j == 2 * i + 1 || j == 2 * i + 2
  }

  /** Every live parent at or after slot `lo` is >= its live children. */
  ghost predicate HeapOrderedFrom<T>(s: seq<T>, key: T -> real, n: int, lo: int) {
    && 0 <= n <= |s|
    && forall i, j {:trigger IsChild(i, j)} :: 0 <= i && lo <= i < n && 0 <= j < n && IsChild(i, j) ==> key(s[j]) <= key(s[i])
  }

  /** The first `n` slots form a max-heap. */
  ghost predicate HeapOrdered<T>(s: seq<T>, key: T -> real, n: int) {
    HeapOrderedFrom(s, key, n, 0)
  }

  /**
   * A sift-up that started at slot `start` has reached slot `c`: every edge
   * holds except the one into `c` and, while the value has not moved, those
   * out of `start`; the parent of `c` dominates the children of `c`.
   */
  ghost predicate SiftingUp<T>(s: seq<T>, key: T -> real, n: int, c: int, start: int) {
    && 0 <= c <= start < n <= |s|
    && (forall i, j {:trigger IsChild(i, j)} :: 0 <= i < n && 0 <= j < n && IsChild(i, j) && j != c && !(i == c && c == start) ==>
          key(s[j]) <= key(s[i]))
    && (forall p, j {:trigger IsChild(p, c), IsChild(c, j)} :: 0 <= p && IsChild(p, c) && 0 <= j < n && IsChild(c, j) ==> key(s[j]) <= key(s[p]))
  }

  /**
   * A sift-down over the slots from `lo` has reached slot `c`: every edge
   * from a parent at or after `lo` holds except those out of `c`, and the
   * parent of `c` (if at or after `lo`) dominates the children of `c`.
   */
  ghost predicate SiftingDown<T>(s: seq<T>, key: T -> real, n: int, lo: int, c: int) {
    && 0 <= lo <= c < n <= |s|
    && (forall i, j {:trigger IsChild(i, j)} :: lo <= i < n && 0 <= j < n && IsChild(i, j) && i != c ==> key(s[j]) <= key(s[i]))
    && (forall p, j {:trigger IsChild(p, c), IsChild(c, j)} :: lo <= p && IsChild(p, c) && 0 <= j < n && IsChild(c, j) ==> key(s[j]) <= key(s[p]))
  }

  /**
   * Sift-up as the source runs it, on a sequence: while slot `c` is not the
   * root and holds a larger key than its parent, swap the two and move up.
   * It permutes the slots and touches none above `c`.
   */
  function SiftedUp<T>(s: seq<T>, key: T -> real, c: int): (r: seq<T>)
    requires 0 <= c < |s|
    ensures |r| == |s| && multiset(r) == multiset(s)
    ensures forall k :: c < k < |s| ==> r[k] == s[k]
    decreases c
  {
    if c == 0 || key(s[c]) <= key(s[(c - 1) / 2]) then s
    else SiftedUp(Swap(s, c, (c - 1) / 2), key, (c - 1) / 2)
  }

  /** The child of `c` that sift-down moves into: the larger live child if it beats `c`, else `c`. */
  function Largest<T>(s: seq<T>, key: T -> real, n: int, c: int): (m: int)
    requires 0 <= c < n <= |s|
    ensures m == c || (IsChild(c, m) && m < n && key(s[c]) < key(s[m]))
    ensures forall j :: 0 <= j < n && IsChild(c, j) ==> key(s[j]) <= key(s[m])
  {
    var left := 2 * c + 1;
    var right := 2 * c + 2;
    var largest := if left < n && key(s[c]) < key(s[left]) then left else c;
    if right < n && key(s[largest]) < key(s[right]) then right else largest
  }

  /**
   * Sift-down as the source runs it, on the first `n` slots of a sequence:
   * while a live child beats slot `c`, swap `c` with its larger child and
   * move down. It permutes the slots, touches none before `c` or from `n`
   * on, and either changes nothing or leaves a larger key in slot `c`.
   */
  function SiftedDown<T>(s: seq<T>, key: T -> real, n: int, c: int): (r: seq<T>)
    requires 0 <= c < n <= |s|
    ensures |r| == |s| && multiset(r) == multiset(s)
    ensures forall k :: (0 <= k < c || n <= k < |s|) ==> r[k] == s[k]
    ensures r == s || key(s[c]) < key(r[c])
    decreases n - c
  {
    var m := Largest(s, key, n, c);
    if m == c then s
    else SiftedDown(Swap(s, c, m), key, n, m)
  }

  /** Overwriting slot `i` of a heap leaves it ready to sift up from `i`. */
  lemma SetStartsSiftUp<T>(s: seq<T>, key: T -> real, n: int, i: int, x: T)
    requires HeapOrdered(s, key, n) && 0 <= i < n
    ensures SiftingUp(s[i := x], key, n, i, i)
  {
    var s' := s[i := x];
    forall p, j | 0 <= p && IsChild(p, i) && 0 <= j < n && IsChild(i, j)
      ensures key(s'[j]) <= key(s'[p])
    {
      assert key(s[j]) <= key(s[i]) <= key(s[p]);
    }
  }

  /** Placing a value in the first free slot after a heap of `n` leaves it ready to sift up. */
  lemma AppendStartsSiftUp<T>(s: seq<T>, key: T -> real, n: int)
    requires HeapOrdered(s, key, n) && n < |s|
    ensures SiftingUp(s, key, n + 1, n, n)
  {
  }

  /** One step of sift-up: the value at `c` beats its parent, so they swap. */
  lemma SiftUpStep<T>(s: seq<T>, key: T -> real, n: int, c: int, start: int)
    requires SiftingUp(s, key, n, c, start) && c > 0 && key(s[(c - 1) / 2]) < key(s[c])
    ensures SiftingUp(Swap(s, c, (c - 1) / 2), key, n, (c - 1) / 2, start)
  {
    var p := (c - 1) / 2;
    var r := Swap(s, c, p);
    assert IsChild(p, c);
    forall i, j | 0 <= i < n && 0 <= j < n && IsChild(i, j) && j != p && !(i == p && p == start)
      ensures key(r[j]) <= key(r[i])
    {
      if i == p && j != c {
        assert key(s[j]) <= key(s[p]);
      }
    }
    forall q, j | 0 <= q && IsChild(q, p) && 0 <= j < n && IsChild(p, j)
      ensures key(r[j]) <= key(r[q])
    {
      assert key(s[p]) <= key(s[q]);
      if j != c {
        assert key(s[j]) <= key(s[p]);
      }
    }
  }

  /**
   * Sift-up stops at the root or below a parent at least as large: the
   * sequence is then ready to sift down from `start`, and is a heap when
   * `start` has no live children.
   */
  lemma SiftUpDone<T>(s: seq<T>, key: T -> real, n: int, c: int, start: int)
    requires SiftingUp(s, key, n, c, start)
    requires c == 0 || key(s[c]) <= key(s[(c - 1) / 2])
    ensures SiftingDown(s, key, n, 0, start)
    ensures 2 * start + 1 >= n ==> HeapOrdered(s, key, n)
  {
    if c != start {
      forall p, j | 0 <= p && IsChild(p, start) && 0 <= j < n && IsChild(start, j)
        ensures key(s[j]) <= key(s[p])
      {
        assert key(s[j]) <= key(s[start]) <= key(s[p]);
      }
    }
  }

  /** A heap is ready to sift down from any of its slots. */
  lemma HeapStartsSiftDown<T>(s: seq<T>, key: T -> real, n: int, c: int)
    requires HeapOrdered(s, key, n) && 0 <= c < n
    ensures SiftingDown(s, key, n, 0, c)
  {
    forall p, j | 0 <= p && IsChild(p, c) && 0 <= j < n && IsChild(c, j)
      ensures key(s[j]) <= key(s[p])
    {
      assert key(s[j]) <= key(s[c]) <= key(s[p]);
    }
  }

  /** A heap whose root alone may be out of place is ready to sift down from the root. */
  lemma RootStartsSiftDown<T>(s: seq<T>, key: T -> real, n: int)
    requires HeapOrderedFrom(s, key, n, 1) && 0 < n
    ensures SiftingDown(s, key, n, 0, 0)
  {
  }

  /**
   * Removing the last slot of a heap and writing its value over the root
   * drops the root from the elements and leaves a heap to sift down from the root.
   */
  lemma LastToRoot<T>(s: seq<T>, key: T -> real)
    requires HeapOrdered(s, key, |s|) && 1 < |s|
    ensures var t := s[..|s| - 1][0 := s[|s| - 1]];
      && multiset(t) == multiset(s) - multiset{s[0]}
      && SiftingDown(t, key, |t|, 0, 0)
  {
    var n := |s|;
    var t := s[..n - 1][0 := s[n - 1]];
    MoveLastToRoot(s, key, n);
    assert s[..n] == s;
    assert t == s[0 := s[n - 1]][..n - 1];
    HeapOrderedSamePrefix(s[0 := s[n - 1]], t, key, n - 1, 1);
    RootStartsSiftDown(t, key, n - 1);
  }

  /** One step of sift-down: the larger child `m` beats the value at `c`, so they swap. */
  lemma SiftDownStep<T>(s: seq<T>, key: T -> real, n: int, lo: int, c: int, m: int)
    requires SiftingDown(s, key, n, lo, c)
    requires IsChild(c, m) && m < n && key(s[c]) < key(s[m])
    requires forall j :: 0 <= j < n && IsChild(c, j) ==> key(s[j]) <= key(s[m])
    ensures SiftingDown(Swap(s, c, m), key, n, lo, m)
  {
  }

  /** Sift-down stops when no live child beats the value at `c`: the heap order is restored. */
  lemma SiftDownDone<T>(s: seq<T>, key: T -> real, n: int, lo: int, c: int)
    requires SiftingDown(s, key, n, lo, c)
    requires forall j :: 0 <= j < n && IsChild(c, j) ==> key(s[j]) <= key(s[c])
    ensures HeapOrderedFrom(s, key, n, lo)
  {
  }

  /** Sift-up from a sift-up state ends ready to sift down from `start` (a heap if `start` is a leaf). */
  lemma {:induction false} SiftUpRestores<T>(s: seq<T>, key: T -> real, n: int, c: int, start: int)
    requires SiftingUp(s, key, n, c, start)
    ensures SiftingDown(SiftedUp(s, key, c), key, n, 0, start)
    ensures 2 * start + 1 >= n ==> HeapOrdered(SiftedUp(s, key, c), key, n)
    decreases c
  {
    if c == 0 || key(s[c]) <= key(s[(c - 1) / 2]) {
      SiftUpDone(s, key, n, c, start);
    } else {
      SiftUpStep(s, key, n, c, start);
      SiftUpRestores(Swap(s, c, (c - 1) / 2), key, n, (c - 1) / 2, start);
    }
  }

  /** Sift-down from a sift-down state restores the heap order from `lo` on. */
  lemma {:induction false} SiftDownRestores<T>(s: seq<T>, key: T -> real, n: int, lo: int, c: int)
    requires SiftingDown(s, key, n, lo, c)
    ensures HeapOrderedFrom(SiftedDown(s, key, n, c), key, n, lo)
    decreases n - c
  {
    var m := Largest(s, key, n, c);
    if m == c {
      SiftDownDone(s, key, n, lo, c);
    } else {
      SiftDownStep(s, key, n, lo, c, m);
      SiftDownRestores(Swap(s, c, m), key, n, lo, m);
    }
  }

  /** The heap order of the first `n` slots depends on nothing else. */
  lemma HeapOrderedSamePrefix<T>(s: seq<T>, t: seq<T>, key: T -> real, n: int, lo: int)
    requires HeapOrderedFrom(s, key, n, lo) && n <= |t| && s[..n] == t[..n]
    ensures HeapOrderedFrom(t, key, n, lo)
  {
    forall i, j | 0 <= i && lo <= i < n && 0 <= j < n && IsChild(i, j)
      ensures key(t[j]) <= key(t[i])
    {
      assert s[..n][i] == t[..n][i] && s[..n][j] == t[..n][j];
    }
  }

  /** Every live slot of a heap is dominated by its ancestors, hence by the root. */
  lemma {:induction false} RootDominates<T>(s: seq<T>, key: T -> real, n: int, k: int)
    requires HeapOrdered(s, key, n) && 0 <= k < n
    ensures key(s[k]) <= key(s[0])
    decreases k
  {
    if k > 0 {
      var p := (k - 1) / 2;
      assert IsChild(p, k);
      RootDominates(s, key, n, p);
    }
  }

  /** The root of a heap holds a largest key among the live slots. */
  lemma RootIsMax<T>(s: seq<T>, key: T -> real, n: int)
    requires HeapOrdered(s, key, n) && 0 < n
    ensures forall x :: x in multiset(s[..n]) ==> key(x) <= key(s[0])
    ensures s[0] in multiset(s[..n])
  {
    forall x | x in multiset(s[..n])
      ensures key(x) <= key(s[0])
    {
      var k :| 0 <= k < n && s[..n][k] == x;
      RootDominates(s, key, n, k);
    }
    assert s[..n][0] == s[0];
  }

  /**
   * Moving the last live slot of a heap of `n` into the root leaves `n - 1`
   * live slots holding the old ones minus the root, in heap order below the root.
   */
  lemma MoveLastToRoot<T>(s: seq<T>, key: T -> real, n: int)
    requires HeapOrdered(s, key, n) && 0 < n
    ensures multiset(s[0 := s[n - 1]][..n - 1]) == multiset(s[..n]) - multiset{s[0]}
    ensures HeapOrderedFrom(s[0 := s[n - 1]], key, n - 1, 1)
  {
    var t := s[0 := s[n - 1]];
    if n > 1 {
      assert s[..n] == [s[0]] + s[1..n - 1] + [s[n - 1]];
      assert t[..n - 1] == [s[n - 1]] + s[1..n - 1];
    }
  }

  /** The live slots keep their multiset when only slots inside them changed. */
  lemma PrefixMultiset<T>(a: seq<T>, b: seq<T>, n: int)
    requires |a| == |b| && 0 <= n <= |a| && multiset(a) == multiset(b) && a[n..] == b[n..]
    ensures multiset(a[..n]) == multiset(b[..n])
  {
    calc {
      multiset(a[..n]);
      multiset(a[..n]) + multiset(a[n..]) - multiset(a[n..]);
      { assert a == a[..n] + a[n..]; }
      multiset(a) - multiset(b[n..]);
      { assert b == b[..n] + b[n..]; }
      multiset(b[..n]);
    }
  }

  /** Sift-up permutes the slots up to `c` and leaves the rest as they were. */
  lemma SiftedUpFrame<T>(s: seq<T>, key: T -> real, c: int)
    requires 0 <= c < |s|
    ensures SiftedUp(s, key, c)[c + 1..] == s[c + 1..]
    ensures multiset(SiftedUp(s, key, c)[..c + 1]) == multiset(s[..c + 1])
  {
    var r := SiftedUp(s, key, c);
    assert r[c + 1..] == s[c + 1..];
    PrefixMultiset(r, s, c + 1);
  }

  /** Sift-down permutes the first `n` slots and leaves the rest as they were. */
  lemma SiftedDownFrame<T>(s: seq<T>, key: T -> real, n: int, c: int)
    requires 0 <= c < n <= |s|
    ensures SiftedDown(s, key, n, c)[n..] == s[n..]
    ensures multiset(SiftedDown(s, key, n, c)[..n]) == multiset(s[..n])
  {
    var r := SiftedDown(s, key, n, c);
    assert r[n..] == s[n..];
    PrefixMultiset(r, s, n);
  }

  /** Moving one occurrence of `v` from `b` to `a` keeps the union. */
  lemma MoveOne<T>(a: multiset<T>, b: multiset<T>, v: T)
    requires v in b
    ensures (a + multiset{v}) + (b - multiset{v}) == a + b
    ensures forall x :: x in b - multiset{v} ==> x in b
  {
  }
}
