/**
 * Orderings, sortedness and filtering, shared by the sorting utilities, the
 * heaps, the graph and the service.
 *
 * A Java `Comparator<T>` passed to the sorting utilities is modelled by the
 * relation `le(a, b)` that holds exactly when `compare(a, b) <= 0`. The heaps
 * do not use it: they rank by a key projection into the reals.
 */
module Orders {

  /** The contract of `java.util.Comparator`: total and transitive. */
  ghost predicate TotalPreorder<T(!new)>(le: (T, T) -> bool) {
    && (forall a, b :: le(a, b) || le(b, a))
    && (forall a, b, c :: le(a, b) && le(b, c) ==> le(a, c))
  }

  /** `Comparator.comparingDouble(key)` (and `comparingLong`, whose keys fit a real). */
  function ByKey<T>(key: T -> real): (T, T) -> bool {
    (a, b) => key(a) <= key(b)
  }

  /** `comparator.reversed()` */
  function Reversed<T>(le: (T, T) -> bool): (T, T) -> bool {
    (a, b) => le(b, a)
  }

  lemma ByKeyIsTotalPreorder<T(!new)>(key: T -> real)
    ensures TotalPreorder(ByKey(key))
  {
  }

  lemma ReversedIsTotalPreorder<T(!new)>(le: (T, T) -> bool)
    requires TotalPreorder(le)
    ensures TotalPreorder(Reversed(le))
  {
  }

  /** Every element is `le` every later element (ascending for `le`). */
  ghost predicate SortedBy<T>(s: seq<T>, le: (T, T) -> bool) {
    forall i, j :: 0 <= i < j < |s| ==> le(s[i], s[j])
  }

  /** Exchanges slots `i` and `j` (`Collections.swap`, and the heaps' own swaps). */
  function Swap<T>(s: seq<T>, i: int, j: int): (r: seq<T>)
    requires 0 <= i < |s| && 0 <= j < |s|
    ensures |r| == |s| && multiset(r) == multiset(s)
    ensures r[i] == s[j] && r[j] == s[i]
    ensures forall k :: 0 <= k < |s| && k != i && k != j ==> r[k] == s[k]
  {
    s[i := s[j]][j := s[i]]
  }

  /** `Math.min(k, size)` as a loop bound: no iterations when it is negative. */
  function PrefixLength(k: int, size: nat): (n: nat)
    ensures n <= size
    ensures k <= 0 ==> n == 0
    ensures k > 0 ==> n <= k && (n == k || n == size)
  {
    if k <= 0 then 0 else if k < size then k else size
  }

  // ---------------------------------------------------------------------
  // Filtering (`removeIf`, `stream().filter(...)`)

  /** The elements of `s` that satisfy `p`, in their order in `s`. */
  function Filter<T(!new)>(s: seq<T>, p: T -> bool): (r: seq<T>)
    ensures |r| <= |s|
  {
    if s == [] then []
    else if p(s[0]) then [s[0]] + Filter(s[1..], p)
    else Filter(s[1..], p)
  }

  /** An element is kept exactly when it occurs in the input and satisfies `p`. */
  lemma {:induction false} FilterMembers<T(!new)>(s: seq<T>, p: T -> bool)
    ensures forall x :: x in Filter(s, p) <==> x in s && p(x)
  {
    if s != [] {
      FilterMembers(s[1..], p);
      assert s == [s[0]] + s[1..];
    }
  }

  /** Filtering distributes over concatenation, so it keeps the relative order. */
  lemma {:induction false} FilterConcat<T(!new)>(a: seq<T>, b: seq<T>, p: T -> bool)
    ensures Filter(a + b, p) == Filter(a, p) + Filter(b, p)
  {
    if a == [] {
      assert a + b == b;
    } else {
      assert (a + b)[0] == a[0];
      assert (a + b)[1..] == a[1..] + b;
      FilterConcat(a[1..], b, p);
    }
  }

  /** A filter that lets everything through is the identity. */
  lemma {:induction false} FilterAll<T(!new)>(s: seq<T>, p: T -> bool)
    requires forall x :: x in s ==> p(x)
    ensures Filter(s, p) == s
  {
    if s != [] {
      FilterAll(s[1..], p);
    }
  }
}
