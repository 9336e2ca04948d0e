/**
 * Reachability and breadth-first levels in a directed graph given as a map
 * from each vertex to its adjacency list. A vertex without an entry has no
 * outgoing edges (the Java searches skip a `null` list); edge targets need
 * not have entries of their own.
 *
 * `Reach(adj, start, k)` is the set of vertices reachable from `start` in at
 * most k steps; a vertex's level is the least such k. These are the
 * specification the searches of the model are proved against.
 */
module Reachability {

  /** The targets of the edges leaving v, in list order. */
  function Succ<T>(adj: map<T, seq<T>>, v: T): seq<T> {
    if v in adj then adj[v] else []
  }

  /** The targets of the edges leaving the vertices of s, list after list. */
  ghost function Next<T>(adj: map<T, seq<T>>, s: seq<T>): seq<T> {
    if s == [] then [] else Succ(adj, s[0]) + Next(adj, s[1..])
  }

  /** An edge out of s lands in Next(adj, s). */
  lemma {:induction false} IntoNext<T>(adj: map<T, seq<T>>, s: seq<T>, v: T, w: T)
    requires v in s && w in Succ(adj, v)
    ensures w in Next(adj, s)
  {
    if s[0] != v {
      IntoNext(adj, s[1..], v, w);
    }
  }

  /** A vertex of s with an edge to w, for w in Next(adj, s). */
  lemma {:induction false} Source<T>(adj: map<T, seq<T>>, s: seq<T>, w: T) returns (v: T)
    requires w in Next(adj, s)
    ensures v in s && w in Succ(adj, v)
  {
    if w in Succ(adj, s[0]) {
      v := s[0];
    } else {
      v := Source(adj, s[1..], w);
    }
  }

  /**
   * The vertices reachable from start in at most k steps (with repeats: it
   * is only ever asked what it contains).
   */
  ghost function Reach<T>(adj: map<T, seq<T>>, start: T, k: nat): seq<T> {
    if k == 0 then [start] else Reach(adj, start, k - 1) + Next(adj, Reach(adj, start, k - 1))
  }

  ghost predicate Reachable<T>(adj: map<T, seq<T>>, start: T, v: T) {
    exists k: nat :: v in Reach(adj, start, k)
  }

  lemma {:induction false} ReachMono<T>(adj: map<T, seq<T>>, start: T, j: nat, k: nat)
    requires j <= k
    ensures forall x :: x in Reach(adj, start, j) ==> x in Reach(adj, start, k)
    decreases k
  {
    if j < k {
      ReachMono(adj, start, j, k - 1);
    }
  }

  /** v is reached in d steps and not in fewer: d is its breadth-first level. */
  ghost predicate FirstReached<T>(adj: map<T, seq<T>>, start: T, v: T, d: nat) {
    v in Reach(adj, start, d) && (d == 0 || v !in Reach(adj, start, d - 1))
  }

  /** Every step count that reaches v is at least as far as v's level. */
  lemma LevelLeast<T>(adj: map<T, seq<T>>, start: T, v: T, d: nat, k: nat)
    requires FirstReached(adj, start, v, d) && v in Reach(adj, start, k)
    ensures d <= k
  {
    if k < d {
      ReachMono(adj, start, k, d - 1);
    }
  }

  /** a is no farther from start than b: every step count that reaches b reaches a. */
  ghost predicate NoFartherThan<T>(adj: map<T, seq<T>>, start: T, a: T, b: T) {
    forall k: nat :: b in Reach(adj, start, k) ==> a in Reach(adj, start, k)
  }

  /** Levels order vertices by distance. */
  lemma LevelsOrder<T>(adj: map<T, seq<T>>, start: T, a: T, da: nat, b: T, db: nat)
    requires FirstReached(adj, start, a, da) && FirstReached(adj, start, b, db) && da <= db
    ensures NoFartherThan(adj, start, a, b)
  {
    forall k: nat | b in Reach(adj, start, k)
      ensures a in Reach(adj, start, k)
    {
      LevelLeast(adj, start, b, db, k);
      ReachMono(adj, start, da, k);
    }
  }

  /** The neighbours of a vertex reached in d steps are reached in d + 1. */
  lemma ReachEdge<T>(adj: map<T, seq<T>>, start: T, v: T, w: T, d: nat)
    requires v in Reach(adj, start, d) && w in Succ(adj, v)
    ensures w in Reach(adj, start, d + 1)
  {
    IntoNext(adj, Reach(adj, start, d), v, w);
  }

  /** A set that holds start and is closed under the edges holds everything reachable. */
  lemma {:induction false} ClosedContainsReach<T>(adj: map<T, seq<T>>, start: T, S: set<T>, k: nat)
    requires start in S
    requires forall v, w :: v in S && w in Succ(adj, v) ==> w in S
    ensures forall x :: x in Reach(adj, start, k) ==> x in S
  {
    if k > 0 {
      ClosedContainsReach(adj, start, S, k - 1);
      forall w | w in Next(adj, Reach(adj, start, k - 1))
        ensures w in S
      {
        var v := Source(adj, Reach(adj, start, k - 1), w);
      }
    }
  }

  /** What a successor of v reaches in k steps, v reaches in k + 1. */
  lemma {:induction false} ReachThroughSucc<T>(adj: map<T, seq<T>>, v: T, w: T, k: nat)
    requires w in Succ(adj, v)
    ensures forall x :: x in Reach(adj, w, k) ==> x in Reach(adj, v, k + 1)
  {
    if k == 0 {
      ReachEdge(adj, v, v, w, 0);
    } else {
      ReachThroughSucc(adj, v, w, k - 1);
      var before, after := Reach(adj, w, k - 1), Reach(adj, v, k + 1);
      forall x | x in Next(adj, before)
        ensures x in after
      {
        var u := Source(adj, before, x);
        ReachEdge(adj, v, u, x, k);
      }
    }
  }

  /** Reachability is transitive through an edge. */
  lemma ReachableThroughSucc<T>(adj: map<T, seq<T>>, v: T, w: T, x: T)
    requires w in Succ(adj, v) && Reachable(adj, w, x)
    ensures Reachable(adj, v, x)
  {
    var k: nat :| x in Reach(adj, w, k);
    ReachThroughSucc(adj, v, w, k);
    assert x in Reach(adj, v, k + 1);
  }
}
