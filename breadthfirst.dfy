/**
 * The state of a breadth-first search and the steps that preserve it,
 * shared by the integer-vertex search (IntGraph) and the symbol graph's
 * related-stock search (StockGraphs).
 *
 * `l` is every vertex enqueued so far, in the order it was enqueued, and
 * `lv` their levels; the first n have been polled and the rest, l[n..], are
 * the queue.
 */
module BreadthFirst {
  import opened Reachability

  /** Starts at start; distinct, each at its level, levels non-decreasing. */
  ghost predicate Enqueued<T>(adj: map<T, seq<T>>, start: T, l: seq<T>, lv: seq<nat>) {
    && |l| > 0 && |lv| == |l| && l[0] == start
    && (forall i, j :: 0 <= i < j < |l| ==> l[i] != l[j])
    && (forall i {:trigger FirstReached(adj, start, l[i], lv[i])} :: 0 <= i < |l| ==> FirstReached(adj, start, l[i], lv[i]))
    && (forall i, j :: 0 <= i < j < |l| ==> lv[i] <= lv[j])
  }

  /** Each of the first m vertices of l has had all its neighbours enqueued. */
  ghost predicate Closed<T>(adj: map<T, seq<T>>, l: seq<T>, m: nat) {
    forall i, w :: 0 <= i < m && i < |l| && w in Succ(adj, l[i]) ==> w in l
  }

  /** Every vertex within d steps has been enqueued. */
  ghost predicate CoversUpTo<T>(adj: map<T, seq<T>>, start: T, l: seq<T>, d: nat) {
    forall x :: x in Reach(adj, start, d) ==> x in l
  }

  /** Between two polls: n vertices polled, the queue l[n..] waiting. */
  ghost predicate Searching<T>(adj: map<T, seq<T>>, start: T, l: seq<T>, lv: seq<nat>, n: nat) {
    && n <= |l|
    && Enqueued(adj, start, l, lv)
    && Closed(adj, l, n)
    && (n < |l| ==> lv[|l| - 1] <= lv[n] + 1 && CoversUpTo(adj, start, l, lv[n]))
  }

  /** While visiting the last polled vertex: its first e neighbours are done. */
  ghost predicate Visiting<T>(adj: map<T, seq<T>>, start: T, l: seq<T>, lv: seq<nat>, n: nat, e: nat) {
    && 0 < n <= |l|
    && Enqueued(adj, start, l, lv)
    && e <= |Succ(adj, l[n - 1])|
    && Closed(adj, l, n - 1)
    && (forall w :: w in Succ(adj, l[n - 1])[..e] ==> w in l)
    && lv[|l| - 1] <= lv[n - 1] + 1
    && CoversUpTo(adj, start, l, lv[n - 1])
  }

  /** Appending a new vertex at a level no lower than the last keeps the enqueued sequence well-formed. */
  lemma Append<T>(adj: map<T, seq<T>>, start: T, l: seq<T>, lv: seq<nat>, w: T, d: nat)
    requires Enqueued(adj, start, l, lv) && lv[|l| - 1] <= d
    requires w !in l && FirstReached(adj, start, w, d)
    ensures Enqueued(adj, start, l + [w], lv + [d])
  {
    var l', lv' := l + [w], lv + [d];
    forall i | 0 <= i < |l'|
      ensures FirstReached(adj, start, l'[i], lv'[i])
    {
      if i < |l| {
        assert l'[i] == l[i] && lv'[i] == lv[i];
      }
    }
    forall i, j | 0 <= i < j < |l'|
      ensures l'[i] != l'[j] && lv'[i] <= lv'[j]
    {
      if j < |l| {
        assert l'[i] == l[i] && l'[j] == l[j];
      } else {
        assert l'[i] == l[i] && l'[i] in l;
      }
    }
  }

  /** Closure and coverage survive enqueueing another vertex. */
  lemma Grows<T>(adj: map<T, seq<T>>, start: T, l: seq<T>, w: T, m: nat, d: nat)
    requires m <= |l| && Closed(adj, l, m) && CoversUpTo(adj, start, l, d)
    ensures Closed(adj, l + [w], m) && CoversUpTo(adj, start, l + [w], d)
  {
    var l' := l + [w];
    forall i, x | 0 <= i < m && i < |l'| && x in Succ(adj, l'[i])
      ensures x in l'
    {
      assert l'[i] == l[i];
      assert x in l;
      var k :| 0 <= k < |l| && l[k] == x;
      assert l'[k] == x;
    }
    forall x | x in Reach(adj, start, d)
      ensures x in l'
    {
      var k :| 0 <= k < |l| && l[k] == x;
      assert l'[k] == x;
    }
  }

  lemma SliceStep<T>(s: seq<T>, e: nat)
    requires e < |s|
    ensures s[..e + 1] == s[..e] + [s[e]]
  {
  }

  /** The search starts with the start vertex alone in the queue, at level 0. */
  lemma Begin<T>(adj: map<T, seq<T>>, start: T)
    ensures Searching(adj, start, [start], [0], 0)
  {
  }

  /** Polling the head of the queue starts its visit. */
  lemma Poll<T>(adj: map<T, seq<T>>, start: T, l: seq<T>, lv: seq<nat>, n: nat)
    requires Searching(adj, start, l, lv, n) && n < |l|
    ensures Visiting(adj, start, l, lv, n + 1, 0)
  {
  }

  /** Enqueueing an unvisited neighbour, one level below the polled vertex, keeps the visit invariant. */
  lemma Discover<T>(adj: map<T, seq<T>>, start: T, l: seq<T>, lv: seq<nat>, n: nat, e: nat)
    requires Visiting(adj, start, l, lv, n, e)
    requires e < |Succ(adj, l[n - 1])| && Succ(adj, l[n - 1])[e] !in l
    ensures Visiting(adj, start, l + [Succ(adj, l[n - 1])[e]], lv + [lv[n - 1] + 1], n, e + 1)
  {
    var u, d := l[n - 1], lv[n - 1];
    var w := Succ(adj, u)[e];
    NewLevel(adj, start, l, lv, n, e);
    Append(adj, start, l, lv, w, d + 1);
    Grows(adj, start, l, w, n - 1, d);
    EdgesCovered(Succ(adj, u), e, l);
    assert (l + [w])[n - 1] == u && (lv + [d + 1])[n - 1] == d;
  }

  /** The unvisited neighbour w of the polled vertex u is first reached one level below u. */
  lemma NewLevel<T>(adj: map<T, seq<T>>, start: T, l: seq<T>, lv: seq<nat>, n: nat, e: nat)
    requires Visiting(adj, start, l, lv, n, e)
    requires e < |Succ(adj, l[n - 1])| && Succ(adj, l[n - 1])[e] !in l
    ensures FirstReached(adj, start, Succ(adj, l[n - 1])[e], lv[n - 1] + 1)
    ensures lv[|l| - 1] <= lv[n - 1] + 1
  {
    var u, d := l[n - 1], lv[n - 1];
    assert FirstReached(adj, start, u, d);
    ReachEdge(adj, start, u, Succ(adj, u)[e], d);
  }

  /** If the first e edges land in l, the first e + 1 land in l + [s[e]]. */
  lemma EdgesCovered<T>(s: seq<T>, e: nat, l: seq<T>)
    requires e < |s| && forall x :: x in s[..e] ==> x in l
    ensures forall x :: x in s[..e + 1] ==> x in l + [s[e]]
  {
    SliceStep(s, e);
    forall x | x in s[..e + 1]
      ensures x in l + [s[e]]
    {
      if x != s[e] {
        assert x in s[..e] && x in l;
        var k :| 0 <= k < |l| && l[k] == x;
        assert (l + [s[e]])[k] == x;
      }
    }
  }

  /** A neighbour already enqueued changes nothing. */
  lemma Skip<T>(adj: map<T, seq<T>>, start: T, l: seq<T>, lv: seq<nat>, n: nat, e: nat)
    requires Visiting(adj, start, l, lv, n, e)
    requires e < |Succ(adj, l[n - 1])| && Succ(adj, l[n - 1])[e] in l
    ensures Visiting(adj, start, l, lv, n, e + 1)
  {
    SliceStep(Succ(adj, l[n - 1]), e);
  }

  /** Once every neighbour of the polled vertex is done, the search moves on to the next head. */
  lemma Visited<T>(adj: map<T, seq<T>>, start: T, l: seq<T>, lv: seq<nat>, n: nat)
    requires 0 < n <= |l|
    requires Visiting(adj, start, l, lv, n, |Succ(adj, l[n - 1])|)
    ensures Searching(adj, start, l, lv, n)
  {
    var u, d := l[n - 1], lv[n - 1];
    assert Succ(adj, u)[..|Succ(adj, u)|] == Succ(adj, u);
    if n < |l| {
      forall x | x in Reach(adj, start, lv[n])
        ensures x in l
      {
        if x !in Reach(adj, start, d) {
          assert lv[n] == d + 1;
          var p := Source(adj, Reach(adj, start, d), x);
          var k :| 0 <= k < |l| && l[k] == p;
          assert FirstReached(adj, start, l[k], lv[k]);
          LevelLeast(adj, start, p, lv[k], d);
          assert k < n;
        }
      }
    }
  }

  /** Enqueue order never puts a vertex before one nearer to the start. */
  lemma InLevelOrder<T>(adj: map<T, seq<T>>, start: T, l: seq<T>, lv: seq<nat>)
    requires Enqueued(adj, start, l, lv)
    ensures forall i, j :: 0 <= i < j < |l| ==> NoFartherThan(adj, start, l[i], l[j])
  {
    forall i, j | 0 <= i < j < |l|
      ensures NoFartherThan(adj, start, l[i], l[j])
    {
      LevelsOrder(adj, start, l[i], lv[i], l[j], lv[j]);
    }
  }

  /** With the queue empty, the enqueued vertices are exactly the reachable ones. */
  lemma Finished<T>(adj: map<T, seq<T>>, start: T, l: seq<T>, lv: seq<nat>)
    requires Searching(adj, start, l, lv, |l|)
    ensures forall v :: v in l <==> Reachable(adj, start, v)
  {
    forall v | v in l
      ensures Reachable(adj, start, v)
    {
      var i :| 0 <= i < |l| && l[i] == v;
      assert FirstReached(adj, start, l[i], lv[i]);
    }
    var s := set x | x in l;
    forall v, w | v in s && w in Succ(adj, v)
      ensures w in s
    {
      var i :| 0 <= i < |l| && l[i] == v;
    }
    forall v | Reachable(adj, start, v)
      ensures v in l
    {
      var k: nat :| v in Reach(adj, start, k);
      ClosedContainsReach(adj, start, s, k);
    }
  }

  /**
   * After the levels 0 .. d polled whole (the last polled vertex at level d,
   * the head of the queue, if any, at d + 1), the polled vertices are those
   * within d steps; once the queue is empty they are those within any k >= d.
   */
  lemma LevelsPolled<T>(adj: map<T, seq<T>>, start: T, l: seq<T>, lv: seq<nat>, n: nat, d: nat, k: nat)
    requires Searching(adj, start, l, lv, n) && 0 < n && lv[n - 1] == d <= k
    requires n < |l| ==> lv[n] == d + 1 && k == d
    ensures forall x :: x in l[..n] <==> x in Reach(adj, start, k)
  {
    forall x | x in l[..n]
      ensures x in Reach(adj, start, k)
    {
      var i :| 0 <= i < n && l[i] == x;
      assert FirstReached(adj, start, l[i], lv[i]);
      ReachMono(adj, start, lv[i], k);
    }
    if n == |l| {
      assert l[..n] == l;
      Finished(adj, start, l, lv);
    } else {
      ReachMono(adj, start, k, lv[n]);
      forall x | x in Reach(adj, start, k)
        ensures x in l[..n]
      {
        var j :| 0 <= j < |l| && l[j] == x;
        LevelLeast(adj, start, x, lv[j], k);
        assert l[..n][j] == x;
      }
    }
  }

  /**
   * The levels 0 .. depth - 1 have been polled whole and the queue holds
   * exactly level depth: the state at the top of a level-by-level search.
   */
  ghost predicate AtLevel<T>(adj: map<T, seq<T>>, start: T, l: seq<T>, lv: seq<nat>, n: nat, depth: nat) {
    && Searching(adj, start, l, lv, n)
    && (n == 0 <==> depth == 0)
    && (n > 0 ==> lv[n - 1] + 1 == depth)
    && (n < |l| ==> lv[n] == depth && lv[|l| - 1] == depth)
  }

  /**
   * A level-by-level search that stops when its queue is empty or when
   * maxDepth levels have been polled has polled the vertices within
   * maxDepth - 1 steps, and nothing else.
   */
  lemma PolledWithin<T>(adj: map<T, seq<T>>, start: T, l: seq<T>, lv: seq<nat>, n: nat, depth: nat, maxDepth: int)
    requires AtLevel(adj, start, l, lv, n, depth)
    requires depth <= maxDepth || depth == 0
    requires n == |l| || depth >= maxDepth
    ensures forall x :: x in l[..n] <==> maxDepth >= 1 && x in Reach(adj, start, maxDepth - 1)
  {
    if n > 0 {
      LevelsPolled(adj, start, l, lv, n, depth - 1, maxDepth - 1);
    }
  }

  /**
   * Partway through polling level depth, which is l[..m] from the last
   * level boundary on: the head n is still in it, and everything enqueued
   * after l[..m] belongs to level depth + 1.
   */
  ghost predicate InLevel<T>(adj: map<T, seq<T>>, start: T, l: seq<T>, lv: seq<nat>, n: nat, m: nat, depth: nat) {
    && Searching(adj, start, l, lv, n) && 0 < m <= |l| && n <= m
    && lv[m - 1] == depth
    && (n < m ==> lv[n] == depth)
    && (forall j :: m <= j < |l| ==> lv[j] == depth + 1)
  }

  /** At the top of a level, the whole queue is the level. */
  lemma StartLevel<T>(adj: map<T, seq<T>>, start: T, l: seq<T>, lv: seq<nat>, n: nat, depth: nat)
    requires AtLevel(adj, start, l, lv, n, depth) && n < |l|
    ensures InLevel(adj, start, l, lv, n, |l|, depth)
  {
  }

  /**
   * Polling one vertex of the level, with its new neighbours enqueued one
   * level further out and the earlier entries kept, stays within the level.
   */
  lemma PolledOne<T>(adj: map<T, seq<T>>, start: T, l: seq<T>, lv: seq<nat>, n: nat, m: nat, depth: nat,
                     l': seq<T>, lv': seq<nat>)
    requires InLevel(adj, start, l, lv, n, m, depth) && n < m
    requires Searching(adj, start, l', lv', n + 1)
    requires |l| <= |l'| && forall j :: 0 <= j < |l| ==> lv'[j] == lv[j]
    requires forall j :: |l| <= j < |l'| ==> lv'[j] == lv[n] + 1
    ensures InLevel(adj, start, l', lv', n + 1, m, depth)
  {
  }

  /** Once the level is polled, the search is at the top of the next one. */
  lemma EndLevel<T>(adj: map<T, seq<T>>, start: T, l: seq<T>, lv: seq<nat>, m: nat, depth: nat)
    requires InLevel(adj, start, l, lv, m, m, depth)
    ensures AtLevel(adj, start, l, lv, m, depth + 1)
  {
  }

  // ---------------------------------------------------------------------
  // The exact order of a search: each polled vertex's successors are
  // enqueued in list order, skipping those already enqueued.

  /** `l` with each of `targets` that is not yet in it appended, in list order. */
  ghost function Enqueue<T>(l: seq<T>, targets: seq<T>): seq<T>
    decreases |targets|
  {
    if targets == [] then l
    else
      var m := Enqueue(l, targets[..|targets| - 1]);
      var w := targets[|targets| - 1];
      if w in m then m else m + [w]
  }

  /** Everything enqueued by a search from start once its first n queue entries have been polled. */
  ghost function SearchLog<T>(adj: map<T, seq<T>>, start: T, n: nat): seq<T>
  {
    if n == 0 then [start]
    else
      var l := SearchLog(adj, start, n - 1);
      if n - 1 < |l| then Enqueue(l, Succ(adj, l[n - 1])) else l
  }

  /** Targets that are new and repeat-free are appended exactly as listed. */
  lemma {:induction false} EnqueueFresh<T>(l: seq<T>, targets: seq<T>)
    requires forall i, j :: 0 <= i < j < |targets| ==> targets[i] != targets[j]
    requires forall w :: w in targets ==> w !in l
    ensures Enqueue(l, targets) == l + targets
    decreases |targets|
  {
    if targets != [] {
      var init := targets[..|targets| - 1];
      EnqueueFresh(l, init);
      assert targets == init + [targets[|targets| - 1]];
    }
  }

  /** Polling log[n] and enqueueing its successors is the next step of the search log. */
  lemma SearchLogStep<T>(adj: map<T, seq<T>>, start: T, l: seq<T>, n: nat)
    requires l == SearchLog(adj, start, n) && n < |l|
    ensures Enqueue(l, Succ(adj, l[n])) == SearchLog(adj, start, n + 1)
  {
  }

  /**
   * The first level is the start's successor list in list order: the search
   * breaks ties between vertices at the same distance by adjacency-list order.
   */
  lemma FirstLevelInListOrder<T>(adj: map<T, seq<T>>, start: T)
    requires forall i, j :: 0 <= i < j < |Succ(adj, start)| ==> Succ(adj, start)[i] != Succ(adj, start)[j]
    requires start !in Succ(adj, start)
    ensures SearchLog(adj, start, 1) == [start] + Succ(adj, start)
  {
    EnqueueFresh([start], Succ(adj, start));
  }
}
