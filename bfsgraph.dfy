/**
 * The integer-vertex breadth-first search (datastructures/BFSGraph.java).
 *
 * The array of adjacency lists is an array of sequences; the visit order
 * that `bfs` prints is returned as a sequence. The queue is the unpolled
 * suffix of the sequence of enqueued vertices, whose polled prefix is the
 * visit order. `Bfs` is proved against the step-bounded reachability of the
 * Reachability module: the start comes first, no vertex comes twice,
 * exactly the reachable vertices come, and no vertex comes before one
 * nearer to the start. Its exact order is `SearchLog`: each polled
 * vertex enqueues its unvisited neighbours in list order.
 */
module IntGraph {
  import opened Reachability
  import opened BreadthFirst

  /** Every edge target is itself a vertex (an index into the array). */
  predicate EdgesInRange(g: seq<seq<int>>) {
    forall v, w :: 0 <= v < |g| && w in g[v] ==> 0 <= w < |g|
  }

  /** The adjacency lists as a graph: vertex v's list is g[v]. */
  ghost function Adjacency(g: seq<seq<int>>): (adj: map<int, seq<int>>)
    ensures forall v :: 0 <= v < |g| ==> Succ(adj, v) == g[v]
  {
    map v | 0 <= v < |g| :: g[v]
  }

  /** The visited flags mark exactly the enqueued vertices, which are all in range. */
  ghost predicate Marks(visited: seq<bool>, log: seq<int>) {
    && (forall i :: 0 <= i < |log| ==> 0 <= log[i] < |visited|)
    && (forall x :: 0 <= x < |visited| ==> (visited[x] <==> x in log))
  }

  /**
   * The state of bfs after `head` polls: the search invariant of the
   * enqueued log, the visited flags marking exactly it, and the log equal to
   * the search log.
   */
  ghost predicate Scanned(g: map<int, seq<int>>, start: int, log: seq<int>, lv: seq<nat>, head: nat, visited: seq<bool>) {
    Searching(g, start, log, lv, head) && Marks(visited, log) && log == SearchLog(g, start, head)
  }

  /** Before the loop: only the start is enqueued and marked. */
  lemma ScanStart(g: map<int, seq<int>>, start: int, visited: seq<bool>)
    requires 0 <= start < |visited| && forall x :: 0 <= x < |visited| ==> (visited[x] <==> x == start)
    ensures Scanned(g, start, [start], [0], 0, visited)
  {
    Begin(g, start);
  }

  /** With the queue drained, the log is the search order of bfs. */
  lemma ScanDone(g: map<int, seq<int>>, start: int, log: seq<int>, lv: seq<nat>, visited: seq<bool>)
    requires Scanned(g, start, log, lv, |log|, visited)
    ensures |log| > 0 && log[0] == start
    ensures forall i, j :: 0 <= i < j < |log| ==> log[i] != log[j]
    ensures forall v :: v in log <==> Reachable(g, start, v)
    ensures forall i, j :: 0 <= i < j < |log| ==> NoFartherThan(g, start, log[i], log[j])
    ensures log == SearchLog(g, start, |log|)
  {
    Finished(g, start, log, lv);
    InLevelOrder(g, start, log, lv);
  }

  /** Marking an unvisited vertex and enqueueing it keeps the marks, with one unvisited vertex fewer. */
  lemma Mark(visited: seq<bool>, log: seq<int>, w: int)
    requires Marks(visited, log) && 0 <= w < |visited| && !visited[w]
    ensures Marks(visited[w := true], log + [w])
    ensures multiset(visited[w := true])[false] + 1 == multiset(visited)[false]
  {
    var v' := visited[w := true];
    forall x | 0 <= x < |v'|
      ensures v'[x] <==> x in log + [w]
    {
      if x != w {
        assert v'[x] == visited[x];
      }
    }
    forall i | 0 <= i < |log + [w]|
      ensures 0 <= (log + [w])[i] < |v'|
    {
      if i < |log| {
        assert (log + [w])[i] == log[i];
      }
    }
  }

  /**
   * The graph of the demo main, 0 -> [1, 2], 1 -> [3, 4], 2 -> [5]: the
   * search from 0 visits 0 1 2 3 4 5, each level in list order.
   */
  lemma DemoOrder()
    ensures SearchLog(Adjacency([[1, 2], [3, 4], [5], [], [], []]), 0, 6) == [0, 1, 2, 3, 4, 5]
  {
    var g := Adjacency([[1, 2], [3, 4], [5], [], [], []]);
    assert Succ(g, 0) == [1, 2] && Succ(g, 1) == [3, 4] && Succ(g, 2) == [5];
    assert Succ(g, 3) == [] && Succ(g, 4) == [] && Succ(g, 5) == [];
    assert SearchLog(g, 0, 0) == [0];
    EnqueueFresh([0], [1, 2]);
    assert SearchLog(g, 0, 1) == [0, 1, 2];
    EnqueueFresh([0, 1, 2], [3, 4]);
    assert SearchLog(g, 0, 2) == [0, 1, 2, 3, 4];
    EnqueueFresh([0, 1, 2, 3, 4], [5]);
    assert SearchLog(g, 0, 3) == [0, 1, 2, 3, 4, 5];
    assert SearchLog(g, 0, 4) == [0, 1, 2, 3, 4, 5];
    assert SearchLog(g, 0, 5) == [0, 1, 2, 3, 4, 5];
  }

  class BFSGraph {
    const vertices: nat
    const adj: array<seq<int>>

    ghost predicate Valid()
      reads this
    {
      adj.Length == vertices
    }

    /** g is the graph of the adjacency lists. */
    ghost predicate Lists(g: map<int, seq<int>>)
      reads this, adj
    {
      forall v :: 0 <= v < adj.Length ==> Succ(g, v) == adj[v]
    }

    /** v vertices, each with an empty adjacency list. */
    constructor (v: nat)
      ensures Valid() && vertices == v
      ensures adj[..] == seq(v, _ => [])
      ensures fresh(adj)
    {
      vertices := v;
      var lists := new seq<int>[v];
      for i := 0 to v
        invariant lists[..i] == seq(i, _ => [])
      {
        lists[i] := [];
      }
      adj := lists;
    }

    /** Appends dest to the list of src and touches no other list. */
    method AddEdge(src: int, dest: int)
      requires Valid() && 0 <= src < vertices
      modifies adj
      ensures adj[..] == old(adj[..])[src := old(adj[src]) + [dest]]
    {
      adj[src] := adj[src] + [dest];
    }

    /** The vertices in the order a breadth-first search from start visits them. */
    method Bfs(start: int) returns (order: seq<int>)
      requires Valid() && 0 <= start < vertices && EdgesInRange(adj[..])
      ensures |order| > 0 && order[0] == start
      ensures forall i, j :: 0 <= i < j < |order| ==> order[i] != order[j]
      ensures forall v :: v in order <==> Reachable(Adjacency(adj[..]), start, v)
      ensures forall i, j :: 0 <= i < j < |order| ==> NoFartherThan(Adjacency(adj[..]), start, order[i], order[j])
      ensures order == SearchLog(Adjacency(adj[..]), start, |order|)
    {
      ghost var g := Adjacency(adj[..]);
      var visited := new bool[vertices](_ => false);
      visited[start] := true;
      // every vertex enqueued so far, in order; the queue is log[head..]
      var log := [start];
      var head := 0;
      ghost var lv: seq<nat> := [0];
      ScanStart(g, start, visited[..]);
      while head < |log|
        invariant g == Adjacency(adj[..]) && visited.Length == vertices
        invariant Scanned(g, start, log, lv, head, visited[..])
        decreases 2 * multiset(visited[..])[false] + (|log| - head)
      {
        log, lv := Visit(visited, log, head, g, start, lv);
        head := head + 1;
      }
      order := log;
      ScanDone(g, start, order, lv, visited[..]);
    }

    /**
     * One turn of the loop of bfs: polls log[head] and enqueues its unvisited
     * neighbours, which is the next step of the search log.
     */
    method Visit(visited: array<bool>, log: seq<int>, head: nat, ghost g: map<int, seq<int>>,
                 ghost start: int, ghost lv: seq<nat>)
      returns (log': seq<int>, ghost lv': seq<nat>)
      requires Valid() && Lists(g) && EdgesInRange(adj[..]) && visited.Length == vertices
      requires Scanned(g, start, log, lv, head, visited[..]) && head < |log|
      modifies visited
      ensures Scanned(g, start, log', lv', head + 1, visited[..])
      ensures 2 * multiset(visited[..])[false] + |log'| <= 2 * old(multiset(visited[..])[false]) + |log|
    {
      Poll(g, start, log, lv, head);
      SearchLogStep(g, start, log, head);
      log', lv' := Expand(visited, log, head + 1, g, start, lv);
      Visited(g, start, log', lv', head + 1);
    }

    /**
     * The inner loop of bfs: enqueues, in list order, every neighbour of the
     * vertex just polled, log[head - 1], that is not yet visited, and marks it.
     */
    method Expand(visited: array<bool>, log: seq<int>, head: nat, ghost g: map<int, seq<int>>,
                  ghost start: int, ghost lv: seq<nat>)
      returns (log': seq<int>, ghost lv': seq<nat>)
      requires Valid() && Lists(g) && EdgesInRange(adj[..]) && visited.Length == vertices
      requires Visiting(g, start, log, lv, head, 0)
      requires Marks(visited[..], log)
      modifies visited
      ensures |log| <= |log'| && log'[head - 1] == log[head - 1]
      ensures log' == Enqueue(log, Succ(g, log[head - 1]))
      ensures Visiting(g, start, log', lv', head, |Succ(g, log[head - 1])|)
      ensures Marks(visited[..], log')
      ensures 2 * multiset(visited[..])[false] + |log'| <= 2 * old(multiset(visited[..])[false]) + |log|
    {
      var node := log[head - 1];
      var edges := adj[node];
      assert edges == Succ(g, node);
      log', lv' := log, lv;
      for e := 0 to |edges|
        invariant Visiting(g, start, log', lv', head, e) && log'[head - 1] == node && |log| <= |log'|
        invariant Marks(visited[..], log')
        invariant 2 * multiset(visited[..])[false] + |log'| <= 2 * old(multiset(visited[..])[false]) + |log|
        invariant log' == Enqueue(log, edges[..e])
      {
        assert edges[..e + 1][..e] == edges[..e];
        var w := edges[e];
        assert w in adj[node];
        if !visited[w] {
          Discover(g, start, log', lv', head, e);
          Mark(visited[..], log', w);
          lv' := lv' + [lv'[head - 1] + 1];
          visited[w] := true;
          log' := log' + [w];
        } else {
          Skip(g, start, log', lv', head, e);
        }
      }
      assert edges[..|edges|] == edges;
    }
  }
}
