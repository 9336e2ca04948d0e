/**
 * The stock relationship graph (datastructures/StockGraph.java).
 *
 * `stocks` maps each symbol to its stock and `adjacencyList` maps each
 * symbol to its outgoing edges; both Java `HashMap`s are Dafny maps that the
 * methods reassign. A HashMap's iteration order is unspecified, so wherever
 * the source iterates over a map the model first enumerates its keys in an
 * order it leaves open (`Enumerate`), and the contracts hold for every such
 * order. Java's `null` from `Map.get` is `None`.
 *
 * The searches are proved against `Reachability` over the graph `Links`,
 * which keeps only each edge's target symbol.
 */
module StockGraphs {
  import opened Wrappers
  import opened Orders
  import opened Stocks
  import opened Sorting
  import opened Sectors
  import opened Reachability
  import opened BreadthFirst

  /** An edge to another symbol; the weight is stored and never read. */
  datatype Edge = Edge(to: string, weight: real)

  /** A stock with the number of its outgoing edges. */
  datatype StockNode = StockNode(stock: StockValue, connections: int)

  /** The target symbols of a list of edges, in list order. */
  function Targets(edges: seq<Edge>): (ts: seq<string>)
    ensures |ts| == |edges| && forall i :: 0 <= i < |edges| ==> ts[i] == edges[i].to
  {
    seq(|edges|, i requires 0 <= i < |edges| => edges[i].to)
  }

  /** The graph of the adjacency lists: each symbol's successors are its edges' targets. */
  ghost function Links(adjacencyList: map<string, seq<Edge>>): (g: map<string, seq<string>>)
    ensures forall s :: s in adjacencyList ==> Succ(g, s) == Targets(adjacencyList[s])
    ensures forall s :: s !in adjacencyList ==> Succ(g, s) == []
  {
    map s | s in adjacencyList :: Targets(adjacencyList[s])
  }

  /** `Map.get`: the value under the key, or None (Java's null) when there is none. */
  function Lookup<K, V>(m: map<K, V>, k: K): (r: Option<V>)
    ensures r.Some? <==> k in m
    ensures r.Some? ==> r.value == m[k]
  {
    if k in m then Some(m[k]) else None
  }

  /** No element occurs twice. */
  predicate Distinct<T(==)>(s: seq<T>) {
    forall i, j :: 0 <= i < j < |s| ==> s[i] != s[j]
  }

  /**
   * The elements of a finite set, each once, in an order this model leaves
   * open: the iteration order of a Java `HashMap`'s key set.
   */
  method Enumerate<T(==)>(s: set<T>) returns (r: seq<T>)
    ensures |r| == |s| && Distinct(r)
    ensures forall x :: x in r <==> x in s
  {
    r := [];
    var rest := s;
    while rest != {}
      invariant rest <= s && Distinct(r)
      invariant forall x :: x in r <==> x in s - rest
      invariant |r| + |rest| == |s|
      decreases rest
    {
      var x :| x in rest;
      assert x !in r;
      r := r + [x];
      rest := rest - {x};
    }
  }

  /** `(a, b) -> Integer.compare(b.connections, a.connections)`: more connections first. */
  function MoreConnected(): (StockNode, StockNode) -> bool {
    Reversed(ByKey((n: StockNode) => n.connections as real))
  }

  lemma MoreConnectedIsTotalPreorder()
    ensures TotalPreorder(MoreConnected())
    ensures forall a, b :: MoreConnected()(a, b) <==> b.connections <= a.connections
  {
    ByKeyIsTotalPreorder((n: StockNode) => n.connections as real);
    ReversedIsTotalPreorder(ByKey((n: StockNode) => n.connections as real));
  }

  /** An element at two positions occurs at least twice. */
  lemma TwiceCounted<T>(s: seq<T>, i: int, j: int)
    requires 0 <= i < j < |s| && s[i] == s[j]
    ensures multiset(s)[s[i]] >= 2
  {
    assert s == s[..j] + s[j..];
    assert s[i] in s[..j] && s[j] in s[j..];
  }

  lemma {:induction false} DistinctCounted<T>(s: seq<T>, x: T)
    requires Distinct(s)
    ensures multiset(s)[x] <= 1
  {
    if s != [] {
      assert s == [s[0]] + s[1..];
      DistinctCounted(s[1..], x);
      if s[0] == x {
        assert x !in s[1..];
      }
    }
  }

  /** A permutation of a list without repeats has none either. */
  lemma PermutationDistinct<T>(a: seq<T>, b: seq<T>)
    requires multiset(a) == multiset(b) && Distinct(a)
    ensures Distinct(b)
  {
    forall i, j | 0 <= i < j < |b|
      ensures b[i] != b[j]
    {
      if b[i] == b[j] {
        TwiceCounted(b, i, j);
        DistinctCounted(a, b[i]);
      }
    }
  }

  /** `nodes.sort((a, b) -> Integer.compare(b.connections, a.connections))`: the same nodes, most connected first. */
  method SortByConnections(nodes: seq<StockNode>) returns (sorted: seq<StockNode>)
    ensures |sorted| == |nodes| && multiset(sorted) == multiset(nodes)
    ensures forall i, j :: 0 <= i < j < |sorted| ==> sorted[j].connections <= sorted[i].connections
  {
    sorted := MergeSort(nodes, MoreConnected());
    MoreConnectedIsTotalPreorder();
    MergeSortSorted(nodes, MoreConnected());
  }

  /** n is the node of the stock filed under its symbol: that stock and its number of edges. */
  ghost predicate NodeIn(stocks: map<string, StockValue>, adjacencyList: map<string, seq<Edge>>, n: StockNode) {
    && n.stock.symbol in stocks && n.stock.symbol in adjacencyList
    && n.stock == stocks[n.stock.symbol]
    && n.connections == |adjacencyList[n.stock.symbol]|
  }

  /** One node for every vertex and nothing else, each once. */
  ghost predicate NodeList(stocks: map<string, StockValue>, adjacencyList: map<string, seq<Edge>>, nodes: seq<StockNode>) {
    && |nodes| == |stocks|
    && (forall j :: 0 <= j < |nodes| ==> NodeIn(stocks, adjacencyList, nodes[j]))
    && (forall s :: s in adjacencyList ==> exists p :: 0 <= p < |nodes| && nodes[p].stock.symbol == s)
    && (forall i, j :: 0 <= i < j < |nodes| ==> nodes[i].stock.symbol != nodes[j].stock.symbol)
  }

  /** The nodes built one per enumerated symbol form a node list. */
  lemma NodesOfSymbols(stocks: map<string, StockValue>, adjacencyList: map<string, seq<Edge>>,
                       symbols: seq<string>, nodes: seq<StockNode>)
    requires stocks.Keys == adjacencyList.Keys && forall s :: s in stocks ==> stocks[s].symbol == s
    requires Distinct(symbols) && |symbols| == |adjacencyList| && forall x :: x in symbols <==> x in adjacencyList
    requires |nodes| == |symbols|
    requires forall j :: 0 <= j < |symbols| ==> nodes[j] == StockNode(stocks[symbols[j]], |adjacencyList[symbols[j]]|)
    ensures NodeList(stocks, adjacencyList, nodes)
  {
    assert |stocks| == |stocks.Keys| == |adjacencyList.Keys| == |adjacencyList|;
    forall j | 0 <= j < |nodes|
      ensures nodes[j].stock.symbol == symbols[j]
    {
      assert symbols[j] in adjacencyList;
    }
    forall s | s in adjacencyList
      ensures exists p :: 0 <= p < |nodes| && nodes[p].stock.symbol == s
    {
      var q :| 0 <= q < |symbols| && symbols[q] == s;
      assert nodes[q].stock.symbol == s;
    }
    forall i, j | 0 <= i < j < |nodes|
      ensures nodes[i].stock.symbol != nodes[j].stock.symbol
    {
    }
  }

  /** A permutation of a node list is a node list. */
  lemma NodeListPermuted(stocks: map<string, StockValue>, adjacencyList: map<string, seq<Edge>>,
                         nodes: seq<StockNode>, sorted: seq<StockNode>)
    requires NodeList(stocks, adjacencyList, nodes)
    requires |sorted| == |nodes| && multiset(sorted) == multiset(nodes)
    ensures NodeList(stocks, adjacencyList, sorted)
  {
    forall i, j | 0 <= i < j < |nodes|
      ensures nodes[i] != nodes[j]
    {
    }
    PermutationDistinct(nodes, sorted);
    forall j | 0 <= j < |sorted|
      ensures NodeIn(stocks, adjacencyList, sorted[j])
    {
      assert sorted[j] in multiset(nodes);
      var q :| 0 <= q < |nodes| && nodes[q] == sorted[j];
    }
    forall s | s in adjacencyList
      ensures exists p :: 0 <= p < |sorted| && sorted[p].stock.symbol == s
    {
      var q :| 0 <= q < |nodes| && nodes[q].stock.symbol == s;
      assert nodes[q] in multiset(sorted);
      var p :| 0 <= p < |sorted| && sorted[p] == nodes[q];
    }
    forall i, j | 0 <= i < j < |sorted|
      ensures sorted[i].stock.symbol != sorted[j].stock.symbol
    {
      assert NodeIn(stocks, adjacencyList, sorted[i]) && NodeIn(stocks, adjacencyList, sorted[j]);
    }
  }

  /** The stocks of the first nodes of a node list sorted most connected first are the most connected stocks. */
  lemma MostConnected(stocks: map<string, StockValue>, adjacencyList: map<string, seq<Edge>>,
                      nodes: seq<StockNode>, sorted: seq<StockNode>, hubs: seq<StockValue>)
    requires NodeList(stocks, adjacencyList, nodes)
    requires |sorted| == |nodes| && multiset(sorted) == multiset(nodes)
    requires forall i, j :: 0 <= i < j < |sorted| ==> sorted[j].connections <= sorted[i].connections
    requires |hubs| <= |sorted| && forall j :: 0 <= j < |hubs| ==> hubs[j] == sorted[j].stock
    ensures |sorted| == |stocks|
    ensures forall i :: 0 <= i < |hubs| ==> hubs[i].symbol in adjacencyList && hubs[i].symbol in stocks && stocks[hubs[i].symbol] == hubs[i]
    ensures forall i, j :: 0 <= i < j < |hubs| ==> hubs[i].symbol != hubs[j].symbol
    ensures forall i, j :: 0 <= i < j < |hubs| ==> |adjacencyList[hubs[j].symbol]| <= |adjacencyList[hubs[i].symbol]|
    ensures forall s, i :: s in adjacencyList && 0 <= i < |hubs| && (forall j :: 0 <= j < |hubs| ==> hubs[j].symbol != s)
              ==> |adjacencyList[s]| <= |adjacencyList[hubs[i].symbol]|
  {
    NodeListPermuted(stocks, adjacencyList, nodes, sorted);
    forall i | 0 <= i < |hubs|
      ensures hubs[i].symbol in adjacencyList && hubs[i].symbol in stocks && stocks[hubs[i].symbol] == hubs[i]
    {
      assert NodeIn(stocks, adjacencyList, sorted[i]);
    }
    forall i, j | 0 <= i < j < |hubs|
      ensures |adjacencyList[hubs[j].symbol]| <= |adjacencyList[hubs[i].symbol]|
    {
      assert NodeIn(stocks, adjacencyList, sorted[i]) && NodeIn(stocks, adjacencyList, sorted[j]);
    }
    forall s, k | s in adjacencyList && 0 <= k < |hubs| && (forall j :: 0 <= j < |hubs| ==> hubs[j].symbol != s)
      ensures |adjacencyList[s]| <= |adjacencyList[hubs[k].symbol]|
    {
      var p :| 0 <= p < |sorted| && sorted[p].stock.symbol == s;
      assert hubs[k] == sorted[k].stock;
      assert NodeIn(stocks, adjacencyList, sorted[k]) && NodeIn(stocks, adjacencyList, sorted[p]);
      assert p >= |hubs|;
    }
  }

  /** The stocks of the first topK nodes (all of them when topK is larger, none when it is not positive). */
  method FirstStocks(nodes: seq<StockNode>, topK: int) returns (first: seq<StockValue>)
    ensures |first| == PrefixLength(topK, |nodes|)
    ensures forall j :: 0 <= j < |first| ==> first[j] == nodes[j].stock
  {
    first := [];
    var i := 0;
    while i < topK && i < |nodes|
      invariant i == |first| && i <= PrefixLength(topK, |nodes|)
      invariant forall j :: 0 <= j < i ==> first[j] == nodes[j].stock
    {
      first := first + [nodes[i].stock];
      i := i + 1;
    }
  }

  /** The polled symbols after the start, when log[0] is the start and log has no repeats. */
  lemma RelatedSymbols(symbol: string, log: seq<string>, head: nat, rel: seq<string>)
    requires 0 < |log| && log[0] == symbol && Distinct(log) && head <= |log|
    requires rel == if head == 0 then [] else log[1..head]
    ensures |rel| == (if head == 0 then 0 else head - 1) && forall i :: 0 <= i < |rel| ==> rel[i] == log[i + 1]
    ensures forall x :: x in rel <==> x in log[..head] && x != symbol
  {
    if head > 0 {
      assert log[..head] == [symbol] + rel;
    }
  }

  /**
   * The bookkeeping of findRelatedStocks after head polls: `visited` is the
   * set of enqueued symbols, `log` is exactly what the search has enqueued,
   * and `related` holds the lookups of the polled symbols after the start.
   */
  ghost predicate Tracked(stocks: map<string, StockValue>, g: map<string, seq<string>>, symbol: string,
                          visited: set<string>, log: seq<string>, head: nat, related: seq<Option<StockValue>>) {
    && head <= |log|
    && (forall x :: x in visited <==> x in log)
    && |related| == (if head == 0 then 0 else head - 1)
    && (forall i :: 0 <= i < |related| ==> related[i] == Lookup(stocks, log[i + 1]))
    && log == SearchLog(g, symbol, head)
  }

  /** Polling log[head] and enqueuing its new successors keeps the bookkeeping of findRelatedStocks. */
  lemma TrackPoll(stocks: map<string, StockValue>, g: map<string, seq<string>>, symbol: string,
                  visited: set<string>, log: seq<string>, head: nat, related: seq<Option<StockValue>>,
                  visited': set<string>, log': seq<string>, related': seq<Option<StockValue>>)
    requires Tracked(stocks, g, symbol, visited, log, head, related)
    requires Distinct(log) && head < |log| && log[0] == symbol
    requires related' == if log[head] != symbol then related + [Lookup(stocks, log[head])] else related
    requires forall x :: x in visited' <==> x in log'
    requires log' == Enqueue(log, Succ(g, log[head]))
    requires |log| <= |log'| && forall j :: 0 <= j < |log| ==> log'[j] == log[j]
    ensures Tracked(stocks, g, symbol, visited', log', head + 1, related')
  {
    assert log' == SearchLog(g, symbol, head + 1) by {
      assert log == SearchLog(g, symbol, head);
    }
    RecordPolled(stocks, symbol, log, head, related, log', related');
  }

  /** Recording the symbol polled at index head keeps `related` in step with the symbols polled after the start. */
  lemma RecordPolled(stocks: map<string, StockValue>, symbol: string, log: seq<string>, head: nat,
                     related: seq<Option<StockValue>>, log': seq<string>, related': seq<Option<StockValue>>)
    requires Distinct(log) && head < |log| && log[0] == symbol
    requires |related| == (if head == 0 then 0 else head - 1)
    requires forall i :: 0 <= i < |related| ==> related[i] == Lookup(stocks, log[i + 1])
    requires related' == if log[head] != symbol then related + [Lookup(stocks, log[head])] else related
    requires |log| <= |log'| && forall j :: 0 <= j < |log| ==> log'[j] == log[j]
    ensures |related'| == head
    ensures forall i :: 0 <= i < |related'| ==> related'[i] == Lookup(stocks, log'[i + 1])
  {
    if head > 0 {
      assert log[head] != log[0];
    }
  }

  /** Two repeat-free lists with no element in common concatenate to a repeat-free list. */
  lemma DistinctAppend<T>(a: seq<T>, b: seq<T>)
    requires Distinct(a) && Distinct(b) && forall x :: x in b ==> x !in a
    ensures Distinct(a + b)
  {
    forall i, j | 0 <= i < j < |a + b|
      ensures (a + b)[i] != (a + b)[j]
    {
      if i < |a| && |a| <= j {
        assert (a + b)[j] == b[j - |a|] && b[j - |a|] in b;
        assert (a + b)[i] == a[i] && a[i] in a;
      }
    }
  }

  /** Every symbol of the graph: those with an edge list and every edge target. */
  ghost function Vertices(adjacencyList: map<string, seq<Edge>>): set<string> {
    adjacencyList.Keys + set s, i | s in adjacencyList && 0 <= i < |adjacencyList[s]| :: adjacencyList[s][i].to
  }

  /** The stock filed under each symbol of a list, None where there is none. */
  function Lookups(stocks: map<string, StockValue>, symbols: seq<string>): (r: seq<Option<StockValue>>)
    ensures |r| == |symbols| && forall i :: 0 <= i < |symbols| ==> r[i] == Lookup(stocks, symbols[i])
  {
    seq(|symbols|, i requires 0 <= i < |symbols| => Lookup(stocks, symbols[i]))
  }

  /** Looking up the symbols of a + b after a prefix: the lookups of a, then those of b. */
  lemma LookupsAppend(stocks: map<string, StockValue>, prefix: seq<Option<StockValue>>, a: seq<string>, b: seq<string>)
    ensures prefix + Lookups(stocks, a + b) == prefix + Lookups(stocks, a) + Lookups(stocks, b)
  {
    assert |Lookups(stocks, a + b)| == |Lookups(stocks, a) + Lookups(stocks, b)|;
    assert Lookups(stocks, a + b) == Lookups(stocks, a) + Lookups(stocks, b);
  }

  /** No two stocks of the list carry the same symbol. */
  predicate DistinctSymbols(s: seq<StockValue>) {
    forall i, j :: 0 <= i < j < |s| ==> s[i].symbol != s[j].symbol
  }

  /** The stocks of the given sector among the symbols, in their order (symbols without a stock skipped). */
  ghost function InSector(stocks: map<string, StockValue>, symbols: seq<string>, sector: string): seq<StockValue> {
    if symbols == [] then []
    else
      var rest := InSector(stocks, symbols[..|symbols| - 1], sector);
      var s := symbols[|symbols| - 1];
      if s in stocks && stocks[s].sector == sector then rest + [stocks[s]] else rest
  }

  /**
   * Over repeat-free symbols, the stocks of a sector are exactly the stocks
   * of that sector filed under one of the symbols, each once.
   */
  lemma {:induction false} InSectorMembers(stocks: map<string, StockValue>, symbols: seq<string>, sector: string)
    requires forall s :: s in stocks ==> stocks[s].symbol == s
    requires Distinct(symbols)
    ensures forall x :: x in InSector(stocks, symbols, sector) <==> x.symbol in symbols && x in stocks.Values && x.sector == sector
    ensures DistinctSymbols(InSector(stocks, symbols, sector))
  {
    if symbols != [] {
      var front := symbols[..|symbols| - 1];
      var s := symbols[|symbols| - 1];
      assert symbols == front + [s];
      assert Distinct(front) && s !in front;
      InSectorMembers(stocks, front, sector);
      var rest := InSector(stocks, front, sector);
      if s in stocks && stocks[s].sector == sector {
        var r := rest + [stocks[s]];
        forall a, b | 0 <= a < b < |r|
          ensures r[a].symbol != r[b].symbol
        {
          if b == |rest| {
            assert r[a] == rest[a] && rest[a] in rest;
          }
        }
      }
      forall x | x in stocks.Values && x.symbol == s
        ensures x == stocks[s]
      {
        var k :| k in stocks && stocks[k] == x;
      }
      assert s !in front;
    }
  }

  /** Every symbol in some group. */
  ghost function Covered(groups: seq<seq<string>>): set<string> {
    if groups == [] then {} else var last := groups[|groups| - 1]; Covered(groups[..|groups| - 1]) + set x | x in last
  }

  /** No edge leaves S. */
  ghost predicate ClosedUnder(g: map<string, seq<string>>, S: set<string>) {
    forall x, w {:trigger w in Succ(g, x)} :: x in S && w in Succ(g, x) ==> w in S
  }

  /**
   * A depth-first search from symbol, begun with `visited` marked, has marked
   * V: it found the symbols `found`, symbol first, each once, none marked
   * before and each reachable from symbol, and every edge out of a found
   * symbol other than symbol itself leads to a marked one.
   */
  ghost predicate Explored(g: map<string, seq<string>>, symbol: string, visited: set<string>, V: set<string>, found: seq<string>) {
    && |found| > 0 && found[0] == symbol && Distinct(found)
    && (forall x :: x in V <==> x in visited || x in found)
    && (forall x :: x in found ==> x !in visited)
    && (forall x {:trigger Reachable(g, symbol, x)} :: x in found ==> Reachable(g, symbol, x))
    && (forall x, w {:trigger w in Succ(g, x)} :: x in found && x != symbol && w in Succ(g, x) ==> w in V)
  }

  /** The search from an unmarked successor `to` of symbol, run to completion, extends the search from symbol. */
  lemma Absorb(g: map<string, seq<string>>, symbol: string, visited: set<string>, V: set<string>, found: seq<string>,
               to: string, V': set<string>, more: seq<string>)
    requires Explored(g, symbol, visited, V, found)
    requires to in Succ(g, symbol) && to !in V
    requires Explored(g, to, V, V', more) && forall w :: w in Succ(g, to) ==> w in V'
    ensures Explored(g, symbol, visited, V', found + more)
  {
    forall x | x in more
      ensures Reachable(g, symbol, x)
    {
      ReachableThroughSucc(g, symbol, to, x);
    }
    DistinctAppend(found, more);
    forall x, w | x in found + more && x != symbol && w in Succ(g, x)
      ensures w in V'
    {
      if x in found {
        assert w in V;
      }
    }
  }

  /**
   * A completed search from symbol that began with the closed set V0 marked
   * has found exactly the symbols reachable from symbol outside V0, and
   * leaves the marked set closed.
   */
  lemma NewGroup(g: map<string, seq<string>>, V0: set<string>, V1: set<string>, symbol: string, found: seq<string>)
    requires ClosedUnder(g, V0)
    requires Explored(g, symbol, V0, V1, found) && forall w :: w in Succ(g, symbol) ==> w in V1
    ensures ClosedUnder(g, V1)
    ensures forall x :: x in found <==> Reachable(g, symbol, x) && x !in V0
  {
    assert ClosedUnder(g, V1);
    forall x | Reachable(g, symbol, x) && x !in V0
      ensures x in found
    {
      var k: nat :| x in Reach(g, symbol, k);
      ClosedContainsReach(g, symbol, V1, k);
    }
  }

  /**
   * Appending the group a completed search found from found[0] keeps each
   * group "what its first symbol reaches outside the earlier groups".
   */
  lemma AddGroup(g: map<string, seq<string>>, groups: seq<seq<string>>, found: seq<string>, V0: set<string>, V1: set<string>)
    requires V0 == Covered(groups) && |found| > 0 && forall i :: 0 <= i < |groups| ==> |groups[i]| > 0
    requires forall i, x {:trigger x in groups[i]} {:trigger Reachable(g, groups[i][0], x)} :: 0 <= i < |groups| ==>
               (x in groups[i] <==> Reachable(g, groups[i][0], x) && x !in Covered(groups[..i]))
    requires forall x :: x in found <==> Reachable(g, found[0], x) && x !in V0
    requires forall x :: x in V1 <==> x in V0 || x in found
    ensures V1 == Covered(groups + [found])
    ensures forall i, x {:trigger x in (groups + [found])[i]} {:trigger Reachable(g, (groups + [found])[i][0], x)} :: 0 <= i < |groups + [found]| ==>
              (x in (groups + [found])[i] <==> Reachable(g, (groups + [found])[i][0], x) && x !in Covered((groups + [found])[..i]))
  {
    var groups' := groups + [found];
    assert groups'[..|groups|] == groups;
    forall i | 0 <= i < |groups|
      ensures groups'[i] == groups[i] && groups'[..i] == groups[..i]
    {
    }
  }

  /** Every symbol of g: those with a successor list and every successor. */
  ghost function Symbols(g: map<string, seq<string>>): set<string> {
    g.Keys + set x, i | x in g && 0 <= i < |g[x]| :: g[x][i]
  }

  /**
   * The depth-first search of dfs from symbol with `visited` marked: it
   * marks symbol, then searches from each successor, in list order, that is
   * still unmarked when its turn comes. The result is the marked set after
   * the search and the symbols it marked, in the order it marked them
   * (pre-order); a symbol already marked yields nothing.
   */
  ghost function PreOrder(g: map<string, seq<string>>, visited: set<string>, symbol: string): (r: (set<string>, seq<string>))
    ensures visited <= r.0
    decreases Symbols(g) - visited, 1
  {
    if symbol in visited then (visited, [])
    else PreOrderEach(g, visited + {symbol}, [symbol], Succ(g, symbol))
  }

  /**
   * The loop of dfs over a list of successors: `found` so far, then the
   * search from each target that is unmarked when its turn comes. A list is
   * walked up to its last target before that target is searched.
   */
  ghost function PreOrderEach(g: map<string, seq<string>>, visited: set<string>, found: seq<string>, targets: seq<string>)
    : (r: (set<string>, seq<string>))
    ensures visited <= r.0
    decreases Symbols(g) - visited, 2 * |targets|
  {
    if targets == [] then (visited, found)
    else
      var r := PreOrderEach(g, visited, found, targets[..|targets| - 1]);
      var w := targets[|targets| - 1];
      if w in r.0 then r else var s := PreOrder(g, r.0, w); (s.0, r.1 + s.1)
  }

  /** One turn of the successor loop of dfs: the next target is skipped when marked, searched otherwise. */
  lemma PreOrderEachStep(g: map<string, seq<string>>, visited: set<string>, found: seq<string>, targets: seq<string>,
                         e: nat, r: (set<string>, seq<string>))
    requires e < |targets| && r == PreOrderEach(g, visited, found, targets[..e])
    ensures targets[e] in r.0 ==> PreOrderEach(g, visited, found, targets[..e + 1]) == r
    ensures targets[e] !in r.0 ==> var s := PreOrder(g, r.0, targets[e]);
              PreOrderEach(g, visited, found, targets[..e + 1]) == (s.0, r.1 + s.1)
  {
    assert targets[..e + 1][..e] == targets[..e];
  }

  /** Each group is the pre-order search from its first symbol with the earlier groups marked. */
  ghost predicate PreOrdered(g: map<string, seq<string>>, groups: seq<seq<string>>) {
    forall i {:trigger PreOrder(g, Covered(groups[..i]), groups[i][0])} :: 0 <= i < |groups| ==>
      |groups[i]| > 0 && groups[i] == PreOrder(g, Covered(groups[..i]), groups[i][0]).1
  }

  /** Appending the pre-order search from a fresh symbol keeps every group a pre-order search. */
  lemma PreOrderedAppend(g: map<string, seq<string>>, groups: seq<seq<string>>, found: seq<string>)
    requires PreOrdered(g, groups)
    requires |found| > 0 && found == PreOrder(g, Covered(groups), found[0]).1
    ensures PreOrdered(g, groups + [found])
  {
    var groups' := groups + [found];
    forall i | 0 <= i < |groups'|
      ensures |groups'[i]| > 0 && groups'[i] == PreOrder(g, Covered(groups'[..i]), groups'[i][0]).1
    {
      if i < |groups| {
        assert groups'[i] == groups[i] && groups'[..i] == groups[..i];
        assert groups[i] == PreOrder(g, Covered(groups[..i]), groups[i][0]).1;
      } else {
        assert groups'[..i] == groups;
      }
    }
  }

  /**
   * The search of the graph a -> [b, c], b -> [d] from a visits b's
   * successor d before a's second successor c: pre-order, not level order.
   */
  lemma PreOrderExample()
    ensures PreOrder(map["a" := ["b", "c"], "b" := ["d"]], {}, "a").1 == ["a", "b", "d", "c"]
  {
    var g := map["a" := ["b", "c"], "b" := ["d"]];
    assert "a" != "b" && "a" != "c" && "a" != "d" && "b" != "c" && "b" != "d" && "c" != "d";
    assert Succ(g, "a") == ["b", "c"] && Succ(g, "b") == ["d"] && Succ(g, "c") == [] && Succ(g, "d") == [];
    assert ["b", "c"][..1] == ["b"] && ["b"][..0] == [] && ["d"][..0] == [];
    var d := PreOrder(g, {"a", "b"}, "d");
    assert d == PreOrderEach(g, {"a", "b"} + {"d"}, ["d"], Succ(g, "d"));
    assert {"a", "b"} + {"d"} == {"a", "b", "d"};
    assert d == ({"a", "b", "d"}, ["d"]);
    var b0 := PreOrderEach(g, {"a", "b"}, ["b"], []);
    assert b0 == ({"a", "b"}, ["b"]);
    var b1 := PreOrderEach(g, {"a", "b"}, ["b"], ["d"]);
    assert b1 == (d.0, b0.1 + d.1);
    var b := PreOrder(g, {"a"}, "b");
    assert {"a"} + {"b"} == {"a", "b"};
    assert ["b"] + ["d"] == ["b", "d"] && ["a"] + ["b", "d"] == ["a", "b", "d"] && ["a", "b", "d"] + ["c"] == ["a", "b", "d", "c"];
    assert b == b1 == ({"a", "b", "d"}, ["b", "d"]);
    var c := PreOrder(g, {"a", "b", "d"}, "c");
    assert c == PreOrderEach(g, {"a", "b", "d"} + {"c"}, ["c"], Succ(g, "c"));
    assert {"a", "b", "d"} + {"c"} == {"a", "b", "d", "c"};
    assert c == ({"a", "b", "d", "c"}, ["c"]);
    var a0 := PreOrderEach(g, {"a"}, ["a"], []);
    assert a0 == ({"a"}, ["a"]);
    var a1 := PreOrderEach(g, {"a"}, ["a"], ["b"]);
    assert a1 == (b.0, a0.1 + b.1);
    var a2 := PreOrderEach(g, {"a"}, ["a"], ["b", "c"]);
    assert a2 == (c.0, a1.1 + c.1);
    assert {} + {"a"} == {"a"};
    assert PreOrder(g, {}, "a") == a2;
  }

  /**
   * The clusters found so far: `visited` is exactly the symbols of the
   * groups and no edge leaves it; each cluster is the stocks of its group;
   * each group starts at a stock, has no repeats, and holds what its first
   * symbol reaches outside the earlier groups.
   */
  ghost predicate Clustered(stocks: map<string, StockValue>, g: map<string, seq<string>>, visited: set<string>,
                            clusters: seq<seq<Option<StockValue>>>, groups: seq<seq<string>>) {
    && visited == Covered(groups) && ClosedUnder(g, visited)
    && |clusters| == |groups|
    && (forall i {:trigger clusters[i]} :: 0 <= i < |groups| ==> clusters[i] == Lookups(stocks, groups[i]))
    && (forall i {:trigger groups[i]} :: 0 <= i < |groups| ==> |groups[i]| > 0 && groups[i][0] in stocks)
    && (forall i {:trigger Distinct(groups[i])} :: 0 <= i < |groups| ==> Distinct(groups[i]))
    && (forall i, x {:trigger x in groups[i]} {:trigger Reachable(g, groups[i][0], x)} :: 0 <= i < |groups| ==>
          (x in groups[i] <==> Reachable(g, groups[i][0], x) && x !in Covered(groups[..i])))
  }

  /**
   * The accumulators of getSectorMetrics after the given symbols: one per
   * sector met so far, each a different object, filed under its sector and
   * having added that sector's stocks in order.
   */
  ghost predicate Accumulated(metrics: map<string, SectorMetrics>, stocks: map<string, StockValue>, symbols: seq<string>)
    reads set sector | sector in metrics :: metrics[sector]
  {
    && (forall sector :: sector in metrics <==> InSector(stocks, symbols, sector) != [])
    && (forall sector :: sector in metrics ==>
          metrics[sector].Valid() && metrics[sector].sector == sector && metrics[sector].added == InSector(stocks, symbols, sector))
    && (forall a, b :: a in metrics && b in metrics && a != b ==> metrics[a] != metrics[b])
  }

  /**
   * What getSectorMetrics returns: an accumulator for the sector of every
   * stock and for no other sector, each a different object filed under its
   * sector, valid, and having added exactly that sector's stocks, each once.
   */
  ghost predicate SectorTotals(metrics: map<string, SectorMetrics>, stocks: map<string, StockValue>)
    reads set sector | sector in metrics :: metrics[sector]
  {
    && (forall x :: x in stocks.Values ==> x.sector in metrics)
    && (forall sector :: sector in metrics ==>
          metrics[sector].Valid() && metrics[sector].sector == sector && metrics[sector].added != [])
    && (forall sector, x :: sector in metrics ==> (x in metrics[sector].added <==> x in stocks.Values && x.sector == sector))
    && (forall sector :: sector in metrics ==> DistinctSymbols(metrics[sector].added))
    && (forall a, b :: a in metrics && b in metrics && a != b ==> metrics[a] != metrics[b])
  }

  /** After every symbol of the map, each once, the accumulators hold the sector totals. */
  lemma AccumulatedAll(metrics: map<string, SectorMetrics>, stocks: map<string, StockValue>, symbols: seq<string>)
    requires forall s :: s in stocks ==> stocks[s].symbol == s
    requires Distinct(symbols) && forall x :: x in symbols <==> x in stocks.Keys
    requires Accumulated(metrics, stocks, symbols)
    ensures SectorTotals(metrics, stocks)
  {
    forall sector | sector in metrics
      ensures forall x :: x in metrics[sector].added <==> x in stocks.Values && x.sector == sector
      ensures DistinctSymbols(metrics[sector].added)
    {
      InSectorMembers(stocks, symbols, sector);
    }
    forall x | x in stocks.Values
      ensures x.sector in metrics
    {
      InSectorMembers(stocks, symbols, x.sector);
      assert x in InSector(stocks, symbols, x.sector);
    }
  }

  /**
   * One round of getSectorMetrics: `putIfAbsent(sector, new SectorMetrics(sector))`
   * followed by `addStock` on the accumulator filed under the last symbol's sector.
   */
  method AddToSector(metrics: map<string, SectorMetrics>, stocks: map<string, StockValue>, symbols: seq<string>)
    returns (metrics': map<string, SectorMetrics>)
    requires |symbols| > 0 && symbols[|symbols| - 1] in stocks
    requires Accumulated(metrics, stocks, symbols[..|symbols| - 1])
    modifies set sector | sector in metrics :: metrics[sector]
    ensures Accumulated(metrics', stocks, symbols)
    ensures forall sector :: sector in metrics' ==> (sector in metrics && metrics'[sector] == metrics[sector]) || fresh(metrics'[sector])
  {
    var stock := stocks[symbols[|symbols| - 1]];
    var sector := stock.sector;
    metrics' := metrics;
    if sector !in metrics' {
      var created := new SectorMetrics(sector);
      metrics' := metrics'[sector := created];
    }
    metrics'[sector].AddStock(stock);
  }

  class StockGraph {
    var stocks: map<string, StockValue>
    var adjacencyList: map<string, seq<Edge>>

    /** Every stock has an adjacency list and vice versa, and each stock is filed under its own symbol. */
    ghost predicate Valid()
      reads this
    {
      && stocks.Keys == adjacencyList.Keys
      && forall s :: s in stocks ==> stocks[s].symbol == s
    }

    /** The graph of symbols, edges reduced to their targets. */
    ghost function Graph(): map<string, seq<string>>
      reads this
    {
      Links(adjacencyList)
    }

    /** The number of edges leaving the stock filed under symbol. */
    function Degree(symbol: string): nat
      requires symbol in adjacencyList
      reads this
    {
      |adjacencyList[symbol]|
    }

    /** An empty graph. */
    constructor ()
      ensures Valid() && stocks == map[] && adjacencyList == map[]
    {
      stocks := map[];
      adjacencyList := map[];
    }

    /**
     * Files the stock under its symbol, replacing an earlier stock with that
     * symbol, and gives it an empty edge list unless it has one already.
     */
    method AddStock(stock: StockValue)
      requires Valid()
      modifies this
      ensures Valid()
      ensures stocks == old(stocks)[stock.symbol := stock]
      ensures stock.symbol in old(adjacencyList) ==> adjacencyList == old(adjacencyList)
      ensures stock.symbol !in old(adjacencyList) ==> adjacencyList == old(adjacencyList)[stock.symbol := []]
    {
      stocks := stocks[stock.symbol := stock];
      if stock.symbol !in adjacencyList {
        adjacencyList := adjacencyList[stock.symbol := []];
      }
    }

    /** Appends an edge to the list of `from`, which must have one. */
    method AddEdge(from: string, to: string, weight: real)
      requires from in adjacencyList
      modifies this
      ensures adjacencyList == old(adjacencyList)[from := old(adjacencyList[from]) + [Edge(to, weight)]]
      ensures stocks == old(stocks)
      ensures old(Valid()) ==> Valid()
    {
      adjacencyList := adjacencyList[from := adjacencyList[from] + [Edge(to, weight)]];
    }

    /** The stocks of the given sector, each once, in map order. */
    method GetStocksBySector(sector: string) returns (sectorStocks: seq<StockValue>)
      requires Valid()
      ensures forall x :: x in sectorStocks <==> x in stocks.Values && x.sector == sector
      ensures forall i, j :: 0 <= i < j < |sectorStocks| ==> sectorStocks[i].symbol != sectorStocks[j].symbol
    {
      var symbols := Enumerate(stocks.Keys);
      sectorStocks := [];
      for i := 0 to |symbols|
        invariant forall x :: x in sectorStocks <==> x.symbol in symbols[..i] && x in stocks.Values && x.sector == sector
        invariant forall a, b :: 0 <= a < b < |sectorStocks| ==> sectorStocks[a].symbol != sectorStocks[b].symbol
      {
        var stock := stocks[symbols[i]];
        SliceGrows(symbols, i);
        if stock.sector == sector {
          sectorStocks := sectorStocks + [stock];
        }
      }
      assert symbols[..|symbols|] == symbols;
    }

    /**
     * Per-sector metrics: one fresh accumulator per sector that has a stock,
     * filed under that sector, which has added exactly that sector's stocks,
     * each once.
     */
    method GetSectorMetrics() returns (metrics: map<string, SectorMetrics>)
      requires Valid()
      ensures forall sector :: sector in metrics ==> fresh(metrics[sector])
      ensures SectorTotals(metrics, stocks)
    {
      var symbols := Enumerate(stocks.Keys);
      metrics := map[];
      for i := 0 to |symbols|
        invariant Accumulated(metrics, stocks, symbols[..i])
        invariant forall sector :: sector in metrics ==> fresh(metrics[sector])
      {
        assert symbols[..i + 1][..i] == symbols[..i];
        metrics := AddToSector(metrics, stocks, symbols[..i + 1]);
      }
      assert symbols[..|symbols|] == symbols;
      AccumulatedAll(metrics, stocks, symbols);
    }

    /**
     * The topK stocks with the most outgoing edges (all of them when topK
     * exceeds their number, none when it is not positive), most connected
     * first; no stock left out has more edges than one returned.
     */
    method GetHubStocks(topK: int) returns (hubStocks: seq<StockValue>)
      requires Valid()
      ensures |hubStocks| == PrefixLength(topK, |stocks|)
      ensures forall i :: 0 <= i < |hubStocks| ==>
                hubStocks[i].symbol in adjacencyList && hubStocks[i].symbol in stocks && stocks[hubStocks[i].symbol] == hubStocks[i]
      ensures forall i, j :: 0 <= i < j < |hubStocks| ==> hubStocks[i].symbol != hubStocks[j].symbol
      ensures forall i, j :: 0 <= i < j < |hubStocks| ==> Degree(hubStocks[j].symbol) <= Degree(hubStocks[i].symbol)
      ensures forall s, i :: s in adjacencyList && 0 <= i < |hubStocks| && (forall j :: 0 <= j < |hubStocks| ==> hubStocks[j].symbol != s)
                ==> Degree(s) <= Degree(hubStocks[i].symbol)
    {
      var nodes := Nodes();
      var sorted := SortByConnections(nodes);
      hubStocks := FirstStocks(sorted, topK);
      MostConnected(stocks, adjacencyList, nodes, sorted, hubStocks);
    }

    /** One node per stock, in map order: the stock and the number of its edges. */
    method Nodes() returns (nodes: seq<StockNode>)
      requires Valid()
      ensures NodeList(stocks, adjacencyList, nodes)
    {
      var symbols := Enumerate(adjacencyList.Keys);
      nodes := [];
      for i := 0 to |symbols|
        invariant |nodes| == i
        invariant forall j :: 0 <= j < i ==> nodes[j] == StockNode(stocks[symbols[j]], |adjacencyList[symbols[j]]|)
      {
        var symbol := symbols[i];
        var connections := |adjacencyList[symbol]|;
        nodes := nodes + [StockNode(stocks[symbol], connections)];
      }
      NodesOfSymbols(stocks, adjacencyList, symbols, nodes);
    }

    /**
     * The stocks within maxDepth - 1 edges of symbol, symbol itself excluded,
     * nearest first: the levels 0 .. maxDepth - 1 of a breadth-first search,
     * polled level by level. A symbol reached that has no stock yields None
     * (Java's null). `rel` is the symbol of each entry.
     */
    method FindRelatedStocks(symbol: string, maxDepth: int) returns (related: seq<Option<StockValue>>, ghost rel: seq<string>)
      ensures |related| == |rel| && forall i :: 0 <= i < |rel| ==> related[i] == Lookup(stocks, rel[i])
      ensures Distinct(rel)
      ensures forall x :: x in rel <==> x != symbol && maxDepth >= 1 && x in Reach(Graph(), symbol, maxDepth - 1)
      ensures forall i, j :: 0 <= i < j < |rel| ==> NoFartherThan(Graph(), symbol, rel[i], rel[j])
      ensures maxDepth >= 1 ==> [symbol] + rel <= SearchLog(Graph(), symbol, |rel| + 1)
    {
      ghost var g := Graph();
      var visited := {symbol};
      // every symbol enqueued so far, in order; the queue is log[head..]
      var log := [symbol];
      var head: nat := 0;
      ghost var lv: seq<nat> := [0];
      var depth: nat := 0;
      related := [];
      Begin(g, symbol);
      while head < |log| && depth < maxDepth
        invariant AtLevel(g, symbol, log, lv, head, depth) && g == Links(adjacencyList)
        invariant Tracked(stocks, g, symbol, visited, log, head, related)
        invariant depth <= maxDepth || depth == 0
        invariant depth > 0 ==> head > 0
        decreases maxDepth - depth
      {
        visited, log, head, related, lv := PollLevel(symbol, visited, log, head, related, g, lv, depth);
        depth := depth + 1;
      }
      PolledWithin(g, symbol, log, lv, head, depth, maxDepth);
      InLevelOrder(g, symbol, log, lv);
      rel := if head == 0 then [] else log[1..head];
      RelatedSymbols(symbol, log, head, rel);
      if head > 0 {
        assert [symbol] + rel == log[..head];
      }
    }

    /**
     * One pass of the outer loop of findRelatedStocks: polls the whole
     * current level, records each polled symbol other than the start, and
     * enqueues the next level.
     */
    method PollLevel(symbol: string, visited: set<string>, log: seq<string>, head: nat,
                     related: seq<Option<StockValue>>, ghost g: map<string, seq<string>>, ghost lv: seq<nat>, ghost depth: nat)
      returns (visited': set<string>, log': seq<string>, head': nat, related': seq<Option<StockValue>>, ghost lv': seq<nat>)
      requires AtLevel(g, symbol, log, lv, head, depth) && g == Links(adjacencyList) && head < |log|
      requires Tracked(stocks, g, symbol, visited, log, head, related)
      ensures AtLevel(g, symbol, log', lv', head', depth + 1)
      ensures Tracked(stocks, g, symbol, visited', log', head', related') && head < head'
    {
      visited', log', head', related', lv' := visited, log, head, related, lv;
      var levelSize := |log| - head;
      StartLevel(g, symbol, log, lv, head, depth);
      for i := 0 to levelSize
        invariant head' == head + i && InLevel(g, symbol, log', lv', head', |log|, depth)
        invariant Tracked(stocks, g, symbol, visited', log', head', related')
      {
        visited', log', related', lv' := PollOne(symbol, visited', log', head', related', g, lv', |log|, depth);
        head' := head' + 1;
      }
      EndLevel(g, symbol, log', lv', head', depth);
    }

    /**
     * One pass of the level loop of findRelatedStocks: polls the head of the
     * queue, records it unless it is the start, and enqueues its unvisited
     * neighbours one level further out.
     */
    method PollOne(symbol: string, visited: set<string>, log: seq<string>, head: nat,
                   related: seq<Option<StockValue>>, ghost g: map<string, seq<string>>, ghost lv: seq<nat>,
                   ghost m: nat, ghost depth: nat)
      returns (visited': set<string>, log': seq<string>, related': seq<Option<StockValue>>, ghost lv': seq<nat>)
      requires InLevel(g, symbol, log, lv, head, m, depth) && g == Links(adjacencyList) && head < m
      requires Tracked(stocks, g, symbol, visited, log, head, related)
      ensures InLevel(g, symbol, log', lv', head + 1, m, depth)
      ensures Tracked(stocks, g, symbol, visited', log', head + 1, related')
    {
      Poll(g, symbol, log, lv, head);
      var current := log[head];
      related' := related;
      if current != symbol {
        related' := related' + [Lookup(stocks, current)];
      }
      visited', log', lv' := Neighbours(current, visited, log, head + 1, g, symbol, lv);
      Visited(g, symbol, log', lv', head + 1);
      TrackPoll(stocks, g, symbol, visited, log, head, related, visited', log', related');
      PolledOne(g, symbol, log, lv, head, m, depth, log', lv');
    }

    /**
     * The inner loop of findRelatedStocks: enqueues and marks visited, in
     * list order, every target of an edge of current, the symbol just
     * polled, that is not visited yet.
     */
    method Neighbours(current: string, visited: set<string>, log: seq<string>, head: nat,
                      ghost g: map<string, seq<string>>, ghost start: string, ghost lv: seq<nat>)
      returns (visited': set<string>, log': seq<string>, ghost lv': seq<nat>)
      requires g == Links(adjacencyList)
      requires Visiting(g, start, log, lv, head, 0) && current == log[head - 1]
      requires forall x :: x in visited <==> x in log
      ensures Visiting(g, start, log', lv', head, |Succ(g, current)|)
      ensures log' == Enqueue(log, Succ(g, current))
      ensures forall x :: x in visited' <==> x in log'
      ensures |log| <= |log'| && forall j :: 0 <= j < |log| ==> log'[j] == log[j] && lv'[j] == lv[j]
      ensures forall j :: |log| <= j < |log'| ==> lv'[j] == lv[head - 1] + 1
    {
      visited', log', lv' := visited, log, lv;
      var edges := Lookup(adjacencyList, current);
      if edges.Some? {
        var list := edges.value;
        assert Succ(g, current) == Targets(list);
        for e := 0 to |list|
          invariant Visiting(g, start, log', lv', head, e) && log'[head - 1] == current
          invariant forall x :: x in visited' <==> x in log'
          invariant |log| <= |log'| && forall j :: 0 <= j < |log| ==> log'[j] == log[j] && lv'[j] == lv[j]
          invariant forall j :: |log| <= j < |log'| ==> lv'[j] == lv[head - 1] + 1
          invariant log' == Enqueue(log, Succ(g, current)[..e])
        {
          var w := list[e].to;
          assert w == Succ(g, current)[e];
          assert Succ(g, current)[..e + 1][..e] == Succ(g, current)[..e];
          if w !in visited' {
            Discover(g, start, log', lv', head, e);
            visited' := visited' + {w};
            lv' := lv' + [lv'[head - 1] + 1];
            log' := log' + [w];
          } else {
            Skip(g, start, log', lv', head, e);
          }
        }
        assert Succ(g, current)[..|list|] == Succ(g, current);
      } else {
        assert Succ(g, current) == [];
      }
    }

    /**
     * The clusters of the graph, in map order of their first symbol: each
     * stock not yet in a cluster starts a depth-first search whose cluster
     * is every symbol reachable from it that no earlier cluster holds. A
     * symbol without a stock yields None (Java's null). `groups` is the
     * symbol of each entry.
     */
    method FindStockClusters() returns (clusters: seq<seq<Option<StockValue>>>, ghost groups: seq<seq<string>>)
      requires Valid()
      ensures |clusters| == |groups| && forall i :: 0 <= i < |groups| ==> clusters[i] == Lookups(stocks, groups[i])
      ensures forall i :: 0 <= i < |groups| ==> |groups[i]| > 0 && groups[i][0] in stocks && Distinct(groups[i])
      ensures forall i, x {:trigger x in groups[i]} {:trigger Reachable(Graph(), groups[i][0], x)} :: 0 <= i < |groups| ==>
                (x in groups[i] <==> Reachable(Graph(), groups[i][0], x) && x !in Covered(groups[..i]))
      ensures forall s :: s in stocks ==> s in Covered(groups)
      ensures PreOrdered(Graph(), groups)
    {
      var symbols := Enumerate(stocks.Keys);
      clusters, groups := ClusterEach(symbols);
    }

    /** The loop of findStockClusters over the stocks' symbols, in the given order. */
    method ClusterEach(symbols: seq<string>) returns (clusters: seq<seq<Option<StockValue>>>, ghost groups: seq<seq<string>>)
      requires forall j :: 0 <= j < |symbols| ==> symbols[j] in stocks && symbols[j] in adjacencyList
      ensures Clustered(stocks, Graph(), Covered(groups), clusters, groups) && PreOrdered(Graph(), groups)
      ensures forall j :: 0 <= j < |symbols| ==> symbols[j] in Covered(groups)
    {
      ghost var g := Graph();
      var visited: set<string> := {};
      clusters, groups := [], [];
      for k := 0 to |symbols|
        invariant Clustered(stocks, g, visited, clusters, groups) && PreOrdered(g, groups)
        invariant forall j :: 0 <= j < k ==> symbols[j] in visited
      {
        var symbol := symbols[k];
        if symbol !in visited {
          visited, clusters, groups := Cluster(symbol, visited, clusters, groups, g);
        }
      }
    }

    /**
     * One round of findStockClusters: the search from an unvisited stock
     * appends its cluster, which is never empty.
     */
    method Cluster(symbol: string, visited: set<string>, clusters: seq<seq<Option<StockValue>>>,
                   ghost groups: seq<seq<string>>, ghost g: map<string, seq<string>>)
      returns (visited': set<string>, clusters': seq<seq<Option<StockValue>>>, ghost groups': seq<seq<string>>)
      requires g == Graph() && symbol in stocks && symbol in adjacencyList && symbol !in visited
      requires Clustered(stocks, g, visited, clusters, groups) && PreOrdered(g, groups)
      ensures Clustered(stocks, g, visited', clusters', groups') && PreOrdered(g, groups')
      ensures visited <= visited' && symbol in visited'
      ensures |groups'| == |groups| + 1 && groups'[|groups|][0] == symbol && |clusters'[|groups|]| > 0
    {
      var cluster: seq<Option<StockValue>>;
      ghost var found: seq<string>;
      visited', cluster, found := Dfs(symbol, visited, []);
      NewGroup(g, visited, visited', symbol, found);
      AddGroup(g, groups, found, visited, visited');
      PreOrderedAppend(g, groups, found);
      clusters' := clusters + [cluster];
      groups' := groups + [found];
    }

    /**
     * dfs: marks symbol visited, appends its stock to the cluster, and
     * recurses, in list order, into every edge target not yet visited.
     * `found` is the symbols it visited, in the order it visited them.
     */
    method Dfs(symbol: string, visited: set<string>, cluster: seq<Option<StockValue>>)
      returns (visited': set<string>, cluster': seq<Option<StockValue>>, ghost found: seq<string>)
      requires symbol in Vertices(adjacencyList) && symbol !in visited
      ensures Explored(Graph(), symbol, visited, visited', found)
      ensures (visited', found) == PreOrder(Graph(), visited, symbol)
      ensures forall w :: w in Succ(Graph(), symbol) ==> w in visited'
      ensures cluster' == cluster + Lookups(stocks, found)
      decreases Vertices(adjacencyList) - visited
    {
      ghost var g := Graph();
      visited' := visited + {symbol};
      cluster' := cluster + [Lookup(stocks, symbol)];
      found := [symbol];
      assert Reach(g, symbol, 0) == [symbol];
      var edges := Lookup(adjacencyList, symbol);
      if edges.Some? {
        var list := edges.value;
        assert Succ(g, symbol) == Targets(list);
        for e := 0 to |list|
          invariant Explored(g, symbol, visited, visited', found)
          invariant forall j :: 0 <= j < e ==> list[j].to in visited'
          invariant cluster' == cluster + Lookups(stocks, found)
          invariant (visited', found) == PreOrderEach(g, visited + {symbol}, [symbol], Succ(g, symbol)[..e])
        {
          PreOrderEachStep(g, visited + {symbol}, [symbol], Succ(g, symbol), e, (visited', found));
          var to := list[e].to;
          if to !in visited' {
            assert to in Vertices(adjacencyList) by {
              assert adjacencyList[symbol][e].to == to;
            }
            var v2, c2, f2 := Dfs(to, visited', cluster');
            Absorb(g, symbol, visited, visited', found, to, v2, f2);
            LookupsAppend(stocks, cluster, found, f2);
            assert visited' <= v2;
            visited', cluster', found := v2, c2, found + f2;
          }
        }
        assert Succ(g, symbol)[..|list|] == Succ(g, symbol);
      } else {
        assert Succ(g, symbol) == [];
      }
    }

    /** Every stock, each once, in map order (a snapshot of `stocks.values()`). */
    method GetAllStocks() returns (all: seq<StockValue>)
      requires Valid()
      ensures forall x :: x in all <==> x in stocks.Values
      ensures |all| == |stocks| && forall i, j :: 0 <= i < j < |all| ==> all[i].symbol != all[j].symbol
    {
      var symbols := Enumerate(stocks.Keys);
      var m := stocks;
      all := seq(|symbols|, i requires 0 <= i < |symbols| => m[symbols[i]]);
      forall x | x in stocks.Values
        ensures x in all
      {
        var k :| k in stocks && stocks[k] == x;
        var i :| 0 <= i < |symbols| && symbols[i] == k;
        assert all[i] == x;
      }
    }

    /** The stock filed under the symbol, if any; it carries that symbol. */
    function GetStock(symbol: string): (r: Option<StockValue>)
      reads this
      ensures r.Some? <==> symbol in stocks
      ensures Valid() && r.Some? ==> r.value.symbol == symbol && r.value in stocks.Values
    {
      Lookup(stocks, symbol)
    }
  }

  lemma SliceGrows<T>(s: seq<T>, i: int)
    requires 0 <= i < |s|
    ensures s[..i + 1] == s[..i] + [s[i]]
  {
  }
}
