/**
 * The analysis service (service/StockAnalysisService.java): the façade that
 * keeps the stock table, mirrors every upsert into the stock graph and into
 * four max-heaps (one per ranking criterion), and answers rankings, sorted
 * listings, the market summary and text search.
 *
 * The table is the sequence `stockDatabase`. The `heaps` map, which is
 * filled once by the constructor and never changed afterwards, is four
 * constant fields, one per criterion; `ParseCriterion` is its key lookup
 * and `HeapOf` its value lookup. The ghost sequence `inserted` records
 * every stock passed to `AddOrUpdateStock` since the last `ClearData`: each
 * heap holds exactly those entries, repeats included.
 */
module Service {
  import opened Wrappers
  import opened Orders
  import opened Stocks
  import opened Sorting
  import opened Sectors
  import opened HeapOrder
  import opened StockHeaps
  import opened StockGraphs
  import opened Reachability
  import opened BreadthFirst

  // ---------------------------------------------------------------------
  // Ranking criteria

  function PercentKey(x: StockValue): real { x.priceChangePercent }
  function VolumeKey(x: StockValue): real { x.volume as real }
  function VolatilityKey(x: StockValue): real { x.volatility }
  function PriceKey(x: StockValue): real { x.currentPrice }

  /** The four ranking criteria, each with its own heap. */
  datatype Criterion = PriceChange | Volume | Volatility | Price
  {
    /** The key the criterion ranks by: the heap's comparator and the sort key. */
    function Key(): StockValue -> real {
      match this
      case PriceChange => PercentKey
      case Volume => VolumeKey
      case Volatility => VolatilityKey
      case Price => PriceKey
    }
  }

  /** The criterion a name stands for: one of the four keys of the `heaps` map, None for any other name. */
  function ParseCriterion(name: string): (r: Option<Criterion>)
    ensures r == Some(PriceChange) <==> name == "priceChange"
    ensures r == Some(Volume) <==> name == "volume"
    ensures r == Some(Volatility) <==> name == "volatility"
    ensures r == Some(Price) <==> name == "price"
  {
    if name == "priceChange" then Some(PriceChange)
    else if name == "volume" then Some(Volume)
    else if name == "volatility" then Some(Volatility)
    else if name == "price" then Some(Price)
    else None
  }

  // ---------------------------------------------------------------------
  // String order and case folding

  /** `a.compareTo(b) <= 0` for strings: a is a prefix of b or is smaller at the first difference. */
  predicate LexLe(a: string, b: string) {
    a == [] || (b != [] && (a[0] < b[0] || (a[0] == b[0] && LexLe(a[1..], b[1..]))))
  }

  lemma {:induction false} LexLeTotal(a: string, b: string)
    ensures LexLe(a, b) || LexLe(b, a)
  {
    if a != [] && b != [] && a[0] == b[0] {
      LexLeTotal(a[1..], b[1..]);
    }
  }

  lemma {:induction false} LexLeTransitive(a: string, b: string, c: string)
    requires LexLe(a, b) && LexLe(b, c)
    ensures LexLe(a, c)
  {
    if a != [] && b != [] && c != [] && a[0] == b[0] && b[0] == c[0] {
      LexLeTransitive(a[1..], b[1..], c[1..]);
    }
  }

  /** Two strings each at most the other are equal: the order is total on symbols. */
  lemma {:induction false} LexLeAntisymmetric(a: string, b: string)
    requires LexLe(a, b) && LexLe(b, a)
    ensures a == b
  {
    if a != [] && b != [] {
      LexLeAntisymmetric(a[1..], b[1..]);
      assert a == [a[0]] + a[1..] && b == [b[0]] + b[1..];
    }
  }

  /** The default comparator of getAllStocksSorted: by symbol, ascending. */
  function BySymbol(): (StockValue, StockValue) -> bool {
    (a: StockValue, b: StockValue) => LexLe(a.symbol, b.symbol)
  }

  /** The comparator getAllStocksSorted sorts with: key descending for a known criterion, symbol ascending otherwise. */
  function SortOrder(criterion: string): (StockValue, StockValue) -> bool {
    match ParseCriterion(criterion)
    case Some(c) => Reversed(ByKey(c.Key()))
    case None => BySymbol()
  }

  lemma SortOrderIsTotalPreorder(criterion: string)
    ensures TotalPreorder(SortOrder(criterion))
  {
    match ParseCriterion(criterion)
    case Some(c) =>
      ByKeyIsTotalPreorder(c.Key());
      ReversedIsTotalPreorder(ByKey(c.Key()));
    case None =>
      forall a: StockValue, b: StockValue
        ensures LexLe(a.symbol, b.symbol) || LexLe(b.symbol, a.symbol)
      {
        LexLeTotal(a.symbol, b.symbol);
      }
      forall a: StockValue, b: StockValue, c: StockValue | LexLe(a.symbol, b.symbol) && LexLe(b.symbol, c.symbol)
        ensures LexLe(a.symbol, c.symbol)
      {
        LexLeTransitive(a.symbol, b.symbol, c.symbol);
      }
  }

  /** `Character.toLowerCase` on ASCII letters; every other character is kept. */
  function LowerChar(c: char): (r: char)
    ensures 'A' <= c <= 'Z' ==> 'a' <= r <= 'z'
    ensures !('A' <= c <= 'Z') ==> r == c
  {
    if 'A' <= c <= 'Z' then (c as int + 32) as char else c
  }

  /** `String.toLowerCase`, character by character. */
  function ToLower(s: string): (r: string)
    ensures |r| == |s| && forall i :: 0 <= i < |s| ==> r[i] == LowerChar(s[i])
  {
    seq(|s|, i requires 0 <= i < |s| => LowerChar(s[i]))
  }

  /** Lower-casing twice is lower-casing once. */
  lemma ToLowerIdempotent(s: string)
    ensures ToLower(ToLower(s)) == ToLower(s)
  {
  }

  /** `s.contains(q)`: q occurs in s at some position. */
  predicate Contains(s: string, q: string) {
    exists i :: 0 <= i <= |s| - |q| && OccursAt(s, q, i)
  }

  predicate OccursAt(s: string, q: string, i: int)
    requires 0 <= i <= |s| - |q|
  {
    s[i..i + |q|] == q
  }

  /** The search filter: the lower-cased symbol or name contains the lower-cased query. */
  predicate Matches(x: StockValue, lowerQuery: string) {
    Contains(ToLower(x.symbol), lowerQuery) || Contains(ToLower(x.name), lowerQuery)
  }

  /** a is b with some elements left out, the rest in their order. */
  ghost predicate Subsequence<T>(a: seq<T>, b: seq<T>)
    decreases |b|
  {
    a == [] || (b != [] && ((a[0] == b[0] && Subsequence(a[1..], b[1..])) || Subsequence(a, b[1..])))
  }

  lemma {:induction false} FilterSubsequence<T(!new)>(s: seq<T>, p: T -> bool)
    ensures Subsequence(Filter(s, p), s)
  {
    if s != [] {
      FilterSubsequence(s[1..], p);
    }
  }

  // ---------------------------------------------------------------------
  // The upsert of addOrUpdateStock on the table

  /** The `removeIf` filter: entries with another symbol stay. */
  function OtherSymbol(symbol: string): StockValue -> bool {
    (x: StockValue) => x.symbol != symbol
  }

  /** The table after upserting the stock: the entries with other symbols, in order, then the stock. */
  function Upserted(db: seq<StockValue>, stock: StockValue): seq<StockValue> {
    Filter(db, OtherSymbol(stock.symbol)) + [stock]
  }

  /**
   * After an upsert the stock is the last entry and the only one with its
   * symbol; the others are the old entries with other symbols, in their
   * old order; a table without repeated symbols keeps none.
   */
  lemma UpsertedLast(db: seq<StockValue>, stock: StockValue)
    ensures var r := Upserted(db, stock);
      && r[|r| - 1] == stock
      && (forall i :: 0 <= i < |r| - 1 ==> r[i].symbol != stock.symbol)
      && (forall x :: x in r[..|r| - 1] <==> x in db && x.symbol != stock.symbol)
      && Subsequence(r[..|r| - 1], db)
      && (DistinctSymbols(db) ==> DistinctSymbols(r))
  {
    var kept := Filter(db, OtherSymbol(stock.symbol));
    var r := Upserted(db, stock);
    assert r[..|r| - 1] == kept;
    FilterMembers(db, OtherSymbol(stock.symbol));
    FilterSubsequence(db, OtherSymbol(stock.symbol));
    forall i | 0 <= i < |r| - 1
      ensures r[i].symbol != stock.symbol
    {
      assert r[i] == kept[i] && kept[i] in kept;
    }
    if DistinctSymbols(db) {
      FilterDistinctSymbols(db, OtherSymbol(stock.symbol));
    }
  }

  /** Filtering keeps symbols distinct. */
  lemma {:induction false} FilterDistinctSymbols(s: seq<StockValue>, p: StockValue -> bool)
    requires DistinctSymbols(s)
    ensures DistinctSymbols(Filter(s, p))
  {
    if s != [] {
      assert DistinctSymbols(s[1..]) by {
        forall i, j | 0 <= i < j < |s[1..]|
          ensures s[1..][i].symbol != s[1..][j].symbol
        {
          assert s[1..][i] == s[i + 1] && s[1..][j] == s[j + 1];
        }
      }
      FilterDistinctSymbols(s[1..], p);
      if p(s[0]) {
        var rest := Filter(s[1..], p);
        FilterMembers(s[1..], p);
        var r := [s[0]] + rest;
        forall i, j | 0 <= i < j < |r|
          ensures r[i].symbol != r[j].symbol
        {
          if i == 0 {
            assert r[j] == rest[j - 1] && rest[j - 1] in s[1..];
            var k :| 0 <= k < |s[1..]| && s[1..][k] == r[j];
            assert s[k + 1] == r[j];
          }
        }
      }
    }
  }

  /** The table as seen through the graph: the same stocks, each filed under its symbol. */
  lemma UpsertMirrorsGraph(db: seq<StockValue>, stocks: map<string, StockValue>, stock: StockValue)
    requires forall s :: s in stocks ==> stocks[s].symbol == s
    requires forall x :: x in db <==> x in stocks.Values
    ensures forall x :: x in Upserted(db, stock) <==> x in stocks[stock.symbol := stock].Values
  {
    var kept := Filter(db, OtherSymbol(stock.symbol));
    FilterMembers(db, OtherSymbol(stock.symbol));
    var m := stocks[stock.symbol := stock];
    assert Upserted(db, stock) == kept + [stock];
    assert m[stock.symbol] == stock;
    forall x | x in kept
      ensures x in m.Values
    {
      var k :| k in stocks && stocks[k] == x;
      assert m[k] == x;
    }
    forall x | x in m.Values && x != stock
      ensures x in kept
    {
      var k :| k in m && m[k] == x;
      assert k != stock.symbol && stocks[k] == x;
      assert x in stocks.Values;
    }
  }

  // ---------------------------------------------------------------------
  // The market summary

  datatype MarketSummary = MarketSummary(totalStocks: int, avgChange: real, totalVolume: int,
                                         gainers: int, losers: int, unchangedCount: int)

  /** A new MarketSummary: every field zero. */
  const EmptySummary := MarketSummary(0, 0.0, 0, 0, 0, 0)

  function IsGainer(x: StockValue): bool { x.priceChange > 0.0 }
  function IsLoser(x: StockValue): bool { x.priceChange < 0.0 }
  function IsUnchanged(x: StockValue): bool { x.priceChange == 0.0 }

  /** Every stock is exactly one of gainer, loser and unchanged. */
  lemma {:induction false} GainersLosersUnchanged(s: seq<StockValue>)
    ensures |Filter(s, IsGainer)| + |Filter(s, IsLoser)| + |Filter(s, IsUnchanged)| == |s|
  {
    if s != [] {
      GainersLosersUnchanged(s[1..]);
    }
  }

  /** The counters of getMarketSummary's loop after the first i stocks. */
  lemma CountStep(s: seq<StockValue>, i: int)
    requires 0 <= i < |s|
    ensures |Filter(s[..i + 1], IsGainer)| == |Filter(s[..i], IsGainer)| + (if IsGainer(s[i]) then 1 else 0)
    ensures |Filter(s[..i + 1], IsLoser)| == |Filter(s[..i], IsLoser)| + (if IsLoser(s[i]) then 1 else 0)
    ensures TotalVolume(s[..i + 1]) == TotalVolume(s[..i]) + s[i].volume
    ensures TotalPercentChange(s[..i + 1]) == TotalPercentChange(s[..i]) + s[i].priceChangePercent
  {
    assert s[..i + 1] == s[..i] + [s[i]];
    assert s[..i + 1][..i] == s[..i];
    FilterConcat(s[..i], [s[i]], IsGainer);
    FilterConcat(s[..i], [s[i]], IsLoser);
  }

  // ---------------------------------------------------------------------
  // The service

  class StockAnalysisService {
    var stockGraph: StockGraph
    /** The four entries of the `heaps` map, one per criterion; the map itself never changes. */
    const priceChangeHeap: StockMaxHeap
    const volumeHeap: StockMaxHeap
    const volatilityHeap: StockMaxHeap
    const priceHeap: StockMaxHeap
    var stockDatabase: seq<StockValue>
    /** Every stock passed to AddOrUpdateStock since the service was made or last cleared. */
    ghost var inserted: seq<StockValue>

    /** `heaps.get(c)` for a criterion: the heap filed under its name. */
    function HeapOf(c: Criterion): StockMaxHeap {
      match c
      case PriceChange => priceChangeHeap
      case Volume => volumeHeap
      case Volatility => volatilityHeap
      case Price => priceHeap
    }

    /** `heaps.values()` */
    function Heaps(): set<StockMaxHeap> {
      {priceChangeHeap, volumeHeap, volatilityHeap, priceHeap}
    }

    /** The four heaps are different objects. */
    ghost predicate HeapsDistinct() {
      && priceChangeHeap != volumeHeap && priceChangeHeap != volatilityHeap && priceChangeHeap != priceHeap
      && volumeHeap != volatilityHeap && volumeHeap != priceHeap && volatilityHeap != priceHeap
    }

    /** The table has no repeated symbol and holds exactly the graph's stocks. */
    ghost predicate Mirrored()
      reads this`stockDatabase, this`stockGraph, stockGraph
    {
      && stockGraph.Valid()
      && DistinctSymbols(stockDatabase)
      && (forall x :: x in stockDatabase <==> x in stockGraph.stocks.Values)
    }

    /** The four heaps are different objects, each ranks by its criterion's key and holds exactly the stocks of `s`. */
    ghost predicate Ranks(s: seq<StockValue>)
      reads Heaps()
    {
      && HeapsDistinct()
      && priceChangeHeap.Valid() && volumeHeap.Valid() && volatilityHeap.Valid() && priceHeap.Valid()
      && priceChangeHeap.key == PercentKey && volumeHeap.key == VolumeKey
      && volatilityHeap.key == VolatilityKey && priceHeap.key == PriceKey
      && multiset(priceChangeHeap.heap) == multiset(s) && multiset(volumeHeap.heap) == multiset(s)
      && multiset(volatilityHeap.heap) == multiset(s) && multiset(priceHeap.heap) == multiset(s)
    }

    /** The heaps hold every stock ever added since the last clear. */
    ghost predicate Ranked()
      reads this`inserted, Heaps()
    {
      Ranks(inserted)
    }

    ghost predicate Valid()
      reads this, stockGraph, Heaps()
    {
      Mirrored() && Ranked()
    }

    /** An empty table, an empty graph and four empty heaps (initializeHeaps). */
    constructor ()
      ensures Valid() && fresh(stockGraph)
      ensures fresh(priceChangeHeap) && fresh(volumeHeap) && fresh(volatilityHeap) && fresh(priceHeap)
      ensures stockDatabase == [] && inserted == [] && stockGraph.stocks == map[] && stockGraph.adjacencyList == map[]
    {
      stockGraph := new StockGraph();
      priceChangeHeap := new StockMaxHeap(PercentKey);
      volumeHeap := new StockMaxHeap(VolumeKey);
      volatilityHeap := new StockMaxHeap(VolatilityKey);
      priceHeap := new StockMaxHeap(PriceKey);
      stockDatabase := [];
      inserted := [];
    }

    /**
     * Replaces the table entry with the stock's symbol (or adds one) as the
     * last entry, files the stock in the graph, and inserts it into every
     * heap, which grows even when the symbol was already there.
     */
    method AddOrUpdateStock(stock: StockValue)
      requires Valid()
      modifies this, stockGraph, Heaps()
      ensures Valid()
      ensures stockDatabase == Upserted(old(stockDatabase), stock)
      ensures inserted == old(inserted) + [stock]
      ensures stockGraph == old(stockGraph)
      ensures stockGraph.stocks == old(stockGraph.stocks)[stock.symbol := stock]
      ensures stock.symbol in old(stockGraph.adjacencyList) ==> stockGraph.adjacencyList == old(stockGraph.adjacencyList)
      ensures stock.symbol !in old(stockGraph.adjacencyList) ==>
                stockGraph.adjacencyList == old(stockGraph.adjacencyList)[stock.symbol := []]
    {
      UpsertTable(stock);
      InsertEverywhere(stock, inserted);
      inserted := inserted + [stock];
    }

    /** Replaces or appends the table entry and files the stock in the graph. */
    method UpsertTable(stock: StockValue)
      requires Mirrored()
      modifies this`stockDatabase, stockGraph
      ensures Mirrored()
      ensures stockDatabase == Upserted(old(stockDatabase), stock)
      ensures stockGraph.stocks == old(stockGraph.stocks)[stock.symbol := stock]
      ensures stock.symbol in old(stockGraph.adjacencyList) ==> stockGraph.adjacencyList == old(stockGraph.adjacencyList)
      ensures stock.symbol !in old(stockGraph.adjacencyList) ==>
                stockGraph.adjacencyList == old(stockGraph.adjacencyList)[stock.symbol := []]
    {
      UpsertMirrorsGraph(stockDatabase, stockGraph.stocks, stock);
      UpsertedLast(stockDatabase, stock);
      stockDatabase := Filter(stockDatabase, OtherSymbol(stock.symbol)) + [stock];
      stockGraph.AddStock(stock);
    }

    /** Inserts the stock into each of the four heaps. */
    method InsertEverywhere(stock: StockValue, ghost s: seq<StockValue>)
      requires Ranks(s)
      modifies Heaps()
      ensures Ranks(s + [stock])
    {
      priceChangeHeap.Insert(stock);
      volumeHeap.Insert(stock);
      volatilityHeap.Insert(stock);
      priceHeap.Insert(stock);
    }

    /**
     * The first min(k, size) slots of the criterion's heap, highest key
     * first; none for a criterion without a heap.
     */
    method GetTopStocks(criterion: string, k: int) returns (top: seq<StockValue>)
      requires Ranked()
      ensures ParseCriterion(criterion) == None ==> top == []
      ensures ParseCriterion(criterion).Some? ==>
                var key := ParseCriterion(criterion).value.Key();
                && |top| == PrefixLength(k, |inserted|)
                && multiset(top) <= multiset(inserted)
                && (forall i, j :: 0 <= i < j < |top| ==> key(top[j]) <= key(top[i]))
                && (top != [] ==> forall x :: x in inserted ==> key(x) <= key(top[0]))
    {
      var c := ParseCriterion(criterion);
      if c.None? {
        return [];
      }
      var h := HeapOf(c.value);
      assert h.key == c.value.Key() && h.Valid() && multiset(h.heap) == multiset(inserted);
      top := h.GetTopK(k);
      TopOfHeldStocks(h.heap, h.key, inserted, k);
    }

    /**
     * A copy of the table sorted by `List.sort`, which is stable: key
     * descending for a known criterion, symbol ascending otherwise. The
     * table is not changed.
     */
    method GetAllStocksSorted(criterion: string) returns (sorted: seq<StockValue>)
      ensures multiset(sorted) == multiset(stockDatabase)
      ensures SortedBy(sorted, SortOrder(criterion))
      ensures forall x :: Filter(sorted, EquivalentTo(SortOrder(criterion), x)) ==
                          Filter(stockDatabase, EquivalentTo(SortOrder(criterion), x))
    {
      var stocks := stockDatabase;
      sorted := MergeSort(stocks, SortOrder(criterion));
      SortOrderIsTotalPreorder(criterion);
      MergeSortSorted(stocks, SortOrder(criterion));
      forall x
        ensures Filter(sorted, EquivalentTo(SortOrder(criterion), x)) == Filter(stocks, EquivalentTo(SortOrder(criterion), x))
      {
        MergeSortStable(stocks, SortOrder(criterion), x);
      }
    }

    /** The table's stocks of the given sector, each once (from the graph). */
    method GetStocksBySector(sector: string) returns (sectorStocks: seq<StockValue>)
      requires Mirrored()
      ensures forall x :: x in sectorStocks <==> x in stockDatabase && x.sector == sector
      ensures DistinctSymbols(sectorStocks)
    {
      sectorStocks := stockGraph.GetStocksBySector(sector);
    }

    /** Per-sector accumulators over the table's stocks (from the graph). */
    method GetSectorPerformance() returns (metrics: map<string, SectorMetrics>)
      requires Mirrored()
      ensures forall sector :: sector in metrics ==> fresh(metrics[sector])
      ensures SectorTotals(metrics, stockGraph.stocks)
    {
      metrics := stockGraph.GetSectorMetrics();
    }

    /** The graph's related stocks: those within depth - 1 edges of the symbol, nearest first (from the graph). */
    method FindRelatedStocks(symbol: string, depth: int) returns (related: seq<Option<StockValue>>, ghost rel: seq<string>)
      ensures |related| == |rel| && forall i :: 0 <= i < |rel| ==> related[i] == Lookup(stockGraph.stocks, rel[i])
      ensures Distinct(rel)
      ensures forall x :: x in rel <==> x != symbol && depth >= 1 && x in Reach(stockGraph.Graph(), symbol, depth - 1)
      ensures forall i, j :: 0 <= i < j < |rel| ==> NoFartherThan(stockGraph.Graph(), symbol, rel[i], rel[j])
      ensures depth >= 1 ==> [symbol] + rel <= SearchLog(stockGraph.Graph(), symbol, |rel| + 1)
    {
      related, rel := stockGraph.FindRelatedStocks(symbol, depth);
    }

    /**
     * The summary of the table: all zeros when it is empty; otherwise its
     * size, average percentage change, total volume, and the numbers of
     * gainers, losers and unchanged stocks (by price change).
     */
    method GetMarketSummary() returns (summary: MarketSummary)
      ensures stockDatabase == [] ==> summary == EmptySummary
      ensures stockDatabase != [] ==>
                && summary.totalStocks == |stockDatabase|
                && summary.avgChange == TotalPercentChange(stockDatabase) / |stockDatabase| as real
                && summary.totalVolume == TotalVolume(stockDatabase)
                && summary.gainers == |Filter(stockDatabase, IsGainer)|
                && summary.losers == |Filter(stockDatabase, IsLoser)|
                && summary.unchangedCount == |Filter(stockDatabase, IsUnchanged)|
      ensures summary.gainers + summary.losers + summary.unchangedCount == summary.totalStocks
    {
      if stockDatabase == [] {
        return EmptySummary;
      }
      var totalChange := 0.0;
      var totalVolume := 0;
      var gainers := 0;
      var losers := 0;
      for i := 0 to |stockDatabase|
        invariant totalChange == TotalPercentChange(stockDatabase[..i])
        invariant totalVolume == TotalVolume(stockDatabase[..i])
        invariant gainers == |Filter(stockDatabase[..i], IsGainer)|
        invariant losers == |Filter(stockDatabase[..i], IsLoser)|
      {
        var stock := stockDatabase[i];
        CountStep(stockDatabase, i);
        totalChange := totalChange + stock.priceChangePercent;
        totalVolume := totalVolume + stock.volume;
        if stock.priceChange > 0.0 {
          gainers := gainers + 1;
        } else if stock.priceChange < 0.0 {
          losers := losers + 1;
        }
      }
      assert stockDatabase[..|stockDatabase|] == stockDatabase;
      GainersLosersUnchanged(stockDatabase);
      var n := |stockDatabase|;
      summary := MarketSummary(n, totalChange / n as real, totalVolume, gainers, losers, n - gainers - losers);
    }

    /**
     * The table's stocks, in table order, whose lower-cased symbol or name
     * contains the lower-cased query.
     */
    function SearchStocks(query: string): (found: seq<StockValue>)
      reads this
      ensures forall x :: x in found <==> x in stockDatabase && Matches(x, ToLower(query))
      ensures Subsequence(found, stockDatabase)
    {
      var lowerQuery := ToLower(query);
      var p := (x: StockValue) => Matches(x, lowerQuery);
      FilterMembers(stockDatabase, p);
      FilterSubsequence(stockDatabase, p);
      Filter(stockDatabase, p)
    }

    /** A copy of the table, in table order: exactly the graph's stocks, no symbol twice. */
    method GetAllStocks() returns (all: seq<StockValue>)
      requires Mirrored()
      ensures all == stockDatabase
      ensures forall x :: x in all <==> x in stockGraph.stocks.Values
      ensures DistinctSymbols(all)
    {
      all := stockDatabase;
    }

    /** Empties the table and every heap and replaces the graph by an empty one. */
    method ClearData()
      requires Valid()
      modifies this, Heaps()
      ensures Valid() && fresh(stockGraph)
      ensures stockDatabase == [] && inserted == []
      ensures priceChangeHeap.heap == [] && volumeHeap.heap == [] && volatilityHeap.heap == [] && priceHeap.heap == []
      ensures stockGraph.stocks == map[] && stockGraph.adjacencyList == map[]
    {
      stockDatabase := [];
      priceChangeHeap.Clear();
      volumeHeap.Clear();
      volatilityHeap.Clear();
      priceHeap.Clear();
      stockGraph := new StockGraph();
      inserted := [];
    }
  }

  /**
   * `getTopK` on a heap that holds the stocks of `s`: min(k, |s|) of them,
   * keys never increasing, the first holding the largest key of `s`.
   */
  lemma TopOfHeldStocks(h: seq<StockValue>, key: StockValue -> real, s: seq<StockValue>, k: int)
    requires HeapOrdered(h, key, |h|) && multiset(h) == multiset(s)
    ensures |TopKOf(h, key, k)| == PrefixLength(k, |s|)
    ensures multiset(TopKOf(h, key, k)) <= multiset(s)
    ensures forall i, j :: 0 <= i < j < |TopKOf(h, key, k)| ==> key(TopKOf(h, key, k)[j]) <= key(TopKOf(h, key, k)[i])
    ensures TopKOf(h, key, k) != [] ==> forall x :: x in s ==> key(x) <= key(TopKOf(h, key, k)[0])
  {
    assert |h| == |s| by {
      assert |multiset(h)| == |multiset(s)|;
    }
    TopKNonIncreasing(h, key, k);
    var m := PrefixLength(k, |h|);
    assert h == h[..m] + h[m..];
    if TopKOf(h, key, k) != [] {
      TopKStartsWithMax(h, key, k);
      forall x | x in s
        ensures key(x) <= key(TopKOf(h, key, k)[0])
      {
        assert x in multiset(h);
      }
    }
  }

  /** Search ignores the case of the query. */
  lemma SearchIgnoresCase(service: StockAnalysisService, query: string)
    ensures service.SearchStocks(query) == service.SearchStocks(ToLower(query))
  {
    ToLowerIdempotent(query);
  }
}
