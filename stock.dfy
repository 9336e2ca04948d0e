/**
 * The stock entity (model/Stock.java).
 *
 * `Stock` is the mutable object with its setters; `StockValue` is the value
 * of a stock's fields at one moment, which is what the table, the heaps and
 * the graph store. Prices and percentages are exact reals, volumes unbounded
 * integers.
 */
module Stocks {

  // ---------------------------------------------------------------------
  // The derived fields, as computed by calculateMetrics

  function PriceChangeOf(currentPrice: real, previousClose: real): real {
    currentPrice - previousClose
  }

  /** `(priceChange / previousClose) * 100`, or 0 when the previous close is 0. */
  function PercentChangeOf(currentPrice: real, previousClose: real): (r: real)
    ensures previousClose == 0.0 ==> r == 0.0
    ensures previousClose != 0.0 ==> r * previousClose == PriceChangeOf(currentPrice, previousClose) * 100.0
    ensures previousClose > 0.0 ==> (r > 0.0 <==> currentPrice > previousClose)
  {
    if previousClose != 0.0 then PriceChangeOf(currentPrice, previousClose) / previousClose * 100.0 else 0.0
  }

  /** `Math.abs` */
  function Abs(x: real): (r: real)
    ensures r >= 0.0 && (r == x || r == -x)
  {
    if x < 0.0 then -x else x
  }

  /** The Java `int` that a mathematical integer wraps to. */
  function ToInt32(x: int): (r: int)
    ensures -0x8000_0000 <= r < 0x8000_0000
    ensures (r - x) % 0x1_0000_0000 == 0
  {
    (x + 0x8000_0000) % 0x1_0000_0000 - 0x8000_0000
  }

  /** `String.hashCode`: h = 31 * h + c over the characters, in 32-bit arithmetic. */
  function StringHash(s: string): (h: int)
    ensures -0x8000_0000 <= h < 0x8000_0000
  {
    if s == [] then 0 else ToInt32(31 * StringHash(s[..|s| - 1]) + s[|s| - 1] as int)
  }

  // ---------------------------------------------------------------------
  // The value of a stock

  datatype StockValue = StockValue(
    symbol: string,
    name: string,
    currentPrice: real,
    previousClose: real,
    priceChange: real,
    priceChangePercent: real,
    volume: int,
    volatility: real,
    sector: string)
  {
    /** The derived fields agree with the two price fields. */
    predicate MetricsConsistent() {
      && priceChange == PriceChangeOf(currentPrice, previousClose)
      && priceChangePercent == PercentChangeOf(currentPrice, previousClose)
      && volatility == Abs(priceChangePercent)
    }

    /** `equals`: two stocks are equal exactly when their symbols are. */
    predicate Equals(other: StockValue) {
      symbol == other.symbol
    }

    /** `hashCode` = `Objects.hash(symbol)` = 31 * 1 + symbol.hashCode(), wrapped to 32 bits. */
    function HashCode(): (h: int)
      ensures -0x8000_0000 <= h < 0x8000_0000
    {
      ToInt32(31 + StringHash(symbol))
    }

    /**
     * `compareTo`: `Double.compare(other.priceChangePercent, priceChangePercent)`,
     * so a larger percentage change sorts first.
     */
    function CompareTo(other: StockValue): (r: int)
      ensures r == -1 || r == 0 || r == 1
      ensures r < 0 <==> priceChangePercent > other.priceChangePercent
      ensures r > 0 <==> priceChangePercent < other.priceChangePercent
    {
      if other.priceChangePercent < priceChangePercent then -1
      else if other.priceChangePercent > priceChangePercent then 1
      else 0
    }
  }

  /** The value the six-argument constructor produces. */
  function NewStockValue(symbol: string, name: string, currentPrice: real, previousClose: real,
                         volume: int, sector: string): (s: StockValue)
    ensures s.MetricsConsistent()
    ensures s.symbol == symbol && s.name == name && s.sector == sector && s.volume == volume
    ensures s.currentPrice == currentPrice && s.previousClose == previousClose
  {
    var change := PriceChangeOf(currentPrice, previousClose);
    var percent := PercentChangeOf(currentPrice, previousClose);
    StockValue(symbol, name, currentPrice, previousClose, change, percent, volume, Abs(percent), sector)
  }

  /** Equality by symbol agrees with the hash code, whatever the prices. */
  lemma EqualStocksHaveEqualHashCodes(a: StockValue, b: StockValue)
    requires a.Equals(b)
    ensures a.HashCode() == b.HashCode()
  {
  }

  /** `equals` is an equivalence relation: reflexive, symmetric and transitive. */
  lemma EqualsIsEquivalence(a: StockValue, b: StockValue, c: StockValue)
    ensures a.Equals(a)
    ensures a.Equals(b) ==> b.Equals(a)
    ensures a.Equals(b) && b.Equals(c) ==> a.Equals(c)
  {
  }

  /** `compareTo` is a valid comparator: antisymmetric in sign and transitive. */
  lemma CompareToIsComparator(a: StockValue, b: StockValue, c: StockValue)
    ensures a.CompareTo(b) == -b.CompareTo(a)
    ensures a.CompareTo(b) <= 0 && b.CompareTo(c) <= 0 ==> a.CompareTo(c) <= 0
    ensures a.CompareTo(b) == 0 <==> a.priceChangePercent == b.priceChangePercent
  {
  }

  // ---------------------------------------------------------------------
  // Sums over a sequence of stocks, accumulated front to back as the
  // source's loops do

  function TotalVolume(s: seq<StockValue>): int {
    if s == [] then 0 else TotalVolume(s[..|s| - 1]) + s[|s| - 1].volume
  }

  function TotalPercentChange(s: seq<StockValue>): real {
    if s == [] then 0.0 else TotalPercentChange(s[..|s| - 1]) + s[|s| - 1].priceChangePercent
  }

  /** The sums are additive over concatenation (they do not depend on the grouping). */
  lemma {:induction false} TotalsConcat(a: seq<StockValue>, b: seq<StockValue>)
    ensures TotalVolume(a + b) == TotalVolume(a) + TotalVolume(b)
    ensures TotalPercentChange(a + b) == TotalPercentChange(a) + TotalPercentChange(b)
    decreases |b|
  {
    if b == [] {
      assert a + b == a;
    } else {
      var b' := b[..|b| - 1];
      assert (a + b)[..|a + b| - 1] == a + b';
      TotalsConcat(a, b');
    }
  }

  // ---------------------------------------------------------------------
  // The mutable entity

  class Stock {
    var symbol: string
    var name: string
    var currentPrice: real
    var previousClose: real
    var priceChange: real
    var priceChangePercent: real
    var volume: int
    var volatility: real
    var sector: string

    /** The current field values. */
    function Value(): StockValue
      reads this
    {
      StockValue(symbol, name, currentPrice, previousClose, priceChange, priceChangePercent,
                 volume, volatility, sector)
    }

    /** The derived fields agree with the prices. */
    ghost predicate Consistent()
      reads this
    {
      Value().MetricsConsistent()
    }

    constructor (symbol: string, name: string, currentPrice: real, previousClose: real,
                 volume: int, sector: string)
      ensures Value() == NewStockValue(symbol, name, currentPrice, previousClose, volume, sector)
      ensures Consistent()
    {
      this.symbol := symbol;
      this.name := name;
      this.currentPrice := currentPrice;
      this.previousClose := previousClose;
      this.volume := volume;
      this.sector := sector;
      new;
      CalculateMetrics();
    }

    /** Rewrites the three derived fields from the two prices. */
    method CalculateMetrics()
      modifies this
      ensures Consistent()
      ensures symbol == old(symbol) && name == old(name) && sector == old(sector) && volume == old(volume)
      ensures currentPrice == old(currentPrice) && previousClose == old(previousClose)
    {
      priceChange := currentPrice - previousClose;
      priceChangePercent := if previousClose != 0.0 then (priceChange / previousClose) * 100.0 else 0.0;
      volatility := Abs(priceChangePercent);
    }

    method SetSymbol(symbol: string)
      modifies this
      ensures Value() == old(Value()).(symbol := symbol)
    {
      this.symbol := symbol;
    }

    method SetName(name: string)
      modifies this
      ensures Value() == old(Value()).(name := name)
    {
      this.name := name;
    }

    /** Changes the price and recomputes the derived fields. */
    method SetCurrentPrice(currentPrice: real)
      modifies this
      ensures Consistent()
      ensures Value() == NewStockValue(old(symbol), old(name), currentPrice, old(previousClose), old(volume), old(sector))
    {
      this.currentPrice := currentPrice;
      CalculateMetrics();
    }

    /** Changes the previous close and recomputes the derived fields. */
    method SetPreviousClose(previousClose: real)
      modifies this
      ensures Consistent()
      ensures Value() == NewStockValue(old(symbol), old(name), old(currentPrice), previousClose, old(volume), old(sector))
    {
      this.previousClose := previousClose;
      CalculateMetrics();
    }

    method SetVolume(volume: int)
      modifies this
      ensures Value() == old(Value()).(volume := volume)
      ensures old(Consistent()) ==> Consistent()
    {
      this.volume := volume;
    }

    method SetSector(sector: string)
      modifies this
      ensures Value() == old(Value()).(sector := sector)
      ensures old(Consistent()) ==> Consistent()
    {
      this.sector := sector;
    }

    /**
     * Overwrites the volatility without recomputation: the derived-field
     * invariant survives exactly when the new value is |percent change|.
     */
    method SetVolatility(volatility: real)
      modifies this
      ensures Value() == old(Value()).(volatility := volatility)
      ensures old(Consistent()) ==> (Consistent() <==> volatility == Abs(priceChangePercent))
    {
      this.volatility := volatility;
    }
  }
}
