/**
 * The per-sector accumulator (datastructures/SectorMetrics.java).
 *
 * The ghost field `added` records the stocks added so far; `Valid` ties the
 * running totals and the two averages to that history, so that after n
 * calls the count is n and the totals are the sums over the n stocks.
 */
module Sectors {
  import opened Stocks

  /** `count > 0 ? total / count : 0`, the guarded average of calculateAverages. */
  function Average(total: real, count: int): (a: real)
    ensures count > 0 ==> a * count as real == total
    ensures count <= 0 ==> a == 0.0
  {
    if count > 0 then total / count as real else 0.0
  }

  class SectorMetrics {
    var sector: string
    var totalChange: real
    var totalVolume: int
    var stockCount: int
    var avgChange: real
    var avgVolume: real
    /** The stocks passed to AddStock, in order. */
    ghost var added: seq<StockValue>

    /** Both averages agree with the totals and the count. */
    ghost predicate AveragesConsistent()
      reads this
    {
      && avgChange == Average(totalChange, stockCount)
      && avgVolume == Average(totalVolume as real, stockCount)
    }

    /** The totals and the count summarise exactly the stocks added so far. */
    ghost predicate Valid()
      reads this
    {
      && stockCount == |added|
      && totalVolume == TotalVolume(added)
      && totalChange == TotalPercentChange(added)
      && AveragesConsistent()
    }

    /** A fresh accumulator: zero count, zero totals and (Java's default) zero averages. */
    constructor (sector: string)
      ensures Valid() && added == []
      ensures this.sector == sector
      ensures stockCount == 0 && totalChange == 0.0 && totalVolume == 0
      ensures avgChange == 0.0 && avgVolume == 0.0
    {
      this.sector := sector;
      totalChange := 0.0;
      totalVolume := 0;
      stockCount := 0;
      avgChange := 0.0;
      avgVolume := 0.0;
      added := [];
    }

    /** Adds one stock's percent change and volume, counts it, and recomputes the averages. */
    method AddStock(stock: StockValue)
      requires Valid()
      modifies this
      ensures Valid() && added == old(added) + [stock]
      ensures stockCount == old(stockCount) + 1
      ensures totalVolume == old(totalVolume) + stock.volume
      ensures totalChange == old(totalChange) + stock.priceChangePercent
      ensures sector == old(sector)
    {
      totalChange := totalChange + stock.priceChangePercent;
      totalVolume := totalVolume + stock.volume;
      stockCount := stockCount + 1;
      added := added + [stock];
      assert added[..|added| - 1] == old(added);
      CalculateAverages();
    }

    /** Recomputes both averages from the totals; nothing else changes. */
    method CalculateAverages()
      modifies this
      ensures AveragesConsistent()
      ensures sector == old(sector) && added == old(added) && stockCount == old(stockCount)
      ensures totalChange == old(totalChange) && totalVolume == old(totalVolume)
    {
      avgChange := if stockCount > 0 then totalChange / stockCount as real else 0.0;
      avgVolume := if stockCount > 0 then totalVolume as real / stockCount as real else 0.0;
    }

    /** Renames the sector; the totals are untouched. */
    method SetSector(sector: string)
      modifies this
      ensures this.sector == sector
      ensures added == old(added) && stockCount == old(stockCount) && totalChange == old(totalChange)
      ensures totalVolume == old(totalVolume) && avgChange == old(avgChange) && avgVolume == old(avgVolume)
    {
      this.sector := sector;
    }
  }

  /** The accumulator's average volume over a history, as Valid states it. */
  function AverageVolume(s: seq<StockValue>): real {
    Average(TotalVolume(s) as real, |s|)
  }

  /** Over a non-empty history the average lies between the smallest and the largest volume. */
  lemma {:induction false} AverageVolumeBounded(s: seq<StockValue>, lo: int, hi: int)
    requires s != []
    requires forall i :: 0 <= i < |s| ==> lo <= s[i].volume <= hi
    ensures lo as real <= AverageVolume(s) <= hi as real
  {
    VolumeSumBounded(s, lo, hi);
    var n := |s| as real;
    var a := AverageVolume(s);
    assert a * n == TotalVolume(s) as real;
    assert (a - lo as real) * n == a * n - lo as real * n;
    assert (hi as real - a) * n == hi as real * n - a * n;
    PositiveFactor(a - lo as real, n);
    PositiveFactor(hi as real - a, n);
  }

  lemma PositiveFactor(x: real, n: real)
    requires n > 0.0 && x * n >= 0.0
    ensures x >= 0.0
  {
  }

  /** The sum of |s| volumes each in [lo, hi] lies in [|s| * lo, |s| * hi]. */
  lemma {:induction false} VolumeSumBounded(s: seq<StockValue>, lo: int, hi: int)
    requires forall i :: 0 <= i < |s| ==> lo <= s[i].volume <= hi
    ensures |s| * lo <= TotalVolume(s) <= |s| * hi
  {
    if s != [] {
      VolumeSumBounded(s[..|s| - 1], lo, hi);
    }
  }

  /** Three stocks with volumes 100, 200 and 300 average to 200. */
  lemma ThreeVolumesAverage(a: StockValue, b: StockValue, c: StockValue)
    requires a.volume == 100 && b.volume == 200 && c.volume == 300
    ensures AverageVolume([a, b, c]) == 200.0
  {
    assert [a, b, c][..2] == [a, b];
    assert [a, b][..1] == [a];
    assert [a][..0] == [];
    assert TotalVolume([a]) == 100;
    assert TotalVolume([a, b]) == 300;
  }
}
