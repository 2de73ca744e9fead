/**
 * `computeFilterStats`: the smallest and largest present value of each
 * range-hint metric over all rows, for the filter panel's placeholders.
 */
module FilterStats {
  import opened Wrappers
  import opened Types
  import opened FilterState

  datatype MinMax = MinMax(min: Option<int>, max: Option<int>)

  datatype Stats = Stats(
    buyLimit: MinMax,
    buyPrice: MinMax,
    sellPrice: MinMax,
    margin: MinMax,
    dailyVolume: MinMax,
    breakEvenPrice: MinMax,
    postTaxProfit: MinMax
  )

  /** The metrics that have statistics: every filterable one except the two times. */
  predicate HasStat(k: FilterKey) {
    k != BuyTime && k != SellTime
  }

  function StatOf(s: Stats, k: FilterKey): MinMax
    requires HasStat(k)
  {
    match k
    case BuyLimit => s.buyLimit
    case BuyPrice => s.buyPrice
    case SellPrice => s.sellPrice
    case Margin => s.margin
    case DailyVolume => s.dailyVolume
    case BreakEvenPrice => s.breakEvenPrice
    case PostTaxProfit => s.postTaxProfit
  }

  /** The present values of metric `k`, in row order (`pickNumbers`). */
  function PresentValues(rows: seq<PriceRow>, k: FilterKey): (vs: seq<int>)
    ensures forall v :: v in vs <==> exists row :: row in rows && RowValue(row, k) == Some(v)
    ensures |vs| == 0 <==> forall row :: row in rows ==> RowValue(row, k).None?
  {
    if |rows| == 0 then []
    else
      var rest := PresentValues(rows[1..], k);
      assert forall row :: row in rows <==> row == rows[0] || row in rows[1..];
      match RowValue(rows[0], k)
      case None => rest
      case Some(v) => [v] + rest
  }

  /** `Math.min(...vs)` of a non-empty list. */
  function Minimum(vs: seq<int>): (m: int)
    requires |vs| > 0
    ensures m in vs
    ensures forall v :: v in vs ==> m <= v
  {
    if |vs| == 1 then vs[0]
    else
      var rest := Minimum(vs[1..]);
      assert forall v :: v in vs ==> v == vs[0] || v in vs[1..];
      if vs[0] <= rest then vs[0] else rest
  }

  /** `Math.max(...vs)` of a non-empty list. */
  function Maximum(vs: seq<int>): (m: int)
    requires |vs| > 0
    ensures m in vs
    ensures forall v :: v in vs ==> v <= m
  {
    if |vs| == 1 then vs[0]
    else
      var rest := Maximum(vs[1..]);
      assert forall v :: v in vs ==> v == vs[0] || v in vs[1..];
      if vs[0] >= rest then vs[0] else rest
  }

  /**
   * The statistic of one metric: both null when no row has a value, otherwise
   * the least and greatest value, each attained by some row.
   */
  function Stat(rows: seq<PriceRow>, k: FilterKey): (s: MinMax)
    ensures s.min.None? <==> forall row :: row in rows ==> RowValue(row, k).None?
    ensures s.max.None? <==> s.min.None?
    ensures s.min.Some? ==> s.min.value <= s.max.value
    ensures s.min.Some? ==> exists row :: row in rows && RowValue(row, k) == s.min
    ensures s.max.Some? ==> exists row :: row in rows && RowValue(row, k) == s.max
    ensures s.min.Some? ==> forall row :: row in rows && RowValue(row, k).Some? ==>
              s.min.value <= RowValue(row, k).value <= s.max.value
  {
    var vs := PresentValues(rows, k);
    if |vs| == 0 then MinMax(None, None)
    else
      var lo := Minimum(vs);
      var hi := Maximum(vs);
      assert forall row :: row in rows && RowValue(row, k).Some? ==> RowValue(row, k).value in vs;
      MinMax(Some(lo), Some(hi))
  }

  /** `computeFilterStats`. */
  function ComputeFilterStats(rows: seq<PriceRow>): (s: Stats)
    ensures |rows| == 0 ==> forall k :: HasStat(k) ==> StatOf(s, k) == MinMax(None, None)
    ensures forall k :: HasStat(k) ==> StatOf(s, k) == Stat(rows, k)
  {
    if |rows| == 0 then
      Stats(MinMax(None, None), MinMax(None, None), MinMax(None, None), MinMax(None, None),
            MinMax(None, None), MinMax(None, None), MinMax(None, None))
    else
      Stats(Stat(rows, BuyLimit), Stat(rows, BuyPrice), Stat(rows, SellPrice), Stat(rows, Margin),
            Stat(rows, DailyVolume), Stat(rows, BreakEvenPrice), Stat(rows, PostTaxProfit))
  }
}
