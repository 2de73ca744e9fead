/**
 * Filter state for the price table: one {min, max} pair per filterable
 * metric. Bounds are optional JavaScript numbers; normalisation and editing
 * keep only finite ones.
 */
module FilterState {
  import opened Wrappers
  import opened Numbers
  import opened Types
  import Tax

  datatype FilterKey =
    | BuyLimit | BuyPrice | BuyTime | SellPrice | SellTime
    | BreakEvenPrice | Margin | PostTaxProfit | DailyVolume

  datatype Bound = Min | Max

  datatype NumericFilter = NumericFilter(min: Option<Num>, max: Option<Num>) {
    function Get(b: Bound): Option<Num> {
      match b
      case Min => min
      case Max => max
    }
  }

  const Unbounded: NumericFilter := NumericFilter(None, None)

  datatype Filters = Filters(
    buyLimit: NumericFilter,
    buyPrice: NumericFilter,
    buyTime: NumericFilter,
    sellPrice: NumericFilter,
    sellTime: NumericFilter,
    breakEvenPrice: NumericFilter,
    margin: NumericFilter,
    postTaxProfit: NumericFilter,
    dailyVolume: NumericFilter
  ) {
    function Get(k: FilterKey): NumericFilter {
      match k
      case BuyLimit => buyLimit
      case BuyPrice => buyPrice
      case BuyTime => buyTime
      case SellPrice => sellPrice
      case SellTime => sellTime
      case BreakEvenPrice => breakEvenPrice
      case Margin => margin
      case PostTaxProfit => postTaxProfit
      case DailyVolume => dailyVolume
    }

    /** The same filters with the pair for `k` replaced. */
    function With(k: FilterKey, nf: NumericFilter): (f: Filters)
      ensures f.Get(k) == nf
      ensures forall k' :: k' != k ==> f.Get(k') == Get(k')
    {
      match k
      case BuyLimit => this.(buyLimit := nf)
      case BuyPrice => this.(buyPrice := nf)
      case BuyTime => this.(buyTime := nf)
      case SellPrice => this.(sellPrice := nf)
      case SellTime => this.(sellTime := nf)
      case BreakEvenPrice => this.(breakEvenPrice := nf)
      case Margin => this.(margin := nf)
      case PostTaxProfit => this.(postTaxProfit := nf)
      case DailyVolume => this.(dailyVolume := nf)
    }
  }

  /** A bound the filter code may rely on: absent or finite. */
  predicate IsClean(b: Option<Num>) {
    b.None? || b.value.IsFinite()
  }

  predicate IsNormal(f: Filters) {
    forall k :: IsClean(f.Get(k).min) && IsClean(f.Get(k).max)
  }

  function KeepFinite(b: Option<Num>): (r: Option<Num>)
    ensures IsClean(r)
    ensures IsClean(b) ==> r == b
    ensures !IsClean(b) ==> r.None?
  {
    if b.Some? && b.value.IsFinite() then b else None
  }

  function NormalizeFilter(nf: NumericFilter): (r: NumericFilter)
    ensures forall b :: r.Get(b) == KeepFinite(nf.Get(b))
  {
    NumericFilter(KeepFinite(nf.min), KeepFinite(nf.max))
  }

  /** `normalizeFilters`: keep finite bounds, replace every other bound by null. */
  function NormalizeFilters(f: Filters): (r: Filters)
    ensures forall k :: r.Get(k) == NormalizeFilter(f.Get(k))
    ensures IsNormal(r)
    ensures forall k, b :: IsClean(f.Get(k).Get(b)) ==> r.Get(k).Get(b) == f.Get(k).Get(b)
    ensures forall k, b :: !IsClean(f.Get(k).Get(b)) ==> r.Get(k).Get(b).None?
  {
    Filters(
      NormalizeFilter(f.buyLimit),
      NormalizeFilter(f.buyPrice),
      NormalizeFilter(f.buyTime),
      NormalizeFilter(f.sellPrice),
      NormalizeFilter(f.sellTime),
      NormalizeFilter(f.breakEvenPrice),
      NormalizeFilter(f.margin),
      NormalizeFilter(f.postTaxProfit),
      NormalizeFilter(f.dailyVolume)
    )
  }

  /** Normalisation is idempotent, and the identity on filters that are already normal. */
  lemma NormalizeIdempotent(f: Filters)
    ensures NormalizeFilters(NormalizeFilters(f)) == NormalizeFilters(f)
    ensures IsNormal(f) ==> NormalizeFilters(f) == f
  {
    if IsNormal(f) {
      var r := NormalizeFilters(f);
      forall k | true
        ensures r.Get(k) == f.Get(k)
      {
        assert IsClean(f.Get(k).min) && IsClean(f.Get(k).max);
      }
      assert r.Get(BuyLimit) == f.Get(BuyLimit) && r.Get(BuyPrice) == f.Get(BuyPrice) && r.Get(BuyTime) == f.Get(BuyTime);
      assert r.Get(SellPrice) == f.Get(SellPrice) && r.Get(SellTime) == f.Get(SellTime);
      assert r.Get(BreakEvenPrice) == f.Get(BreakEvenPrice) && r.Get(Margin) == f.Get(Margin);
      assert r.Get(PostTaxProfit) == f.Get(PostTaxProfit) && r.Get(DailyVolume) == f.Get(DailyVolume);
    }
  }

  /** The bound `handleNumericFilterChange` stores for a raw input string. */
  function ParsedBound(rawValue: string, parse: string -> Num): (b: Option<Num>)
    ensures IsClean(b)
    ensures b.Some? ==> b.value.r != 0.0
    ensures rawValue == "" ==> b.None?
    ensures rawValue != "" && parse(rawValue).IsFinite() && parse(rawValue).r != 0.0 ==> b == Some(parse(rawValue))
    ensures b.None? <==> rawValue == "" || !parse(rawValue).IsFinite() || parse(rawValue).r == 0.0
  {
    if rawValue == "" then None
    else
      var value := parse(rawValue);
      if !value.IsFinite() || value.r == 0.0 then None else Some(value)
  }

  /**
   * `handleNumericFilterChange`: set one bound of one metric from a raw input
   * string. `parse` is JavaScript's `Number(string)`, which yields NaN for text
   * that is not a number.
   */
  function HandleNumericFilterChange(f: Filters, key: FilterKey, bound: Bound, rawValue: string, parse: string -> Num): (r: Filters)
    ensures IsClean(r.Get(key).Get(bound))
    ensures r.Get(key).Get(bound).None? <==>
              rawValue == "" || !parse(rawValue).IsFinite() || parse(rawValue).r == 0.0
    ensures r.Get(key).Get(bound).Some? ==> r.Get(key).Get(bound) == Some(parse(rawValue))
    ensures forall b :: b != bound ==> r.Get(key).Get(b) == f.Get(key).Get(b)
    ensures forall k :: k != key ==> r.Get(k) == f.Get(k)
  {
    var current := f.Get(key);
    var value := ParsedBound(rawValue, parse);
    var nf := match bound
      case Min => current.(min := value)
      case Max => current.(max := value);
    f.With(key, nf)
  }

  /** Time-filter values above this are legacy absolute timestamps, not ages. */
  const LegacyTimestampThreshold: real := 100_000_000.0

  /** One bound of `migrateTimeFiltersToDurations`. */
  function MigrateBound(v: Option<Num>, nowSeconds: int): (r: Option<Num>)
    ensures IsClean(r)
    ensures !IsClean(v) ==> r.None?
    ensures v.Some? && v.value.IsFinite() && v.value.r <= LegacyTimestampThreshold ==> r == v
    ensures v.Some? && v.value.IsFinite() && v.value.r > LegacyTimestampThreshold ==>
              r.Some? && r.value.r >= 0.0 && (r.value.r == 0.0 || r.value.r == nowSeconds as real - v.value.r)
    ensures v.Some? && v.value.IsFinite() && v.value.r > LegacyTimestampThreshold ==>
              r.Some? && r.value.r >= nowSeconds as real - v.value.r
  {
    if v.None? || !v.value.IsFinite() then None
    else if v.value.r > LegacyTimestampThreshold then Some(Fin(MaxReal(0.0, nowSeconds as real - v.value.r)))
    else v
  }

  /** `migrateTimeFiltersToDurations`: turn legacy timestamp bounds on the two time filters into ages. */
  function MigrateTimeFiltersToDurations(f: Filters, nowSeconds: int): (r: Filters)
    ensures forall k :: k != BuyTime && k != SellTime ==> r.Get(k) == f.Get(k)
    ensures forall k, b :: (k == BuyTime || k == SellTime) ==> r.Get(k).Get(b) == MigrateBound(f.Get(k).Get(b), nowSeconds)
  {
    f.(buyTime := NumericFilter(MigrateBound(f.buyTime.min, nowSeconds), MigrateBound(f.buyTime.max, nowSeconds)),
       sellTime := NumericFilter(MigrateBound(f.sellTime.min, nowSeconds), MigrateBound(f.sellTime.max, nowSeconds)))
  }

  /**
   * Migrating again changes nothing once the first pass produced an age below
   * the legacy threshold; an age above it would be read as a timestamp again.
   */
  lemma MigrateIdempotent(v: Option<Num>, nowSeconds: int)
    requires var r := MigrateBound(v, nowSeconds); r.None? || r.value.r <= LegacyTimestampThreshold
    ensures MigrateBound(MigrateBound(v, nowSeconds), nowSeconds) == MigrateBound(v, nowSeconds)
  {
  }

  /** A migrated timestamp is the age at `now`, clamped at 0. */
  lemma MigrateExample()
    ensures MigrateBound(Some(Fin(1_704_067_200.0)), 1_704_070_800) == Some(Fin(3600.0))
    ensures MigrateBound(Some(Fin(1_704_067_200.0)), 1_704_000_000) == Some(Fin(0.0))
    ensures MigrateBound(Some(Fin(3600.0)), 1_704_070_800) == Some(Fin(3600.0))
    ensures MigrateBound(Some(NaN), 1_704_070_800) == None
  {
  }

  // ---- Derived per-row metrics, computed inline by the filter code ----

  /**
   * ceil(sell / 0.98): the break-even the table computes. It is the tax
   * engine's first estimate, used directly with no threshold, cap or
   * exemption.
   */
  function InlineBreakEven(sellPrice: int): int {
    Tax.EstimatedPrice(sellPrice)
  }

  /** floor(buy * 0.98 - sell): the post-tax profit the table computes, with no cap or exemption. */
  function InlineProfit(buyPrice: int, sellPrice: int): (p: int)
    ensures 50 * (p + sellPrice) <= 49 * buyPrice < 50 * (p + sellPrice + 1)
  {
    (49 * buyPrice) / 50 - sellPrice
  }

  /**
   * The value of a filterable metric for a row, before any age conversion:
   * a stored field, or the inline break-even / profit.
   */
  function RowValue(row: PriceRow, k: FilterKey): Option<int> {
    match k
    case BuyLimit => row.buyLimit
    case BuyPrice => row.buyPrice
    case BuyTime => row.buyTime
    case SellPrice => row.sellPrice
    case SellTime => row.sellTime
    case BreakEvenPrice => if row.sellPrice.Some? then Some(InlineBreakEven(row.sellPrice.value)) else None
    case Margin => row.margin
    case PostTaxProfit =>
      if row.buyPrice.Some? && row.sellPrice.Some? then Some(InlineProfit(row.buyPrice.value, row.sellPrice.value))
      else None
    case DailyVolume => row.dailyVolume
  }

  /**
   * Below the cap, the table's inline profit is the tax module's profit or one
   * less: floor(0.98 * buy) rounds the seller's share down where the tax rounds
   * the tax down. They agree exactly when the price is a multiple of 50.
   */
  lemma InlineProfitAgainstTax(buyPrice: int, sellPrice: int, itemId: Option<int>)
    requires !Tax.IsExempt(itemId)
    requires buyPrice < Tax.PriceWhereCapApplies + 50
    ensures var exact := Tax.PostTaxProfit(Some(buyPrice), Some(sellPrice), itemId).value;
            var inline := InlineProfit(buyPrice, sellPrice);
            exact - 1 <= inline <= exact && (inline == exact <==> buyPrice % 50 == 0)
  {
  }

  /** Between 50 gp and the capped region, the table's inline break-even equals the tax module's. */
  lemma InlineBreakEvenAgainstTax(sellPrice: int, itemId: Option<int>)
    requires !Tax.IsExempt(itemId)
    requires Tax.MinPriceForTax <= sellPrice < Tax.CappedCostThreshold
    ensures Tax.BreakEvenPrice(Some(sellPrice), itemId) == Some(InlineBreakEven(sellPrice))
  {
    Tax.BreakEvenCorrectionUnreachable(sellPrice, itemId);
  }

  /** Below 50 gp the two disagree: the inline formula still adds 2%. */
  lemma InlineBreakEvenBelowThreshold()
    ensures Tax.BreakEvenPrice(Some(10), None) == Some(10)
    ensures InlineBreakEven(10) == 11
  {
  }
}
