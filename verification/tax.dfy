/**
 * Grand Exchange tax: 2% of the sale price rounded down, capped at
 * 5,000,000 gp, with a fixed set of exempt item ids. Prices are whole gp,
 * the 2% rate is the exact rational 1/50 and 98% is 49/50.
 */
module Tax {
  import opened Wrappers

  const TaxCap: int := 5_000_000

  /** ceil(1 / 0.02): the lowest price whose 2% floors to at least 1 gp. */
  const MinPriceForTax: int := 50

  /** TAX_CAP / TAX_RATE: the sale price at which 2% reaches the cap. */
  const PriceWhereCapApplies: int := 250_000_000

  /** Costs at or above PriceWhereCapApplies - TAX_CAP take the capped branch of the break-even solve. */
  const CappedCostThreshold: int := PriceWhereCapApplies - TaxCap

  /** Old school bond, energy potions, low level ammunition, food, teleports and tools. */
  const TaxExemptItems: set<int> := {
    13190,
    3008, 3010, 3012, 3014,
    882, 806, 884, 807, 558, 886, 808,
    365, 2309, 1891, 2140, 2142, 347, 379, 355, 2327, 351, 329, 315, 361,
    8011, 8010, 28824, 8009, 3853, 28790, 8008, 2552, 8013, 8007,
    1755, 5325, 1785, 2347, 1733, 233, 5341, 8794, 5329, 5343, 1735, 952, 5331
  }

  /** An item id was supplied and it is in the exempt set. */
  predicate IsExempt(itemId: Option<int>) {
    itemId.Some? && itemId.value in TaxExemptItems
  }

  /** floor(price * 0.02): Dafny's division by a positive constant rounds toward minus infinity. */
  function RawTax(salePrice: int): (t: int)
    ensures 50 * t <= salePrice < 50 * t + 50
  {
    salePrice / 50
  }

  /** `calculateGeTax`: the tax deducted from the seller's proceeds. */
  function GeTax(salePrice: int, itemId: Option<int>): (t: int)
    ensures IsExempt(itemId) ==> t == 0
    ensures !IsExempt(itemId) ==> t <= TaxCap
    ensures !IsExempt(itemId) && t < TaxCap ==> 50 * t <= salePrice < 50 * t + 50
    ensures !IsExempt(itemId) && t == TaxCap ==> salePrice >= PriceWhereCapApplies
  {
    if IsExempt(itemId) then 0
    else
      var calculated := RawTax(salePrice);
      if calculated <= TaxCap then calculated else TaxCap
  }

  /** Below 50 gp no tax is charged; at exactly 50 gp the tax is 1 gp. */
  lemma TaxThreshold(p: int, itemId: Option<int>)
    requires 0 <= p
    ensures p < MinPriceForTax ==> GeTax(p, itemId) == 0
    ensures !IsExempt(itemId) && p == MinPriceForTax ==> GeTax(p, itemId) == 1
    ensures !IsExempt(itemId) && p >= MinPriceForTax ==> GeTax(p, itemId) >= 1
  {
  }

  /** Every non-exempt sale at or above 250,000,000 gp pays exactly the cap. */
  lemma TaxCapped(p: int, itemId: Option<int>)
    requires !IsExempt(itemId)
    ensures GeTax(p, itemId) == TaxCap <==> p >= PriceWhereCapApplies
  {
  }

  /** The tax never decreases as the sale price grows. */
  lemma TaxMonotone(p: int, q: int, itemId: Option<int>)
    requires p <= q
    ensures GeTax(p, itemId) <= GeTax(q, itemId)
  {
  }

  /** The tax on a non-negative price is non-negative and never exceeds 2% of it. */
  lemma TaxBounds(p: int, itemId: Option<int>)
    requires 0 <= p
    ensures 0 <= GeTax(p, itemId)
    ensures 50 * GeTax(p, itemId) <= p
  {
  }

  /** ceil(cost / 0.98) for an integer cost. */
  function EstimatedPrice(cost: int): (p: int)
    ensures 49 * p >= 50 * cost
    ensures 49 * (p - 1) < 50 * cost
  {
    (50 * cost + 48) / 49
  }

  /**
   * `calculateBreakEvenPrice`: a sale price that recovers `cost` after tax.
   * The `+ 1` correction mirrors the source; it is never taken (see
   * BreakEvenCorrectionUnreachable).
   */
  function BreakEvenPrice(cost: Option<int>, itemId: Option<int>): (r: Option<int>)
    ensures r.None? <==> cost.None?
    ensures cost.Some? && (IsExempt(itemId) || cost.value < MinPriceForTax) ==> r == cost
    ensures cost.Some? && !IsExempt(itemId) && cost.value >= CappedCostThreshold ==>
              r == Some(cost.value + TaxCap)
    ensures r.Some? ==> r.value >= cost.value
    ensures r.Some? ==> r.value - GeTax(r.value, itemId) >= cost.value
  {
    match cost
    case None => None
    case Some(c) =>
      if IsExempt(itemId) then Some(c)
      else if c < MinPriceForTax then Some(c)
      else if c >= CappedCostThreshold then Some(c + TaxCap)
      else
        var estimated := EstimatedPrice(c);
        var actualReceived := estimated - RawTax(estimated);
        if actualReceived < c then Some(estimated + 1) else Some(estimated)
  }

  /**
   * In exact arithmetic the estimate ceil(cost / 0.98) already recovers the
   * cost, so the `+ 1` branch is dead and the result is the estimate itself.
   */
  lemma {:induction false} BreakEvenCorrectionUnreachable(c: int, itemId: Option<int>)
    requires !IsExempt(itemId)
    requires MinPriceForTax <= c < CappedCostThreshold
    ensures EstimatedPrice(c) - RawTax(EstimatedPrice(c)) >= c
    ensures BreakEvenPrice(Some(c), itemId) == Some(EstimatedPrice(c))
  {
    var e := EstimatedPrice(c);
    var t := RawTax(e);
    assert 50 * (e - t) >= 49 * e;
  }

  /** At or above 245,000,000 gp, selling at the break-even nets exactly the cost. */
  lemma BreakEvenCappedExact(c: int, itemId: Option<int>)
    requires !IsExempt(itemId)
    requires c >= CappedCostThreshold
    ensures BreakEvenPrice(Some(c), itemId).value - GeTax(BreakEvenPrice(Some(c), itemId).value, itemId) == c
  {
  }

  /**
   * The break-even is sufficient, not minimal: a cost of 1000 gives 1021
   * although 1020 already nets 1000 after tax.
   */
  lemma BreakEvenNotMinimal()
    ensures BreakEvenPrice(Some(1000), None) == Some(1021)
    ensures 1020 - GeTax(1020, None) >= 1000
  {
  }

  /** `calculatePostTaxProfit`: sale proceeds after tax minus the acquisition price. */
  function PostTaxProfit(buyPrice: Option<int>, sellPrice: Option<int>, itemId: Option<int>): (r: Option<int>)
    ensures r.None? <==> buyPrice.None? || sellPrice.None?
    ensures r.Some? && IsExempt(itemId) ==> r.value == buyPrice.value - sellPrice.value
    ensures r.Some? && buyPrice.value >= 0 ==>
              buyPrice.value - sellPrice.value - TaxCap <= r.value <= buyPrice.value - sellPrice.value
    ensures r.Some? ==> (buyPrice.value - sellPrice.value) - r.value == GeTax(buyPrice.value, itemId)
  {
    if buyPrice.None? || sellPrice.None? then None
    else
      var tax := GeTax(buyPrice.value, itemId);
      Some(buyPrice.value - tax - sellPrice.value)
  }

  /** Buying at `cost` and selling at its break-even price never loses money. */
  lemma BreakEvenProfitNonNegative(cost: int, itemId: Option<int>)
    ensures PostTaxProfit(BreakEvenPrice(Some(cost), itemId), Some(cost), itemId).value >= 0
  {
  }

  /** The branch `getTaxDescription` chooses; its text is not modelled. */
  datatype TaxBand = Exempt | BelowMinimum | Capped | Standard(tax: int)

  /** `getTaxDescription`: exemption first, then a floored tax of 0, then strictly above the cap. */
  function TaxDescription(salePrice: int, itemId: Option<int>): (b: TaxBand)
    ensures b.Exempt? <==> IsExempt(itemId)
    ensures b.BelowMinimum? <==> !IsExempt(itemId) && 0 <= salePrice < MinPriceForTax
    ensures b.Capped? <==> !IsExempt(itemId) && salePrice >= PriceWhereCapApplies + 50
    ensures b.Standard? ==> b.tax == GeTax(salePrice, itemId) && b.tax != 0
    ensures !b.Standard? ==> GeTax(salePrice, itemId) == (if b.Capped? then TaxCap else 0)
  {
    if IsExempt(itemId) then Exempt
    else
      var calculated := RawTax(salePrice);
      if calculated == 0 then BelowMinimum
      else if calculated > TaxCap then Capped
      else Standard(calculated)
  }

  /** At exactly 250,000,000 gp the raw 2% equals the cap, so the standard branch is taken. */
  lemma DescriptionAtCapBoundary()
    ensures TaxDescription(PriceWhereCapApplies, None) == Standard(TaxCap)
  {
  }

  /** The source has no guard for the 2^31 - 1 data-error sentinel: it is taxed like any price. */
  lemma SentinelIsTaxed()
    ensures GeTax(2147483647, None) == TaxCap
    ensures PostTaxProfit(Some(2147483647), Some(1000), None) == Some(2147483647 - TaxCap - 1000)
  {
  }
}
