/** The records the price tracker passes around, with JavaScript's nullable fields as `Option`. */
module Types {
  import opened Wrappers

  /** A catalogue entry: one tradeable item. */
  datatype ItemMapping = ItemMapping(
    id: int,
    name: string,
    icon: Option<string>,
    members: bool,
    limit: Option<int>,
    examine: Option<string>
  )

  /** The most recent instant-buy (`high`) and instant-sell (`low`) trades of one item. */
  datatype LatestEntry = LatestEntry(
    high: Option<int>,
    highTime: Option<int>,
    low: Option<int>,
    lowTime: Option<int>
  )

  /** One row of the price table. */
  datatype PriceRow = PriceRow(
    id: int,
    name: string,
    icon: Option<string>,
    members: bool,
    buyLimit: Option<int>,
    buyPrice: Option<int>,
    buyTime: Option<int>,
    sellPrice: Option<int>,
    sellTime: Option<int>,
    margin: Option<int>,
    dailyVolume: Option<int>,
    examine: Option<string>,
    wikiUrl: string
  )
}
