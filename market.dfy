/** The records the strategies exchange with their caller (the strategy interface
    and the exchange API). Only the fields the two strategies read are modelled. */
module Market {
  import opened Float64

  /** What the exchange reports about a market. */
  datatype MarketInfo = MarketInfo(
    minSize: Double,     // min_size
    minVolume: Double,   // min_volume
    assetStep: Double,   // asset_step
    leverage: Double,    // leverage: non-zero on a leveraged market
    invertPrice: bool)   // invert_price

  /** The current ticker; only the last traded price is read. */
  datatype Ticker = Ticker(last: Double)

  /** The alert flag of an order: set, cleared, or left at the interface default. */
  datatype Alert = Enabled | Disabled | Unset

  /** An order proposal: price override (0 = use the caller's price), signed size
      (+ buy, - sell, 0 = no order) and the alert flag. */
  datatype OrderData = OrderData(price: Double, size: Double, alert: Alert)

  /** A price interval. */
  datatype MinMax = MinMax(min: Double, max: Double)

  /** What a strategy reports about a fill: normalised profit, accumulated assets,
      neutral price and open price. */
  datatype TradeReport = TradeReport(normProfit: Double, normAccum: Double, neutralPrice: Double, openPrice: Double)

  /** `minfo.leverage != 0`; NaN counts as leveraged, since NaN != 0 is true. */
  predicate Leveraged(minfo: MarketInfo) { !Eq(minfo.leverage, Zero) }
}
