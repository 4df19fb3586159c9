# Trading strategies and sorted JSON objects of mmbot, in Dafny

This project models three parts of the mmbot trading robot and proves properties of them.

- **The averaging strategy ("mathematical cost averaging", `Strategy_Mca`).** The strategy keeps one blended entry price (`enter`, the paid sum `ep` over the holdings) and a fixed budget. It buys as the price falls below the entry price, sells as it rises above it, and never sells at a loss. The model covers:
  - `calculateSize`, with its cold-start, martingale, emergency-grid, never-sell, sell-everything, buy-region, sell-region and no-loss branches;
  - `calculateSize`'s branch chain past the cold start is split by the sign of `dir`, because every test in it requires `dir > 0` or `dir < 0`: `DecideBuy` and `DecideSell`;
  - `getNewOrder`, `init`, `isValid`, `onTrade`, `exportState`/`importState`, `onIdle`, `reset`, `getCenterPrice` and `calcSafeRange`.
- **The power-law strategy ("pile", `Strategy_Pile`).** Its position is `k * price^(r-1)` and its budget is `k * price^r / r`. The ratio `r` and the scale `k` are fitted once by `init`. The model covers:
  - the five curves;
  - `init`, `isValid`, `calcAccum`, `getNewOrder` and `onTrade`, including the re-initialisation of an invalid strategy;
  - `calcSafeRange`, `exportState`/`importState`, `onIdle` and `calcInitialPosition`.
- **The member table of a JSON object (`json::ObjectValue`).** The members live in a fixed-capacity buffer. `findSorted` looks them up by binary search. `sort` orders them with a stable sort, removes in place every member whose successor has the same name (so the member written last wins), and shrinks the table with a `pop_back` loop.

Both strategies are immutable values: every operation returns a new strategy. They are therefore datatypes (`Mca`, `Pile`) and functions. Where the source throws, the model returns the `Failure` case of a `Result`.

The object table is a class. Its buffer is an `array` and its size is a field. `FindSorted` is a method with a loop. `Sort` works in place through three methods:
- `StableSortByName`, a stable insertion sort;
- `RemoveShadowed`, the `remove_if` pass;
- a loop that lowers `curSize` once per removed member.

Each method is proved against a specification function in `ObjectTable`: `SortByName`, `KeepLast` and `Normalize`. The promises of `sort` are proved about these functions.

## Files

- `float64.dfy`: IEEE doubles as exact reals plus `+inf`, `-inf` and NaN.
  - Comparisons follow IEEE: every comparison with NaN is false.
  - `sin` and `pow` are parameters (`MathLib`); nothing is assumed about them.
  - `PowPositive(lib)` states that `pow` of a positive number is positive. It is a hypothesis of the lemmas that need it.
- `market.dfy`: the market data and results the strategies exchange with the robot (`MarketInfo`, `Ticker`, `OrderData`, `MinMax`, `TradeReport`).
- `strategy_mca_types.dfy`: `Strategy_Mca::Config`, `State` and its defaults.
- `strategy_mca.dfy`: the averaging strategy.
- `strategy_pile.dfy`: the power-law strategy.
- `name_order.dfy`: `std::string_view::compare` as a strict total order on names.
- `object_table.dfy`: entries, the sort specification and its lemmas.
- `object_value.dfy`: `json::ObjectValue`.
- `wrappers.dfy`: `Option` and `Result`.

## Model

| member | source | states |
|---|---|---|
| StrategyMcaTypes.MakeState | src/main/strategy_mca.h:20-30 | a state built from the seven numbers has `alerts`, `sentiment` 0 and six zero history slots |
| StrategyMcaTypes.FromConfig | src/main/strategy_mca.h:21-29 | a strategy built from its configuration alone has `enter` and `budget` NaN, `ep`, `assets`, `currency`, `last_price` 0, and zero `alerts`, `sentiment` and six history slots |
| StrategyMca.IsValid | src/main/strategy_mca.cpp:320-322 | valid iff `ep >= 0` and `budget > 0`, NaN failing both tests and `+inf` passing them |
| StrategyMca.MinSize | src/main/strategy_mca.cpp:38-44 | the result is one of minimum size, minimum volume / price and asset step, and is at least each of them when none is NaN |
| StrategyMca.EffectiveAssets | src/main/strategy_mca.cpp:47 | 0 or positive; when not 0, at most both the state's and the reported holdings, and one of them |
| StrategyMca.AvailableCurrency | src/main/strategy_mca.cpp:49 | the currency when that is positive; 0 when it is not positive or NaN |
| StrategyMca.ClampInitBet | src/main/strategy_mca.cpp:71-73 | the initial bet clamped into [0, 100], NaN mapped to 0, unchanged inside the range |
| StrategyMca.ClampStrength | src/main/strategy_mca.cpp:96-104 | a strength clamped into [0, 1], NaN and non-positive mapped to 0, at least 1 mapped to 1 |
| StrategyMca.ColdStart | src/main/strategy_mca.cpp:77-81 | alert raised; size 0 for a sell probe, otherwise `max(minSize, initialBet)` |
| StrategyMca.Distance | src/main/strategy_mca.cpp:88-91 | for positive prices the distance lies in [0, 1] and is 0 exactly when the price is the entry price |
| StrategyMca.GridSize | src/main/strategy_mca.cpp:119-131 | at a positive price the emergency grid proposes size 0, and never a positive size |
| StrategyMca.PlanBuy | src/main/strategy_mca.cpp:116-141 | martingale iff the clamped buy strength is at least 1, using the raw configured strength; the grid iff not martingale and currency below 70% of the budget |
| StrategyMca.PlanSell | src/main/strategy_mca.cpp:143-151 | sell-everything iff the clamped sell strength is at least 1; never-sell iff it is at most 0 |
| StrategyMca.NotNaN | src/main/strategy_mca.cpp:153-154 | a NaN strength reads as 0; any other is kept |
| StrategyMca.SellAll | src/main/strategy_mca.cpp:185-192 | sells nothing or the whole effective holding, never less than the minimum size, and nothing without alert at a loss |
| StrategyMca.MartingaleWithinCurrency | src/main/strategy_mca.cpp:167-177 | the martingale buy is finite, non-negative, and paid for by the available currency |
| StrategyMca.BuyRegionWithinCurrency | src/main/strategy_mca.cpp:196-214 | the buy region buys a finite non-negative amount the currency pays for, and a non-zero buy is at least the minimum size |
| StrategyMca.BuyShortfallWithinCurrency | src/main/strategy_mca.cpp:204-213 | for any wanted amount that is not NaN, the buy is finite, non-negative, affordable, and 0 or at least the minimum size |
| StrategyMca.SellRegionNeverBuys | src/main/strategy_mca.cpp:216-225 | with non-negative holdings the sell region never proposes a buy |
| StrategyMca.SellShortfallNeverBuys | src/main/strategy_mca.cpp:219-224 | for any gap to the target holding, the sell region never proposes a buy |
| StrategyMca.Hold | src/main/strategy_mca.cpp:162-163 | the holding a strength asks for is never NaN for a positive budget and price |
| StrategyMca.ColdStartBetsInitialBet | src/main/strategy_mca.cpp:75-81 | in `calculateSize`, cold start raises the alert, gives a sell probe 0 and any other probe `max(minSize, initialBet)` |
| StrategyMca.OppositeProbeIsSilent | src/main/strategy_mca.cpp:84-85 | a buy probe above or a sell probe below the entry price returns exactly `(0, false)` |
| StrategyMca.SellProbeNeverBuys | src/main/strategy_mca.cpp:179-229 | a sell probe never yields a positive size, whatever the inputs |
| StrategyMca.PositionSellNeverBuys | src/main/strategy_mca.cpp:179-229 | past the cold start and opposite-probe tests, a sell probe never yields a positive size |
| StrategyMca.DecideSellNeverBuys | src/main/strategy_mca.cpp:167-229 | for any buy and sell plan, the branch chain answers a sell probe with no positive size |
| StrategyMca.DecideSellOnlySells | src/main/strategy_mca.cpp:179-229 | the sell side of the branch chain never proposes a buy |
| StrategyMca.SellAllNeverBuys | src/main/strategy_mca.cpp:185-192 | selling everything never proposes a buy |
| StrategyMca.SellNeverRealisesLoss | src/main/strategy_mca.cpp:185-229 | a sell probe whose holdings show a loss at this price gets size 0 |
| StrategyMca.NeverSellConfigNeverSells | src/main/strategy_mca.cpp:146-183 | a non-positive or NaN sell strength answers every sell probe with 0 |
| StrategyMca.PositionNeverSell | src/main/strategy_mca.cpp:179-183 | past the cold start, a clamped sell strength of 0 answers every sell probe with 0 |
| StrategyMca.SellProbeBounds | src/main/strategy_mca.cpp:179-229 | for finite inputs a sell probe's size lies in `[-effectiveAssets, 0]`, and a non-zero sale is at least the minimum size; the same bounds are proved on the way for the position past the cold start (`PositionSellBounds`), the branch chain for any plans (`DecideSellBounds`, `DecideSellWithinHoldings`) and the sell region (`SellRegionWithinHoldings`, `SellShortfallWithinHoldings`) |
| StrategyMca.SellAllWithinHoldings | src/main/strategy_mca.cpp:185-192 | selling everything sells the whole holding or nothing, never less than the minimum size |
| StrategyMca.BuyProbeWithinCurrency | src/main/strategy_mca.cpp:167-214 | past the cold start, a buy probe's size is finite, non-negative and paid for by the available currency; the same bound, with the minimum size outside the martingale, is proved on the way for the position (`PositionBuyBounds`) and the branch chain for any buy plan (`DecideBuyBounds`, `DecideBuyWithinCurrency`) |
| StrategyMca.FullStrengthIsAtLeastOne | src/main/strategy_mca.cpp:103-118 | a finite strength that clamps to 1 is at least 1, so the martingale multiplier is at least 1 |
| StrategyMca.BuyRespectsMinSize | src/main/strategy_mca.cpp:196-214 | outside the martingale, a non-zero buy is never below the minimum size |
| StrategyMca.EmergencyGridNeverBuys | src/main/strategy_mca.cpp:119-214 | with currency below 70% of the budget and no martingale, a buy probe at a positive price gets size 0 |
| StrategyMca.PositionGridNeverBuys | src/main/strategy_mca.cpp:119-214 | past the cold start, with non-negative currency below 70% of the budget and no martingale, a buy probe gets 0 |
| StrategyMca.GridBuysNothing | src/main/strategy_mca.cpp:196-214 | a grid of size 0 gets a buy probe nothing, at and below the entry price |
| StrategyMca.NothingWantedBuysNothing | src/main/strategy_mca.cpp:204-213 | with currency that is not negative, wanting nothing buys nothing |
| StrategyMca.DefaultStateBetsMinSize | src/main/strategy_mca.h:22-23 | the default state's NaN entry price routes every probe to the cold start, and its NaN budget makes a buy probe bet the minimum size |
| StrategyMca.ColdStartExample | src/main/strategy_mca.cpp:75-81 | budget 1000, initial bet 10%, price 100: a buy probe bets 1.0, a sell probe nothing |
| StrategyMca.GetNewOrder | src/main/strategy_mca.cpp:235-253 | no price override, and the alert is always set, enabled or disabled |
| StrategyMca.FreshStrategyOrdersMinSize | src/main/strategy_mca.cpp:243-252 | a strategy with the default state orders the market's minimum size on a buy probe and nothing on a sell probe, alert enabled |
| StrategyMca.SellOrderNeverBuys | src/main/strategy_mca.cpp:243-252 | a sell order never has a positive size, and is empty at a loss |
| StrategyMca.Init | src/main/strategy_mca.cpp:22-36 | fails iff `assets * price` is negative or NaN or `currency + assets * price` is not positive; a success is valid, keeps the configuration, has `ep = assets * price`, `budget = currency + assets * price`, `enter` the price when `assets > 0` and NaN otherwise, the holdings and currency as reported, and last price 0 |
| StrategyMca.InitSucceedsIff | src/main/strategy_mca.cpp:22-36 | for finite inputs at a positive price, `init` succeeds iff holdings are not negative and the account is worth more than 0; then `ep` and `budget` are the finite numbers `assets * price` and `currency + assets * price` |
| StrategyMca.InitEntersAtPrice | src/main/strategy_mca.cpp:26-32 | after `init` the entry price is `ep / assets`: the price when something is held, NaN otherwise |
| StrategyMca.EffectiveTradeSize | src/main/strategy_mca.cpp:259-263 | sells count in full; a buy counts between 0 and the fill, and no more than the reported holdings show |
| StrategyMca.NewAssets | src/main/strategy_mca.cpp:267-272 | the new holdings are never negative, and are the sum when that is not negative |
| StrategyMca.OnTrade | src/main/strategy_mca.cpp:255-295 | fails iff the strategy is invalid; keeps the configuration and budget; last price is the fill price; holdings never negative; currency at most the budget; entry price is `ep / assets`; report fields; no profit on a buy |
| StrategyMca.AverageBetween | src/main/strategy_mca.cpp:284-285 | a cost-weighted average of two prices lies between them |
| StrategyMca.OnTradeBuyAddsCost | src/main/strategy_mca.cpp:261-293 | a finite buy counts a size in `[0, tradeSize]`, adds its cost to `ep` and its size to the holdings, and sets currency to `min(budget, currency - cost)` |
| StrategyMca.OnTradeBuyAveragesEnter | src/main/strategy_mca.cpp:282-285 | a buy moves the entry price to between the old entry price and the fill price |
| StrategyMca.BuyAverageBetween | src/main/strategy_mca.cpp:284-285 | adding `e` assets at price `p` to `a` assets that cost `ep` puts the average price between `ep / a` and `p` |
| StrategyMca.BuyEnterBetween | src/main/strategy_mca.cpp:282-285 | after a finite buy into a positive holding, `ep / newAsset` lies between the old average price and the fill price |
| StrategyMca.FillBuyAverages | src/main/strategy_mca.cpp:282-285 | the same, for the successor state |
| StrategyMca.OnTradeSellKeepsEnter | src/main/strategy_mca.cpp:284-285 | a partial sell scales `ep` with the holdings, so the entry price stays |
| StrategyMca.FillSellKeepsEnter | src/main/strategy_mca.cpp:284-285 | for the successor state, a partial sell keeps `ep / assets` and lowers the holdings by the sale |
| StrategyMca.OnTradeSellAddsProceeds | src/main/strategy_mca.cpp:267-293 | a finite sell from a finite state holding something sets currency to `min(budget, currency - tradePrice * tradeSize)`, holdings to `max(0, assets + tradeSize)` and `ep` to `ep / assets` times the new holdings |
| StrategyMca.OnTradeSellReportsProfit | src/main/strategy_mca.cpp:283-292 | a finite sell reports `(tradePrice - enter) * -tradeSize` as profit, never a loss at or above the entry price |
| StrategyMca.SaleProfitOfSell | src/main/strategy_mca.cpp:283 | the same for the reported profit of a counted sale |
| StrategyMca.OnTradeSetsGridStart | src/main/strategy_mca.cpp:274-293 | the emergency grid starts at the fill price exactly when currency is below 70% of the budget, and is 0 otherwise |
| StrategyMca.SellAllClearsEnter | src/main/strategy_mca.cpp:284-292 | selling everything zeroes `ep` and holdings, the entry price becomes NaN, and the report's neutral price is the fill price |
| StrategyMca.SellFromEmptyInvalidates | src/main/strategy_mca.cpp:284 | a sell recorded with no holdings makes `ep` NaN and the strategy invalid |
| StrategyMca.FillSellFromNothing | src/main/strategy_mca.cpp:284 | filling a sell with no holdings makes `ep` NaN and the successor invalid |
| StrategyMca.SellFromNothingPaysNaN | src/main/strategy_mca.cpp:284 | `(ep / 0) * 0` is NaN for a non-negative paid sum |
| StrategyMca.OnTradeKeepsValid | src/main/strategy_mca.cpp:282-293 | finite fills at a positive price keep a valid strategy valid, unless selling from nothing |
| StrategyMca.FillSellKeepsPaidSum | src/main/strategy_mca.cpp:284 | a sell keeps `ep` non-negative |
| StrategyMca.SellKeepsPaidSum | src/main/strategy_mca.cpp:284 | scaling a non-negative paid sum to a non-negative holding after a sell keeps it non-negative |
| StrategyMca.FillBuyKeepsPaidSum | src/main/strategy_mca.cpp:282-284 | a buy at a positive price keeps `ep` non-negative |
| StrategyMca.ExportState | src/main/strategy_mca.cpp:324-335 | exports exactly the seven field names |
| StrategyMca.ImportState | src/main/strategy_mca.cpp:297-308 | keeps the configuration; the fields the .cpp does not use take their defaults |
| StrategyMca.ImportExportRoundTrip | src/main/strategy_mca.cpp:297-335 | importing an export gives back all seven fields, and the whole state when its other fields hold defaults |
| StrategyMca.ExportImportRoundTrip | src/main/strategy_mca.cpp:297-335 | exporting an import of a map with the seven names gives back the map |
| StrategyMca.EmptyImportIsInvalid | src/main/strategy_mca.cpp:297-322 | an import with no fields gives an invalid strategy |
| StrategyMca.OnIdle | src/main/strategy_mca.cpp:405-410 | the identity on a valid strategy; on any invalid one, `init` from the ticker's last price and the reported holdings; any success is valid and keeps the configuration |
| StrategyMca.OnIdleIdempotent | src/main/strategy_mca.cpp:405-410 | a second idle call changes nothing |
| StrategyMca.Reset | src/main/strategy_mca.cpp:412-414 | keeps the configuration; the state is the default one, invalid, with NaN entry price |
| StrategyMca.ResetThenIdleInitialises | src/main/strategy_mca.cpp:405-414 | after `reset`, `onIdle` is exactly `init` from the ticker's last price |
| StrategyMca.GetCenterPrice | src/main/strategy_mca.cpp:341-365 | the result is a finite non-zero entry price, the positive last trade price, or the caller's price; with a positive last trade price it is the entry price or that price |
| StrategyMca.CenterIsEnterWhenHolding | src/main/strategy_mca.cpp:349-356 | holding at least 1% of the budget's worth, the center is the entry price |
| StrategyMca.CenterIsLastPriceWhenLight | src/main/strategy_mca.cpp:341-356 | after a trade at a positive price, holding less than 1% of the budget's worth at that price makes the center that last trade price, whatever the entry price |
| StrategyMca.CalcSafeRange | src/main/strategy_mca.cpp:310-318 | always `[0, +inf)` |
| StrategyPile.CurvesPositive | src/main/strategy_pile.cpp:37-43 | for positive ratio, scale and price, the position and budget curves are positive |
| StrategyPile.CurrencyIsBudgetLessPosition | src/main/strategy_pile.cpp:41-55 | the currency curve is the budget less the value of the position |
| StrategyPile.IsValid | src/main/strategy_pile.cpp:134-136 | valid iff budget, scale, last price and ratio are all positive, NaN failing |
| StrategyPile.Init | src/main/strategy_pile.cpp:17-35 | asks for assets iff the ratio is at most 0.001, for currency iff above 0.999; a success is valid with ratio in (0.001, 0.999], last price = price, position = assets, berror 0, budget on the curve |
| StrategyPile.InitPositionIsAssets | src/main/strategy_pile.cpp:23-24 | after `init` the curve's position at the price is exactly the holdings |
| StrategyPile.InitSucceedsIff | src/main/strategy_pile.cpp:17-35 | for finite inputs `init` succeeds iff holdings are positive and their share of the budget is in (0.001, 0.999] |
| StrategyPile.InitAllInAssetsNeedsCurrency | src/main/strategy_pile.cpp:22 | an account wholly in assets is refused for lack of currency |
| StrategyPile.InitHalfInAssets | src/main/strategy_pile.cpp:18-32 | half the account in assets initialises with ratio 0.5 |
| StrategyPile.InitWithoutAssetsNeedsAssets | src/main/strategy_pile.cpp:21 | no assets at all is refused for lack of assets |
| StrategyPile.NoAccumReportsAll | src/main/strategy_pile.cpp:62-71 | with no accumulation configured, the whole extra profit is reported and nothing is accumulated |
| StrategyPile.ZeroShareReportsAll | src/main/strategy_pile.cpp:68-70 | a zero share splits a finite extra profit into all profit and no assets |
| StrategyPile.SplitExtra | src/main/strategy_pile.cpp:68-70 | on finite numbers, the profit share is `(1 - k) * e`, the asset share is worth `k * e` at the price, and together they are worth `e` |
| StrategyPile.AccumSplitsExtra | src/main/strategy_pile.cpp:62-71 | `normp + accum * price` is exactly the extra profit, weighted `1 - accum` and `accum` |
| StrategyPile.GetNewOrder | src/main/strategy_pile.cpp:73-82 | no price override and no alert |
| StrategyPile.OrderReachesTarget | src/main/strategy_pile.cpp:77-81 | filling the order leaves the curve's position plus the accumulated assets |
| StrategyPile.OnTrade | src/main/strategy_pile.cpp:84-102 | fails iff the strategy is invalid and `init` from the pre-trade holdings fails; any success keeps the configuration, sets the last price to the trade price, the budget on the curve there and `berror` to the position's deviation from the curve; for a valid strategy it also keeps ratio and scale, sets the position to the holdings less the accumulated assets and reports `calcAccum`'s split; the recursion after re-init terminates |
| StrategyPile.SubCommutes | src/main/strategy_pile.cpp:93-98 | `(a - b) - c == (a - c) - b` for all doubles, so `berror` is the deviation of the position from the curve |
| StrategyPile.OnTradeInvalidReinitialisesOnce | src/main/strategy_pile.cpp:87-89 | an invalid strategy is initialised from the pre-trade holdings, and the result is valid and traded once |
| StrategyPile.OnTradeKeepsValid | src/main/strategy_pile.cpp:91-99 | a trade at a positive price keeps a valid strategy valid |
| StrategyPile.CalcSafeRange | src/main/strategy_pile.cpp:116-132 | max is `+inf` iff the curve's position is not above the holdings, else the equilibrium price; with the currency plus the worth of any holdings above the curve's position as what is available, min is 0 iff the curve's currency is not above that, else the price at which the curve would have spent the shortfall |
| StrategyPile.CoveredPositionIsUnbounded | src/main/strategy_pile.cpp:116-132 | holding the curve's position and currency gives `[0, +inf)` |
| StrategyPile.ExportState | src/main/strategy_pile.cpp:138-147 | exports exactly the six field names |
| StrategyPile.ImportState | src/main/strategy_pile.cpp:104-114 | keeps the configuration; a missing ratio reads as 0, so the strategy is invalid |
| StrategyPile.ImportExportRoundTrip | src/main/strategy_pile.cpp:104-147 | importing an export gives back all six fields |
| StrategyPile.ExportImportRoundTrip | src/main/strategy_pile.cpp:104-147 | exporting an import of a map with the six names gives back the map |
| StrategyPile.OnIdle | src/main/strategy_pile.cpp:185-190 | the identity on a valid strategy; on an invalid one exactly `init` from the ticker's last price and the reported holdings, failures included; any success is valid, keeps the configuration, and an initialised one starts at the ticker price with the holdings |
| StrategyPile.OnIdleIdempotent | src/main/strategy_pile.cpp:185-190 | a second idle call changes nothing |
| StrategyPile.InitialPositionWorthShare | src/main/strategy_pile.cpp:157-160 | the initial position is worth the configured share of the budget |
| NameOrder.Compare | src/imtjson/src/imtjson/objectValue.cpp:31 | negative, zero, positive exactly as `a` sorts before, equals, or sorts after `b` |
| NameOrder.LessIrreflexive | src/imtjson/src/imtjson/objectValue.cpp:31 | no name sorts before itself |
| NameOrder.LessTransitive | src/imtjson/src/imtjson/objectValue.cpp:31 | the name order is transitive |
| NameOrder.LessTotal | src/imtjson/src/imtjson/objectValue.cpp:31 | any two names are equal or ordered |
| NameOrder.LessAsymmetric | src/imtjson/src/imtjson/objectValue.cpp:31 | no two names sort before each other |
| ObjectTable.InsertPermutes | src/imtjson/src/imtjson/objectValue.cpp:47-49 | one insertion step only adds the entry |
| ObjectTable.InsertSorted | src/imtjson/src/imtjson/objectValue.cpp:47-49 | an insertion step keeps a table sorted |
| ObjectTable.InsertNamed | src/imtjson/src/imtjson/objectValue.cpp:47-49 | an insertion step puts the entry after all entries of the same name |
| ObjectTable.SortSorted | src/imtjson/src/imtjson/objectValue.cpp:47-49 | the stable sort orders by name |
| ObjectTable.SortPermutes | src/imtjson/src/imtjson/objectValue.cpp:47-49 | the stable sort is a permutation |
| ObjectTable.SortStable | src/imtjson/src/imtjson/objectValue.cpp:47-49 | the stable sort keeps the order of the entries under each name |
| ObjectTable.HeadBelowRest | src/imtjson/src/imtjson/objectValue.cpp:51-55 | in a sorted table whose first two names differ, every later name sorts after the first |
| ObjectTable.KeepLastNamed | src/imtjson/src/imtjson/objectValue.cpp:50-55 | on a sorted table the `remove_if` pass keeps exactly the last entry under each name |
| ObjectTable.KeepLastStrictlySorted | src/imtjson/src/imtjson/objectValue.cpp:50-55 | on a sorted table what is kept has strictly increasing names |
| ObjectTable.DistinctCount | src/imtjson/src/imtjson/objectValue.cpp:56-59 | a table with strictly increasing names has as many entries as names |
| ObjectTable.NormalizeStrictlySorted | src/imtjson/src/imtjson/objectValue.cpp:46-60 | after `sort`, names are strictly increasing: no duplicates |
| ObjectTable.NormalizeLastWins | src/imtjson/src/imtjson/objectValue.cpp:46-60 | after `sort`, each name holds exactly the entry written last under it |
| ObjectTable.NormalizeKeepsNames | src/imtjson/src/imtjson/objectValue.cpp:46-60 | `sort` drops only duplicates: the set of names is unchanged |
| ObjectTable.NormalizeSize | src/imtjson/src/imtjson/objectValue.cpp:56-59 | after `sort` the size is the number of distinct names, at most the old size |
| ObjectTable.NormalizeStrictlySortedIsIdentity | src/imtjson/src/imtjson/objectValue.cpp:46-60 | a table with strictly increasing names is left unchanged |
| ObjectTable.SortedBelow | src/imtjson/src/imtjson/objectValue.cpp:32-34 | a name above the middle entry is above every entry up to it |
| ObjectTable.SortedAbove | src/imtjson/src/imtjson/objectValue.cpp:35-37 | a name below the middle entry is below every entry from it on |
| ObjectTable.NormalizedLookup | src/imtjson/src/imtjson/objectValue.cpp:20-60 | any entry found in a sorted table is the last one written under its name |
| Json.ObjectValue.constructor | src/imtjson/src/imtjson/objectValue.cpp:62-65 | an empty table with the requested capacity |
| Json.ObjectValue.Size | src/imtjson/src/imtjson/objectValue.cpp:9-12 | the number of members |
| Json.ObjectValue.ItemAtIndex | src/imtjson/src/imtjson/objectValue.cpp:14-18 | member `index` when `index < size()`, nothing otherwise |
| Json.ObjectValue.FindSorted | src/imtjson/src/imtjson/objectValue.cpp:25-43 | a result carries the name and is a member; on a sorted table nothing is found only when no member has the name |
| Json.ObjectValue.Member | src/imtjson/src/imtjson/objectValue.cpp:20-24 | a value found is stored under the name; on a sorted table it is undefined only when no member has the name |
| Json.ObjectValue.OpenSlot | src/imtjson/src/imtjson/objectValue.cpp:47-49 | the members from the returned slot up to `i` move one slot right and all sort after the member at `i`; the member before the slot does not; everything else is unchanged |
| Json.InsertSplit | src/imtjson/src/imtjson/objectValue.cpp:47-49 | placing an entry after the last entry that does not sort after it, and before the rest, is exactly the stable insertion step |
| Json.SortPrefixStep | src/imtjson/src/imtjson/objectValue.cpp:47-49 | stable-sorting one more entry inserts it into the sorted prefix |
| Json.ObjectValue.InsertAt | src/imtjson/src/imtjson/objectValue.cpp:47-49 | one insertion step of the stable sort, the rest of the table unchanged |
| Json.ObjectValue.StableSortByName | src/imtjson/src/imtjson/objectValue.cpp:47-49 | the members become `SortByName` of the old ones |
| Json.KeptThenRest | src/imtjson/src/imtjson/objectValue.cpp:50-55 | what the `remove_if` pass has kept of the first `i` entries, followed by `KeepLast` of the rest, is `KeepLast` of the whole table |
| Json.ObjectValue.RemoveShadowed | src/imtjson/src/imtjson/objectValue.cpp:50-55 | the front of the buffer becomes `KeepLast` of the members, in order |
| Json.ObjectValue.Sort | src/imtjson/src/imtjson/objectValue.cpp:46-60 | the members become `Normalize` of the old ones: strictly increasing names, the same names, one per name; the diff flag stays |
| Json.ObjectValue.Assign | src/imtjson/src/imtjson/objectValue.cpp:73-77 | the members and diff flag of the other object; the other object is not changed |
| Json.ObjectValue.Clone | src/imtjson/src/imtjson/objectValue.cpp:67-71 | a new object with capacity equal to the size, the same members and the same diff flag |

## Left out

- Logging (`logInfo`) is output only and is not modelled.
- Doubles are exact reals. Rounding, overflow to infinity, underflow and the sign of zero are not modelled. A division by zero gives `+inf`, `-inf` or NaN by the sign of the dividend, as for `+0`.
- `std::sin` and `std::pow` are parameters. Only `PowPositive` is ever assumed about `pow`, as a lemma hypothesis. No property of the strength curves or of `calcEquilibrium` as an inverse of `calcPosition` is claimed.
- JSON encoding in `exportState`/`importState` is a map from field names to numbers. A missing field reads as 0, as `getNumber` of an undefined value does; that code is not part of this model.
- `dumpStatePretty` in both strategies is diagnostic output. In `Strategy_Mca` it lacks a comma and does not compile as written.
- `Strategy_Mca::getID`, `calcInitialPosition`, `getBudgetInfo`, `getEquilibrium`, `calcCurrencyAllocation` and `calcChart` are one-line projections for the user interface. They return a constant or a state field, and are not modelled.
- `Strategy_Pile::calcPriceFromBudget`, `getID`, `getCenterPrice`, `getEquilibrium`, `getBudgetInfo`, `calcCurrencyAllocation` and `calcChart` are projections of the curves for the user interface, and are not modelled.
- `Strategy_Pile::reset` is not modelled: the default `State` it builds is declared in strategy_pile.h, which is not part of this model.
- `Strategy_Mca::State`: the .cpp builds and reads a seventh number, `ebPriceEnter`, that strategy_mca.h does not declare. The model follows the .cpp. The .cpp's `init` lists only five numbers: `last_price` then takes its header default 0, and the model also takes `ebPriceEnter` as 0 there, a default the header cannot give because it does not declare the member. The header's `alerts`, `history` and `sentiment` are kept at their defaults, because the .cpp never reads or writes them. `minPnl` and `useSentiment` are carried in `Config` but used nowhere.
- `MarketInfo` and `Ticker` carry only the fields the strategies read. The robot's interfaces `IStrategy` and `IStockApi` are not part of this model.
- `ObjectValue::create`, `AllocInfo`, the `RefCntPtr` counting and the `Container` base class are memory management and are not modelled. `pop_back` and `Container::operator=` come from `Container`, which is not part of this model:
  - `pop_back` is modelled as lowering `curSize` by one;
  - `operator=` is modelled as copying the members into this object's buffer.
- Json.ObjectValue.Assign: requires the buffer to hold the other object's members. The capacity handling of `Container::operator=` is not visible.
- Json.ObjectValue.constructor: the diff flag of a new object starts false. The `ObjectValue` constructor is declared in a header that is not part of this model.
- `NameOrder.Less` orders names by Dafny characters (Unicode scalar values). `std::string_view::compare` orders bytes as `unsigned char`. The two orders agree on names in valid UTF-8; names with other byte sequences are not modelled.
- `std::stable_sort` is modelled as an insertion sort. The comparisons it makes differ from the library's, but a stable sort has only one result, so the sorted table is the same. `std::remove_if` is modelled as its standard forward compaction.
- Json.ObjectValue.FindSorted and Json.ObjectValue.Member: return the entry rather than a pointer into the buffer.
- `Strategy_Pile::calcInitialPosition` (`StrategyPile.CalcInitialPosition`) is stated through `StrategyPile.InitialPositionWorthShare`, which needs finite inputs.
