/** The averaging ("mathematical cost averaging") strategy: it keeps one blended
    entry price and a fixed budget, buys more as the price falls below the entry
    price and sells as it rises above it, and never sells at a loss. */
module StrategyMca {
  import opened Wrappers
  import opened Float64
  import opened Market
  import opened StrategyMcaTypes

  /** `init` throws when the state it builds fails `isValid`. */
  datatype InitError = ValidationFailed

  /** `onTrade` throws when called on a strategy that is not valid. */
  datatype TradeError = NotInitialized

  /** The pair `calculateSize` returns. */
  datatype SizeAlert = SizeAlert(size: Double, alert: bool)

  /** The successor `onTrade` returns together with its report. */
  datatype Traded = Traded(report: TradeReport, next: Mca)

  const Pi: Double := Num(3.141592653589793)

  // ---------------------------------------------------------------- validity

  /** `isValid`: the paid sum is not negative and the budget is positive. NaN
      in either field fails the test; an infinite budget passes it. */
  function IsValid(st: State): (ok: bool)
    ensures ok <==> (st.ep.PosInf? || AtLeast(st.ep, 0.0)) && (st.budget.PosInf? || Above(st.budget, 0.0))
  {
    Ge(st.ep, Zero) && !IsNaN(st.budget) && Gt(st.budget, Zero)
  }

  /** `minSize`: the largest of the exchange's minimum size, the minimum volume
      converted to assets at this price, and the asset step. */
  function MinSize(minfo: MarketInfo, price: Double): (r: Double)
    ensures r == minfo.minSize || r == Div(minfo.minVolume, price) || r == minfo.assetStep
    ensures !minfo.minSize.NaN? && !Div(minfo.minVolume, price).NaN? && !minfo.assetStep.NaN? ==>
              Ge(r, minfo.minSize) && Ge(r, Div(minfo.minVolume, price)) && Ge(r, minfo.assetStep)
  {
    Max(Max(minfo.minSize, Div(minfo.minVolume, price)), minfo.assetStep)
  }

  // ------------------------------------------------------ calculateSize parts

  /** effectiveAssets: the holdings both the state and the caller agree on,
      floored at zero. Never NaN, never negative. */
  function EffectiveAssets(held: Double, reported: Double): (r: Double)
    ensures r == Zero || Gt(r, Zero)
    ensures !held.NaN? && !reported.NaN? && r != Zero ==> Le(r, held) && Le(r, reported)
    ensures !reported.NaN? && Gt(held, Zero) && Gt(reported, Zero) ==> r == held || r == reported
    ensures held.Num? && reported.Num? ==> r.Num? && r.x >= 0.0
  {
    Max(Zero, Min(held, reported))
  }

  /** availableCurrency: the state's currency floored at zero; NaN reads as 0. */
  function AvailableCurrency(currency: Double): (r: Double)
    ensures r == Zero || Gt(r, Zero)
    ensures Gt(currency, Zero) ==> r == currency
    ensures !Gt(currency, Zero) ==> r == Zero
    ensures currency.Num? ==> r.Num? && r.x >= 0.0
  {
    Max(Zero, currency)
  }

  /** The initial bet clamped into [0, 100]; NaN becomes 0. */
  function ClampInitBet(bet: Double): (r: Double)
    ensures AtLeast(r, 0.0) && r.x <= 100.0
    ensures AtLeast(bet, 0.0) && bet.x <= 100.0 ==> r == bet
    ensures Lt(bet, Zero) || bet.NaN? ==> r == Zero
    ensures Gt(bet, Num(100.0)) ==> r == Num(100.0)
  {
    var b1 := if Lt(bet, Zero) then Zero else bet;
    var b2 := if Gt(b1, Num(100.0)) then Num(100.0) else b1;
    if IsNaN(b2) then Zero else b2
  }

  /** A configured strength clamped into [0, 1]; NaN becomes 0. The clamped copy
      only chooses the branch: the formulas use the raw configured value. */
  function ClampStrength(c: Double): (r: Double)
    ensures AtLeast(r, 0.0) && r.x <= 1.0
    ensures AtLeast(c, 0.0) && c.x <= 1.0 ==> r == c
    ensures Le(c, Zero) || c.NaN? ==> r == Zero
    ensures Ge(c, One) ==> r == One
  {
    var c1 := if Eq(c, Zero) || Le(c, Zero) || IsNaN(c) then Zero else c;
    if Eq(c1, One) || Ge(c1, One) then One else c1
  }

  /** The size of the initial bet: that percentage of the budget, in assets. */
  function InitialBet(initBet: Double, budget: Double, price: Double): Double
  {
    Div(Mul(Div(ClampInitBet(initBet), Num(100.0)), budget), price)
  }

  /** The profit of the effective holdings at this price over the entry price. */
  function Pnl(eff: Double, price: Double, enter: Double): Double
  {
    Sub(Mul(eff, price), Mul(eff, enter))
  }

  /** No usable entry price yet, or too little held to trade. */
  predicate IsColdStart(enter: Double, eff: Double, minSize: Double)
  {
    IsNaN(enter) || IsInf(enter) || Lt(eff, minSize)
  }

  /** Cold start: bet the larger of the minimum size and the initial bet, buying
      only; the alert is always raised. */
  function ColdStart(initialBet: Double, minSize: Double, dir: Double): (r: SizeAlert)
    ensures r.alert
    ensures r.size == (if Lt(dir, Zero) then Zero else Max(minSize, initialBet))
  {
    var size := if Gt(initialBet, minSize) then initialBet else minSize;
    SizeAlert(if Lt(dir, Zero) then Zero else size, true)
  }

  /** The relative distance of the price from the entry price, capped at 1. */
  function Distance(enter: Double, price: Double): (d: Double)
    ensures Above(enter, 0.0) && Above(price, 0.0) ==> AtLeast(d, 0.0) && d.x <= 1.0
    ensures Above(enter, 0.0) && Above(price, 0.0) ==> (d == Zero <==> enter == price)
  {
    var d := if Gt(enter, price) then Div(Sub(enter, price), enter)
             else if Lt(enter, price) then Div(Sub(price, enter), price)
             else Zero;
    if Gt(d, One) then One else d
  }

  /** The emergency grid: with less than 70% of the budget left in currency, a
      buy of a tenth of the currency is proposed below 90% of ebPriceEnter and
      then cancelled whenever the price is below ebPriceEnter. At a positive
      price the second test always cancels the first: the grid never buys. */
  function GridSize(ebPriceEnter: Double, price: Double, avail: Double): (size: Double)
    ensures Gt(price, Zero) ==> size == Zero
    ensures avail == Zero || Gt(avail, Zero) ==> !Gt(size, Zero)
  {
    var step := Div(ebPriceEnter, Num(10.0));
    var s := if Lt(price, Sub(ebPriceEnter, step)) then Div(Div(avail, Num(10.0)), price) else Zero;
    if Gt(Sub(ebPriceEnter, step), Sub(price, step)) then Zero else s
  }

  /** How the buy side is sized: martingale (clamped buy strength 1), the
      emergency grid (currency below 70% of the budget), or the sine curve. */
  datatype BuyPlan = Martingale(strength: Double) | Grid(size: Double) | BuyCurve(strength: Double)

  /** How the sell side is sized: sell everything (clamped sell strength 1),
      never sell (clamped sell strength 0), or the shifted sine curve. */
  datatype SellPlan = SellEverything | NeverSell | SellCurve(strength: Double)

  function PlanBuy(lib: MathLib, cfg: Config, budget: Double, ebPriceEnter: Double,
                   dist: Double, price: Double, avail: Double): (p: BuyPlan)
    ensures p.Martingale? <==> Ge(ClampStrength(cfg.buyStrength), One)
    ensures p.Martingale? ==> p.strength == cfg.buyStrength
    ensures p.Grid? <==> !p.Martingale? && Lt(avail, Mul(budget, Num(0.7)))
  {
    if Ge(ClampStrength(cfg.buyStrength), One) then Martingale(cfg.buyStrength)
    else if Lt(avail, Mul(budget, Num(0.7))) then Grid(GridSize(ebPriceEnter, price, avail))
    else BuyCurve(Div(lib.sin(lib.pow(dist, Num(2.0))), lib.pow(Sub(One, cfg.buyStrength), Num(4.0))))
  }

  function PlanSell(lib: MathLib, cfg: Config, dist: Double): (p: SellPlan)
    ensures p.SellEverything? <==> Ge(ClampStrength(cfg.sellStrength), One)
    ensures p.NeverSell? <==> Le(ClampStrength(cfg.sellStrength), Zero)
  {
    var c := ClampStrength(cfg.sellStrength);
    if Ge(c, One) then SellEverything
    else if Le(c, Zero) then NeverSell
    else SellCurve(Add(Div(lib.sin(Add(lib.pow(dist, Num(2.0)), Pi)), lib.pow(Sub(One, cfg.sellStrength), Num(4.0))), One))
  }

  /** NaN strengths are read as 0. */
  function NotNaN(a: Double): (r: Double)
    ensures !r.NaN?
    ensures !a.NaN? ==> r == a
  {
    if IsNaN(a) then Zero else a
  }

  function BuyStrength(p: BuyPlan): Double
  {
    NotNaN(match p
           case Martingale(s) => s
           case Grid(_) => Zero
           case BuyCurve(s) => s)
  }

  function SellStrength(p: SellPlan): Double
  {
    NotNaN(match p
           case SellEverything => One
           case NeverSell => Zero
           case SellCurve(s) => s)
  }

  /** Martingale: buy the held amount times the strength, no more than the
      currency pays for. */
  function MartingaleSize(eff: Double, strength: Double, price: Double, avail: Double): Double
  {
    var s := Mul(eff, strength);
    if Gt(Mul(s, price), avail) then Div(avail, price) else s
  }

  /** Selling everything: the whole effective holding, or nothing below the
      minimum size or at a loss. */
  function SellAll(eff: Double, minSize: Double, pnl: Double, dir: Double): (r: SizeAlert)
    ensures r.size == Zero || r.size == Neg(eff)
    ensures r.size != Zero ==> !Lt(eff, minSize)
    ensures Lt(pnl, Zero) && Lt(dir, Zero) ==> r == SizeAlert(Zero, false)
  {
    var s := if Lt(eff, minSize) then Zero else eff;
    var s2 := Neg(s);  // size * -1
    if Lt(pnl, Zero) && Lt(dir, Zero) then SizeAlert(Zero, false) else SizeAlert(s2, true)
  }

  /** The buy region: top up to the curve's target holding, no more than the
      currency pays for, nothing below the minimum size. In the emergency grid
      the grid's size is used instead of the curve. */
  function BuyRegion(gridSize: Double, grid: bool, holdBuy: Double, eff: Double,
                     price: Double, avail: Double, minSize: Double): SizeAlert
  {
    BuyShortfall(if grid then gridSize else Sub(holdBuy, eff), price, avail, minSize)
  }

  /** The buy region once the amount wanted is known. */
  function BuyShortfall(s1: Double, price: Double, avail: Double, minSize: Double): SizeAlert
  {
    var s2 := if Lt(s1, Zero) then Zero else s1;
    var alert := !Lt(s1, Zero);
    var s3 := if Gt(Mul(s2, price), avail) then Div(avail, price) else s2;
    SizeAlert(if Lt(s3, minSize) then Zero else s3, alert)
  }

  /** The sell region: sell down to the curve's target holding, never more than
      is held, nothing below the minimum size. */
  function SellRegion(holdSell: Double, eff: Double, minSize: Double): SizeAlert
  {
    SellShortfall(Sub(holdSell, eff), eff, minSize)
  }

  /** The sell region once the gap between the target and the holdings is known. */
  function SellShortfall(s1: Double, eff: Double, minSize: Double): SizeAlert
  {
    var s2 := if Lt(s1, Zero) then eff else s1;
    var s3 := if Lt(s2, minSize) then Zero else s2;
    var s4 := if Gt(s3, eff) then Zero else s3;
    SizeAlert(Neg(s4), !Gt(s3, eff))  // size * -1
  }

  /** A finite, non-negative buy that `avail` currency pays for at `price`. */
  predicate Affordable(size: Double, price: Double, avail: Double)
  {
    size.Num? && price.Num? && avail.Num? && size.x >= 0.0 && size.x * price.x <= avail.x
  }

  /** Capping a buy at `avail / price` assets spends exactly `avail`. */
  lemma CapSpendsAvail(avail: real, price: real)
    requires price != 0.0
    ensures (avail / price) * price == avail
  {
  }

  /** The martingale buy is a finite non-negative amount that the available
      currency pays for. */
  lemma MartingaleWithinCurrency(eff: Double, strength: Double, price: Double, avail: Double)
    requires Above(price, 0.0) && AtLeast(avail, 0.0) && AtLeast(eff, 0.0) && AtLeast(strength, 0.0)
    ensures var size := MartingaleSize(eff, strength, price, avail);
      size.Num? && size.x >= 0.0 && size.x * price.x <= avail.x
  {
    var s := Mul(eff, strength);
    assert s == Num(eff.x * strength.x);
    assert s.x >= 0.0;
    if Gt(Mul(s, price), avail) {
      CapSpendsAvail(avail.x, price.x);
      assert Div(avail, price) == Num(avail.x / price.x);
    } else {
      assert Mul(s, price) == Num(s.x * price.x);
    }
  }

  /** With finite holdings, a positive price and a target that is a number or
      an infinity, the buy region buys a finite non-negative amount that the
      currency pays for, and a non-zero buy is at least the minimum size. */
  lemma BuyRegionWithinCurrency(gridSize: Double, grid: bool, holdBuy: Double, eff: Double,
                                price: Double, avail: Double, minSize: Double)
    requires Above(price, 0.0) && AtLeast(avail, 0.0) && eff.Num? && !holdBuy.NaN?
    requires grid ==> gridSize == Zero
    ensures var r := BuyRegion(gridSize, grid, holdBuy, eff, price, avail, minSize);
      r.size.Num? && r.size.x >= 0.0 && r.size.x * price.x <= avail.x &&
      (r.size == Zero || !Lt(r.size, minSize))
  {
    var s1 := if grid then gridSize else Sub(holdBuy, eff);
    assert !s1.NaN?;
    BuyShortfallWithinCurrency(s1, price, avail, minSize);
  }

  /** The buy region, for any wanted amount that is not NaN: an affordable
      buy that is 0 or at least the minimum size. */
  lemma BuyShortfallWithinCurrency(s1: Double, price: Double, avail: Double, minSize: Double)
    requires Above(price, 0.0) && AtLeast(avail, 0.0) && !s1.NaN?
    ensures var r := BuyShortfall(s1, price, avail, minSize);
      r.size.Num? && r.size.x >= 0.0 && r.size.x * price.x <= avail.x &&
      (r.size == Zero || !Lt(r.size, minSize))
  {
    var s2 := if Lt(s1, Zero) then Zero else s1;
    assert s2.PosInf? || AtLeast(s2, 0.0);
    var m := Mul(s2, price);
    assert m.PosInf? || m == Num(s2.x * price.x);
    var s3 := if Gt(m, avail) then Div(avail, price) else s2;
    if Gt(m, avail) {
      CapSpendsAvail(avail.x, price.x);
      assert s3 == Num(avail.x / price.x);
    } else {
      assert s2.Num?;
    }
    assert AtLeast(s3, 0.0) && s3.x * price.x <= avail.x;
  }

  /** With non-negative holdings the sell region never buys, whatever the
      target. */
  lemma SellRegionNeverBuys(holdSell: Double, eff: Double, minSize: Double)
    requires eff == Zero || Gt(eff, Zero)
    ensures !Gt(SellRegion(holdSell, eff, minSize).size, Zero)
  {
    SellShortfallNeverBuys(Sub(holdSell, eff), eff, minSize);
  }

  /** The sell region never buys, for any gap. */
  lemma SellShortfallNeverBuys(s1: Double, eff: Double, minSize: Double)
    requires eff == Zero || Gt(eff, Zero)
    ensures !Gt(SellShortfall(s1, eff, minSize).size, Zero)
  {
    NotBelowZero(s1);
  }

  /** Zero, a positive number, +inf or NaN: what `!(x < 0)` leaves. */
  predicate NonNegative(a: Double)
  {
    a.NaN? || a.PosInf? || AtLeast(a, 0.0)
  }

  lemma NotBelowZero(a: Double)
    ensures !Lt(a, Zero) ==> NonNegative(a)
  {
  }

  /** With finite holdings and a target that is a number or an infinity, the
      sell region sells between nothing and the whole holding, and a non-zero
      sale is at least the minimum size. */
  lemma SellRegionWithinHoldings(holdSell: Double, eff: Double, minSize: Double)
    requires AtLeast(eff, 0.0) && minSize.Num? && !holdSell.NaN?
    ensures var r := SellRegion(holdSell, eff, minSize);
      r.size.Num? && -eff.x <= r.size.x <= 0.0 && (r.size.x == 0.0 || -r.size.x >= minSize.x)
  {
    assert !Sub(holdSell, eff).NaN?;
    SellShortfallWithinHoldings(Sub(holdSell, eff), eff, minSize);
  }

  /** The sell region, for any gap that is not NaN: a sale of at most the
      holdings that is 0 or at least the minimum size. */
  lemma SellShortfallWithinHoldings(s1: Double, eff: Double, minSize: Double)
    requires AtLeast(eff, 0.0) && minSize.Num? && !s1.NaN?
    ensures var r := SellShortfall(s1, eff, minSize);
      r.size.Num? && -eff.x <= r.size.x <= 0.0 && (r.size.x == 0.0 || -r.size.x >= minSize.x)
  {
    var s2 := if Lt(s1, Zero) then eff else s1;
    assert s2.PosInf? || AtLeast(s2, 0.0);
    var s3 := if Lt(s2, minSize) then Zero else s2;
    assert s3 == Zero || (!Lt(s3, minSize) && (s3.PosInf? || AtLeast(s3, 0.0)));
    var s4 := if Gt(s3, eff) then Zero else s3;
    assert s4 == Zero || (AtLeast(s4, minSize.x) && s4.x <= eff.x);
  }

  /** The holding a curve strength asks for: that share of the budget, in
      assets at this price. */
  function Hold(budget: Double, strength: Double, price: Double): (h: Double)
    ensures Above(budget, 0.0) && !strength.NaN? && Above(price, 0.0) ==> !h.NaN?
  {
    Div(Mul(budget, strength), price)
  }

  /** The decision once an entry price exists and the probe is not in the
      opposite direction: the martingale, never-sell and sell-everything
      shortcuts, then the buy or sell region and the no-loss guard. */
  function Position(lib: MathLib, cfg: Config, st: State, price: Double, dir: Double,
                    minSize: Double, eff: Double, avail: Double, pnl: Double): SizeAlert
  {
    var dist := Distance(st.enter, price);
    var buy := PlanBuy(lib, cfg, st.budget, st.ebPriceEnter, dist, price, avail);
    var sell := PlanSell(lib, cfg, dist);
    Decide(st.enter, price, dir, buy, sell, Hold(st.budget, BuyStrength(buy), price),
           Hold(st.budget, SellStrength(sell), price), minSize, eff, avail, pnl)
  }

  /** The decision for given buy and sell plans and the holdings they target.
      Every test of this block in `calculateSize` asks for a buy probe
      (`dir > 0`) or for a sell probe (`dir < 0`), so it is written here split
      by the sign of `dir`; a probe in neither direction gets the grid size. */
  function Decide(enter: Double, price: Double, dir: Double, buy: BuyPlan, sell: SellPlan,
                  holdBuy: Double, holdSell: Double, minSize: Double, eff: Double,
                  avail: Double, pnl: Double): SizeAlert
  {
    if Gt(dir, Zero) then DecideBuy(enter, price, buy, holdBuy, minSize, eff, avail)
    else if Lt(dir, Zero) then DecideSell(enter, price, dir, buy, sell, holdSell, minSize, eff, pnl)
    else SizeAlert(GridOrZero(buy), true)
  }

  /** The emergency grid's size, or 0 outside the grid. */
  function GridOrZero(buy: BuyPlan): Double
  {
    if buy.Grid? then buy.size else Zero
  }

  /** A buy probe: the martingale below the entry price, else the buy region
      below the entry price, else the grid size. */
  function DecideBuy(enter: Double, price: Double, buy: BuyPlan, holdBuy: Double, minSize: Double,
                     eff: Double, avail: Double): SizeAlert
  {
    if Gt(enter, price) && buy.Martingale? then
      SizeAlert(MartingaleSize(eff, BuyStrength(buy), price, avail), true)
    else if Gt(enter, price) then
      BuyRegion(GridOrZero(buy), buy.Grid?, holdBuy, eff, price, avail, minSize)
    else
      SizeAlert(GridOrZero(buy), true)
  }

  /** A sell probe: never sell, else sell everything above the entry price,
      else nothing at a loss, else the sell region above the entry price, else
      the grid size. */
  function DecideSell(enter: Double, price: Double, dir: Double, buy: BuyPlan, sell: SellPlan,
                      holdSell: Double, minSize: Double, eff: Double, pnl: Double): SizeAlert
  {
    if sell.NeverSell? then
      SizeAlert(Zero, true)
    else if Lt(enter, price) && sell.SellEverything? then
      SellAll(eff, minSize, pnl, dir)
    else if Lt(pnl, Zero) then
      SizeAlert(Zero, false)
    else if Lt(enter, price) then
      SellRegion(holdSell, eff, minSize)
    else
      SizeAlert(GridOrZero(buy), true)
  }

  /** `calculateSize`: the signed order size (+ buy, - sell, 0 none) for a probe
      in direction `dir` at `price`, and whether to raise the alert. */
  function CalculateSize(lib: MathLib, cfg: Config, st: State, price: Double, assets: Double,
                         dir: Double, minSize: Double): SizeAlert
  {
    var eff := EffectiveAssets(st.assets, assets);
    var avail := AvailableCurrency(st.currency);
    var initialBet := InitialBet(cfg.initBet, st.budget, price);
    var pnl := Pnl(eff, price, st.enter);
    if IsColdStart(st.enter, eff, minSize) then ColdStart(initialBet, minSize, dir)
    else if Gt(dir, Zero) && Lt(st.enter, price) then SizeAlert(Zero, false)
    else if Lt(dir, Zero) && Gt(st.enter, price) then SizeAlert(Zero, false)
    else Position(lib, cfg, st, price, dir, minSize, eff, avail, pnl)
  }

  // ------------------------------------------------- calculateSize properties

  /** Cold start: the alert is raised, a sell probe gets nothing and any other
      probe gets max(minSize, initial bet). */
  lemma ColdStartBetsInitialBet(lib: MathLib, cfg: Config, st: State, price: Double, assets: Double,
                                dir: Double, minSize: Double)
    requires IsColdStart(st.enter, EffectiveAssets(st.assets, assets), minSize)
    ensures var r := CalculateSize(lib, cfg, st, price, assets, dir, minSize);
      r.alert &&
      (Lt(dir, Zero) ==> r.size == Zero) &&
      (!Lt(dir, Zero) ==> r.size == Max(minSize, InitialBet(cfg.initBet, st.budget, price)))
  {
  }

  /** A buy probe above the entry price, or a sell probe below it, is answered
      with no order and no alert. */
  lemma OppositeProbeIsSilent(lib: MathLib, cfg: Config, st: State, price: Double, assets: Double,
                              dir: Double, minSize: Double)
    requires !IsColdStart(st.enter, EffectiveAssets(st.assets, assets), minSize)
    requires (Gt(dir, Zero) && Lt(st.enter, price)) || (Lt(dir, Zero) && Gt(st.enter, price))
    ensures CalculateSize(lib, cfg, st, price, assets, dir, minSize) == SizeAlert(Zero, false)
  {
  }

  /** A sell probe never yields a buy, whatever the inputs. */
  lemma SellProbeNeverBuys(lib: MathLib, cfg: Config, st: State, price: Double, assets: Double,
                           dir: Double, minSize: Double)
    requires Lt(dir, Zero)
    ensures !Gt(CalculateSize(lib, cfg, st, price, assets, dir, minSize).size, Zero)
  {
    var eff := EffectiveAssets(st.assets, assets);
    if !IsColdStart(st.enter, eff, minSize) && !Gt(st.enter, price) {
      PositionSellNeverBuys(lib, cfg, st, price, dir, minSize, eff, AvailableCurrency(st.currency),
                            Pnl(eff, price, st.enter));
    }
  }

  lemma PositionSellNeverBuys(lib: MathLib, cfg: Config, st: State, price: Double, dir: Double,
                              minSize: Double, eff: Double, avail: Double, pnl: Double)
    requires Lt(dir, Zero)
    requires eff == Zero || Gt(eff, Zero)
    requires avail == Zero || Gt(avail, Zero)
    ensures !Gt(Position(lib, cfg, st, price, dir, minSize, eff, avail, pnl).size, Zero)
  {
    var dist := Distance(st.enter, price);
    var buy := PlanBuy(lib, cfg, st.budget, st.ebPriceEnter, dist, price, avail);
    var sell := PlanSell(lib, cfg, dist);
    DecideSellNeverBuys(st.enter, price, dir, buy, sell, Hold(st.budget, BuyStrength(buy), price),
                        Hold(st.budget, SellStrength(sell), price), minSize, eff, avail, pnl);
  }

  lemma DecideSellNeverBuys(enter: Double, price: Double, dir: Double, buy: BuyPlan, sell: SellPlan,
                            holdBuy: Double, holdSell: Double, minSize: Double, eff: Double,
                            avail: Double, pnl: Double)
    requires Lt(dir, Zero)
    requires eff == Zero || Gt(eff, Zero)
    requires buy.Grid? ==> !Gt(buy.size, Zero)
    ensures !Gt(Decide(enter, price, dir, buy, sell, holdBuy, holdSell, minSize, eff, avail, pnl).size, Zero)
  {
    assert !Gt(dir, Zero);
    DecideSellOnlySells(enter, price, dir, buy, sell, holdSell, minSize, eff, pnl);
  }

  /** The sell side of the branch chain never buys. */
  lemma DecideSellOnlySells(enter: Double, price: Double, dir: Double, buy: BuyPlan, sell: SellPlan,
                            holdSell: Double, minSize: Double, eff: Double, pnl: Double)
    requires eff == Zero || Gt(eff, Zero)
    requires buy.Grid? ==> !Gt(buy.size, Zero)
    ensures !Gt(DecideSell(enter, price, dir, buy, sell, holdSell, minSize, eff, pnl).size, Zero)
  {
    if !sell.NeverSell? && Lt(enter, price) {
      if sell.SellEverything? {
        SellAllNeverBuys(eff, minSize, pnl, dir);
      } else if !Lt(pnl, Zero) {
        SellRegionNeverBuys(holdSell, eff, minSize);
      }
    }
  }

  /** Selling everything never buys. */
  lemma SellAllNeverBuys(eff: Double, minSize: Double, pnl: Double, dir: Double)
    requires eff == Zero || Gt(eff, Zero)
    ensures !Gt(SellAll(eff, minSize, pnl, dir).size, Zero)
  {
  }

  /** The strategy never sells at a loss: a sell probe whose holdings show a
      negative profit at this price gets size 0. */
  lemma SellNeverRealisesLoss(lib: MathLib, cfg: Config, st: State, price: Double, assets: Double,
                              dir: Double, minSize: Double)
    requires Lt(dir, Zero)
    requires Lt(Pnl(EffectiveAssets(st.assets, assets), price, st.enter), Zero)
    ensures CalculateSize(lib, cfg, st, price, assets, dir, minSize).size == Zero
  {
  }

  /** Never sell: a clamped sell strength of 0 answers every sell probe with 0. */
  lemma NeverSellConfigNeverSells(lib: MathLib, cfg: Config, st: State, price: Double, assets: Double,
                                  dir: Double, minSize: Double)
    requires Lt(dir, Zero)
    requires Le(cfg.sellStrength, Zero) || cfg.sellStrength.NaN?
    ensures CalculateSize(lib, cfg, st, price, assets, dir, minSize).size == Zero
  {
    var eff := EffectiveAssets(st.assets, assets);
    if !IsColdStart(st.enter, eff, minSize) && !Gt(st.enter, price) {
      PositionNeverSell(lib, cfg, st, price, dir, minSize, eff, AvailableCurrency(st.currency),
                        Pnl(eff, price, st.enter));
    }
  }

  /** A never-sell configuration short-cuts every sell probe to 0. */
  lemma PositionNeverSell(lib: MathLib, cfg: Config, st: State, price: Double, dir: Double,
                          minSize: Double, eff: Double, avail: Double, pnl: Double)
    requires Lt(dir, Zero)
    requires Le(ClampStrength(cfg.sellStrength), Zero)
    ensures Position(lib, cfg, st, price, dir, minSize, eff, avail, pnl).size == Zero
  {
    var dist := Distance(st.enter, price);
    var buy := PlanBuy(lib, cfg, st.budget, st.ebPriceEnter, dist, price, avail);
    var sell := PlanSell(lib, cfg, dist);
    assert sell.NeverSell?;
    assert !Gt(dir, Zero);
    assert Position(lib, cfg, st, price, dir, minSize, eff, avail, pnl)
        == DecideSell(st.enter, price, dir, buy, sell, Hold(st.budget, SellStrength(sell), price), minSize, eff, pnl);
  }

  /** For finite inputs at a positive price, a sell probe sells between nothing
      and the whole effective holding, and a non-zero sale is at least the
      minimum size. */
  lemma SellProbeBounds(lib: MathLib, cfg: Config, st: State, price: Double, assets: Double,
                        dir: Double, minSize: Double)
    requires Lt(dir, Zero)
    requires Above(price, 0.0) && minSize.Num?
    requires Above(st.budget, 0.0) && st.assets.Num? && assets.Num?
    ensures var r := CalculateSize(lib, cfg, st, price, assets, dir, minSize);
      var eff := EffectiveAssets(st.assets, assets);
      r.size.Num? && eff.Num? && -eff.x <= r.size.x <= 0.0 &&
      (r.size.x == 0.0 || -r.size.x >= minSize.x)
  {
    var eff := EffectiveAssets(st.assets, assets);
    if !IsColdStart(st.enter, eff, minSize) && !Gt(st.enter, price) {
      PositionSellBounds(lib, cfg, st, price, dir, minSize, eff, AvailableCurrency(st.currency),
                         Pnl(eff, price, st.enter));
    }
  }

  lemma PositionSellBounds(lib: MathLib, cfg: Config, st: State, price: Double, dir: Double,
                           minSize: Double, eff: Double, avail: Double, pnl: Double)
    requires Lt(dir, Zero)
    requires Above(price, 0.0) && minSize.Num? && Above(st.budget, 0.0) && AtLeast(eff, 0.0)
    requires !Lt(eff, minSize)
    ensures var r := Position(lib, cfg, st, price, dir, minSize, eff, avail, pnl);
      r.size.Num? && -eff.x <= r.size.x <= 0.0 && (r.size.x == 0.0 || -r.size.x >= minSize.x)
  {
    var dist := Distance(st.enter, price);
    var buy := PlanBuy(lib, cfg, st.budget, st.ebPriceEnter, dist, price, avail);
    var sell := PlanSell(lib, cfg, dist);
    DecideSellBounds(st.enter, price, dir, buy, sell, Hold(st.budget, BuyStrength(buy), price),
                     Hold(st.budget, SellStrength(sell), price), minSize, eff, avail, pnl);
  }

  lemma DecideSellBounds(enter: Double, price: Double, dir: Double, buy: BuyPlan, sell: SellPlan,
                         holdBuy: Double, holdSell: Double, minSize: Double, eff: Double,
                         avail: Double, pnl: Double)
    requires Lt(dir, Zero)
    requires minSize.Num? && AtLeast(eff, 0.0) && !Lt(eff, minSize) && !holdSell.NaN?
    requires buy.Grid? ==> buy.size == Zero
    ensures var r := Decide(enter, price, dir, buy, sell, holdBuy, holdSell, minSize, eff, avail, pnl);
      r.size.Num? && -eff.x <= r.size.x <= 0.0 && (r.size.x == 0.0 || -r.size.x >= minSize.x)
  {
    assert !Gt(dir, Zero);
    DecideSellWithinHoldings(enter, price, dir, buy, sell, holdSell, minSize, eff, pnl);
  }

  /** The sell side of the branch chain sells at most the holdings, and a
      non-zero sale is at least the minimum size. */
  lemma DecideSellWithinHoldings(enter: Double, price: Double, dir: Double, buy: BuyPlan, sell: SellPlan,
                                 holdSell: Double, minSize: Double, eff: Double, pnl: Double)
    requires minSize.Num? && AtLeast(eff, 0.0) && !Lt(eff, minSize) && !holdSell.NaN?
    requires buy.Grid? ==> buy.size == Zero
    ensures var r := DecideSell(enter, price, dir, buy, sell, holdSell, minSize, eff, pnl);
      r.size.Num? && -eff.x <= r.size.x <= 0.0 && (r.size.x == 0.0 || -r.size.x >= minSize.x)
  {
    if !sell.NeverSell? && Lt(enter, price) {
      if sell.SellEverything? {
        SellAllWithinHoldings(eff, minSize, pnl, dir);
      } else if !Lt(pnl, Zero) {
        SellRegionWithinHoldings(holdSell, eff, minSize);
      }
    }
  }

  /** Selling everything sells the whole holding or nothing. */
  lemma SellAllWithinHoldings(eff: Double, minSize: Double, pnl: Double, dir: Double)
    requires minSize.Num? && AtLeast(eff, 0.0) && !Lt(eff, minSize)
    ensures var r := SellAll(eff, minSize, pnl, dir);
      r.size.Num? && -eff.x <= r.size.x <= 0.0 && (r.size.x == 0.0 || -r.size.x >= minSize.x)
  {
  }

  /** For finite inputs at a positive price, a buy probe past the cold start
      never buys more than the available currency pays for. */
  lemma BuyProbeWithinCurrency(lib: MathLib, cfg: Config, st: State, price: Double, assets: Double,
                               dir: Double, minSize: Double)
    requires Gt(dir, Zero)
    requires Above(price, 0.0)
    requires Above(st.budget, 0.0) && st.assets.Num? && assets.Num? && st.currency.Num? && cfg.buyStrength.Num?
    requires !IsColdStart(st.enter, EffectiveAssets(st.assets, assets), minSize)
    ensures Affordable(CalculateSize(lib, cfg, st, price, assets, dir, minSize).size, price,
                       AvailableCurrency(st.currency))
  {
    var eff := EffectiveAssets(st.assets, assets);
    if !Lt(st.enter, price) {
      PositionBuyBounds(lib, cfg, st, price, dir, minSize, eff, AvailableCurrency(st.currency),
                        Pnl(eff, price, st.enter));
    }
  }

  lemma PositionBuyBounds(lib: MathLib, cfg: Config, st: State, price: Double, dir: Double,
                          minSize: Double, eff: Double, avail: Double, pnl: Double)
    requires Gt(dir, Zero)
    requires Above(price, 0.0) && Above(st.budget, 0.0) && AtLeast(eff, 0.0) && AtLeast(avail, 0.0)
    requires cfg.buyStrength.Num?
    ensures Affordable(Position(lib, cfg, st, price, dir, minSize, eff, avail, pnl).size, price, avail)
    ensures Lt(ClampStrength(cfg.buyStrength), One) ==>
      var r := Position(lib, cfg, st, price, dir, minSize, eff, avail, pnl);
      r.size == Zero || !Lt(r.size, minSize)
  {
    var dist := Distance(st.enter, price);
    var buy := PlanBuy(lib, cfg, st.budget, st.ebPriceEnter, dist, price, avail);
    var sell := PlanSell(lib, cfg, dist);
    var holdBuy := Hold(st.budget, BuyStrength(buy), price);
    var holdSell := Hold(st.budget, SellStrength(sell), price);
    assert !holdBuy.NaN?;
    if buy.Martingale? {
      FullStrengthIsAtLeastOne(cfg.buyStrength);
    }
    assert buy.Grid? ==> buy.size == Zero;
    DecideBuyBounds(st.enter, price, dir, buy, sell, holdBuy, holdSell, minSize, eff, avail, pnl);
    assert Position(lib, cfg, st, price, dir, minSize, eff, avail, pnl)
        == Decide(st.enter, price, dir, buy, sell, holdBuy, holdSell, minSize, eff, avail, pnl);
  }

  /** A finite strength that clamps to 1 is at least 1. */
  lemma FullStrengthIsAtLeastOne(c: Double)
    requires c.Num? && Ge(ClampStrength(c), One)
    ensures c.x >= 1.0
  {
  }

  lemma DecideBuyBounds(enter: Double, price: Double, dir: Double, buy: BuyPlan, sell: SellPlan,
                        holdBuy: Double, holdSell: Double, minSize: Double, eff: Double,
                        avail: Double, pnl: Double)
    requires Gt(dir, Zero)
    requires Above(price, 0.0) && AtLeast(eff, 0.0) && AtLeast(avail, 0.0) && !holdBuy.NaN?
    requires buy.Martingale? ==> AtLeast(buy.strength, 0.0)
    requires buy.Grid? ==> buy.size == Zero
    ensures var r := Decide(enter, price, dir, buy, sell, holdBuy, holdSell, minSize, eff, avail, pnl);
      Affordable(r.size, price, avail) &&
      (!buy.Martingale? ==> r.size == Zero || !Lt(r.size, minSize))
  {
    DecideBuyWithinCurrency(enter, price, buy, holdBuy, minSize, eff, avail);
  }

  /** The buy side of the branch chain buys what the currency pays for, and
      outside the martingale nothing below the minimum size. */
  lemma DecideBuyWithinCurrency(enter: Double, price: Double, buy: BuyPlan, holdBuy: Double,
                                minSize: Double, eff: Double, avail: Double)
    requires Above(price, 0.0) && AtLeast(eff, 0.0) && AtLeast(avail, 0.0) && !holdBuy.NaN?
    requires buy.Martingale? ==> AtLeast(buy.strength, 0.0)
    requires buy.Grid? ==> buy.size == Zero
    ensures var r := DecideBuy(enter, price, buy, holdBuy, minSize, eff, avail);
      Affordable(r.size, price, avail) &&
      (!buy.Martingale? ==> r.size == Zero || !Lt(r.size, minSize))
  {
    var r := DecideBuy(enter, price, buy, holdBuy, minSize, eff, avail);
    if Gt(enter, price) && buy.Martingale? {
      assert r.size == MartingaleSize(eff, BuyStrength(buy), price, avail);
      MartingaleWithinCurrency(eff, BuyStrength(buy), price, avail);
    } else if Gt(enter, price) {
      assert r == BuyRegion(GridOrZero(buy), buy.Grid?, holdBuy, eff, price, avail, minSize);
      BuyRegionWithinCurrency(GridOrZero(buy), buy.Grid?, holdBuy, eff, price, avail, minSize);
    } else {
      assert r.size == Zero;
    }
  }

  /** Outside the martingale, a non-zero buy is never below the minimum size. */
  lemma BuyRespectsMinSize(lib: MathLib, cfg: Config, st: State, price: Double, assets: Double,
                           dir: Double, minSize: Double)
    requires Gt(dir, Zero)
    requires Above(price, 0.0)
    requires Above(st.budget, 0.0) && st.assets.Num? && assets.Num? && st.currency.Num? && cfg.buyStrength.Num?
    requires Lt(ClampStrength(cfg.buyStrength), One)
    requires !IsColdStart(st.enter, EffectiveAssets(st.assets, assets), minSize)
    ensures var r := CalculateSize(lib, cfg, st, price, assets, dir, minSize);
      r.size == Zero || !Lt(r.size, minSize)
  {
    var eff := EffectiveAssets(st.assets, assets);
    if !Lt(st.enter, price) {
      PositionBuyBounds(lib, cfg, st, price, dir, minSize, eff, AvailableCurrency(st.currency),
                        Pnl(eff, price, st.enter));
    }
  }

  /** With less than 70% of the budget left in currency and no martingale, the
      emergency grid is in force: at a positive price no buy is ever placed. */
  lemma EmergencyGridNeverBuys(lib: MathLib, cfg: Config, st: State, price: Double, assets: Double,
                               dir: Double, minSize: Double)
    requires Gt(dir, Zero) && Gt(price, Zero)
    requires Lt(ClampStrength(cfg.buyStrength), One)
    requires Lt(AvailableCurrency(st.currency), Mul(st.budget, Num(0.7)))
    requires !IsColdStart(st.enter, EffectiveAssets(st.assets, assets), minSize)
    ensures CalculateSize(lib, cfg, st, price, assets, dir, minSize).size == Zero
  {
    var eff := EffectiveAssets(st.assets, assets);
    if !Lt(st.enter, price) {
      PositionGridNeverBuys(lib, cfg, st, price, dir, minSize, eff, AvailableCurrency(st.currency),
                            Pnl(eff, price, st.enter));
    }
  }

  /** Past the cold start, the emergency grid answers a buy probe with 0. */
  lemma PositionGridNeverBuys(lib: MathLib, cfg: Config, st: State, price: Double, dir: Double,
                              minSize: Double, eff: Double, avail: Double, pnl: Double)
    requires Gt(dir, Zero) && Gt(price, Zero)
    requires Lt(ClampStrength(cfg.buyStrength), One)
    requires avail == Zero || Gt(avail, Zero)
    requires Lt(avail, Mul(st.budget, Num(0.7)))
    ensures Position(lib, cfg, st, price, dir, minSize, eff, avail, pnl).size == Zero
  {
    var dist := Distance(st.enter, price);
    var buy := PlanBuy(lib, cfg, st.budget, st.ebPriceEnter, dist, price, avail);
    assert buy == Grid(GridSize(st.ebPriceEnter, price, avail));
    var holdBuy := Hold(st.budget, BuyStrength(buy), price);
    GridBuysNothing(st.enter, price, buy, holdBuy, minSize, eff, avail);
    assert Position(lib, cfg, st, price, dir, minSize, eff, avail, pnl)
        == DecideBuy(st.enter, price, buy, holdBuy, minSize, eff, avail);
  }

  /** Under the emergency grid, whose size is 0 at a positive price, a buy
      probe gets nothing. */
  lemma GridBuysNothing(enter: Double, price: Double, buy: BuyPlan, holdBuy: Double, minSize: Double,
                        eff: Double, avail: Double)
    requires buy == Grid(Zero)
    requires avail == Zero || Gt(avail, Zero)
    ensures DecideBuy(enter, price, buy, holdBuy, minSize, eff, avail).size == Zero
  {
    if Gt(enter, price) {
      assert DecideBuy(enter, price, buy, holdBuy, minSize, eff, avail)
          == BuyShortfall(Zero, price, avail, minSize);
      NothingWantedBuysNothing(price, avail, minSize);
    }
  }

  /** With currency that is not negative, the buy region buys nothing when
      nothing is wanted. */
  lemma NothingWantedBuysNothing(price: Double, avail: Double, minSize: Double)
    requires avail == Zero || Gt(avail, Zero)
    ensures BuyShortfall(Zero, price, avail, minSize).size == Zero
  {
  }

  /** The default state has no entry price, so every probe takes the cold
      start; its NaN budget makes the initial bet NaN, so a buy probe bets the
      minimum size. */
  lemma DefaultStateBetsMinSize(lib: MathLib, cfg: Config, price: Double, assets: Double,
                                dir: Double, minSize: Double)
    ensures CalculateSize(lib, cfg, DefaultState, price, assets, dir, minSize)
            == SizeAlert(if Lt(dir, Zero) then Zero else minSize, true)
  {
  }

  /** Cold start with a budget of 1000, a 10% initial bet, price 100 and
      minimum size 0.01: a buy probe bets 1.0 and a sell probe nothing. */
  lemma ColdStartExample(lib: MathLib, cfg: Config, st: State, assets: Double)
    requires cfg.initBet == Num(10.0) && st.budget == Num(1000.0) && st.enter.NaN?
    ensures CalculateSize(lib, cfg, st, Num(100.0), assets, One, Num(0.01)) == SizeAlert(Num(1.0), true)
    ensures CalculateSize(lib, cfg, st, Num(100.0), assets, Num(-1.0), Num(0.01)) == SizeAlert(Zero, true)
  {
  }

  // ------------------------------------------------------------ getNewOrder

  /** `getNewOrder`: no price override; the size and alert come from
      `calculateSize` at the new price, with that price's minimum size. */
  function GetNewOrder(lib: MathLib, m: Mca, minfo: MarketInfo, curPrice: Double, newPrice: Double,
                       dir: Double, assets: Double, currency: Double, rejected: bool): (o: OrderData)
    ensures o.price == Zero
    ensures o.alert != Unset
  {
    var r := CalculateSize(lib, m.cfg, m.st, newPrice, assets, dir, MinSize(minfo, newPrice));
    OrderData(Zero, r.size, if r.alert then Enabled else Disabled)
  }

  /** A strategy built from its configuration alone (as `reset` leaves it)
      asks for the market's minimum size on a buy probe and for nothing on a
      sell probe, with the alert raised. */
  lemma FreshStrategyOrdersMinSize(lib: MathLib, cfg: Config, minfo: MarketInfo, curPrice: Double,
                                   newPrice: Double, dir: Double, assets: Double, currency: Double,
                                   rejected: bool)
    ensures var o := GetNewOrder(lib, FromConfig(cfg), minfo, curPrice, newPrice, dir, assets, currency, rejected);
      o.alert == Enabled && o.size == (if Lt(dir, Zero) then Zero else MinSize(minfo, newPrice))
  {
    DefaultStateBetsMinSize(lib, cfg, newPrice, assets, dir, MinSize(minfo, newPrice));
  }

  /** A sell order never buys, and a sell order at a loss is empty. */
  lemma SellOrderNeverBuys(lib: MathLib, m: Mca, minfo: MarketInfo, curPrice: Double, newPrice: Double,
                           dir: Double, assets: Double, currency: Double, rejected: bool)
    requires Lt(dir, Zero)
    ensures var o := GetNewOrder(lib, m, minfo, curPrice, newPrice, dir, assets, currency, rejected);
      !Gt(o.size, Zero) &&
      (Lt(Pnl(EffectiveAssets(m.st.assets, assets), newPrice, m.st.enter), Zero) ==> o.size == Zero)
  {
    var minSize := MinSize(minfo, newPrice);
    SellProbeNeverBuys(lib, m.cfg, m.st, newPrice, assets, dir, minSize);
    if Lt(Pnl(EffectiveAssets(m.st.assets, assets), newPrice, m.st.enter), Zero) {
      SellNeverRealisesLoss(lib, m.cfg, m.st, newPrice, assets, dir, minSize);
    }
  }

  // ------------------------------------------------------------------ init

  /** The state `init` builds: the reported holdings valued at this price are
      the paid sum, and the whole account is the budget. */
  function InitialState(price: Double, assets: Double, currency: Double): State
  {
    var v := Mul(assets, price);
    MakeState(v, if Gt(assets, Zero) then price else NaN, Add(currency, v), assets, currency, Zero, Zero)
  }

  /** `init`: the paid sum is the holdings' worth at this price, the entry
      price is this price when something is held, and the budget is the whole
      account; it fails exactly when that paid sum is negative or the budget
      is not positive. */
  function Init(cfg: Config, price: Double, assets: Double, currency: Double, leveraged: bool)
    : (r: Result<Mca, InitError>)
    ensures r.Failure? <==> !(Ge(Mul(assets, price), Zero) && Gt(Add(currency, Mul(assets, price)), Zero))
    ensures r.Success? ==> r.value.cfg == cfg && IsValid(r.value.st)
    ensures r.Success? ==>
              r.value.st.ep == Mul(assets, price) &&
              r.value.st.budget == Add(currency, Mul(assets, price)) &&
              r.value.st.enter == (if Gt(assets, Zero) then price else NaN)
    ensures r.Success? ==> r.value.st.assets == assets && r.value.st.currency == currency
    ensures r.Success? ==> r.value.st.lastPrice == Zero && r.value.st.ebPriceEnter == Zero
  {
    var st := InitialState(price, assets, currency);
    if !IsValid(st) then Failure(ValidationFailed) else Success(Mca(cfg, st))
  }

  /** The entry price is the average cost of the held assets. */
  predicate AveragePriced(st: State)
  {
    st.enter == Div(st.ep, st.assets)
  }

  /** For finite inputs at a positive price, `init` succeeds exactly when the
      holdings are not negative and the account is worth something. */
  lemma InitSucceedsIff(cfg: Config, price: Double, assets: Double, currency: Double, leveraged: bool)
    requires Above(price, 0.0) && assets.Num? && currency.Num?
    ensures Init(cfg, price, assets, currency, leveraged).Success?
            <==> assets.x >= 0.0 && currency.x + assets.x * price.x > 0.0
    ensures var r := Init(cfg, price, assets, currency, leveraged);
      r.Success? ==>
        r.value.st.ep == Num(assets.x * price.x) && r.value.st.budget == Num(currency.x + assets.x * price.x)
  {
    var st := InitialState(price, assets, currency);
    assert st.ep == Num(assets.x * price.x);
    assert st.budget == Num(currency.x + assets.x * price.x);
    assert assets.x >= 0.0 <==> assets.x * price.x >= 0.0;
  }

  /** At a positive price, a successful `init` with finite holdings prices the
      position at the current price: the paid sum over the holdings is the
      entry price, and it is the price itself whenever something is held. */
  lemma InitEntersAtPrice(cfg: Config, price: Double, assets: Double, currency: Double, leveraged: bool)
    requires Above(price, 0.0) && assets.Num?
    requires Init(cfg, price, assets, currency, leveraged).Success?
    ensures var st := Init(cfg, price, assets, currency, leveraged).value.st;
      AveragePriced(st) && (assets.x > 0.0 ==> st.enter == price) && (assets.x == 0.0 ==> st.enter.NaN?)
  {
    var st := InitialState(price, assets, currency);
    assert st.ep == Num(assets.x * price.x);
    if assets.x > 0.0 {
      assert (assets.x * price.x) / assets.x == price.x;
    }
  }

  // --------------------------------------------------------------- onTrade

  /** A buy counts only what actually arrived: when the reported holdings show
      less than the state's holdings plus the fill, the difference (never
      below zero) is used. Sells count in full. */
  function EffectiveTradeSize(tradeSize: Double, held: Double, assetsLeft: Double): (r: Double)
    ensures !Gt(tradeSize, Zero) ==> r == tradeSize
    ensures Ge(tradeSize, Zero) ==> Ge(r, Zero)
    ensures Gt(tradeSize, Zero) && held.Num? && assetsLeft.Num? ==>
              AtLeast(r, 0.0) && Le(r, tradeSize) && (r.x == 0.0 || held.x + r.x <= assetsLeft.x)
  {
    if Gt(tradeSize, Zero) && Gt(held, Sub(assetsLeft, tradeSize))
    then Max(Sub(assetsLeft, held), Zero)
    else tradeSize
  }

  /** The holdings after the fill, floored at zero (NaN stays NaN). */
  function NewAssets(held: Double, effectiveSize: Double): (r: Double)
    ensures !Lt(r, Zero)
    ensures !Lt(Add(held, effectiveSize), Zero) ==> r == Add(held, effectiveSize)
  {
    var a := Add(held, effectiveSize);
    if Lt(a, Zero) then Zero else a
  }

  /** `onTrade`: a fill of `tradeSize` (+ buy, - sell) at `tradePrice`. A buy
      adds its cost to the paid sum; a sell scales the paid sum with the
      holdings, so the entry price stays. The budget never changes. */
  function OnTrade(m: Mca, minfo: MarketInfo, tradePrice: Double, tradeSize: Double,
                   assetsLeft: Double, currencyLeft: Double): (r: Result<Traded, TradeError>)
    ensures r.Failure? <==> !IsValid(m.st)
    ensures r.Success? ==> var n := r.value.next.st;
      r.value.next.cfg == m.cfg && n.budget == m.st.budget && n.lastPrice == tradePrice &&
      !Lt(n.assets, Zero) && Le(n.currency, m.st.budget) && AveragePriced(n) &&
      n.alerts == 0 && n.history == EmptyHistory && n.sentiment == 0
    ensures r.Success? ==> var rep := r.value.report;
      rep.normAccum == Zero && rep.openPrice == Zero &&
      rep.neutralPrice == (if r.value.next.st.enter.NaN? then tradePrice else r.value.next.st.enter)
    ensures r.Success? && Ge(tradeSize, Zero) ==> r.value.report.normProfit == Zero
  {
    if !IsValid(m.st) then Failure(NotInitialized)
    else
      var eff := EffectiveTradeSize(tradeSize, m.st.assets, assetsLeft);
      var next := Fill(m.st, tradePrice, eff);
      Success(Traded(TradeReport(SaleProfit(tradePrice, m.st.enter, eff), Zero, if IsNaN(next.enter) then tradePrice else next.enter, Zero),
                     Mca(m.cfg, next)))
  }

  /** The profit a fill reports: none for a buy, the sold amount times the
      gain over the entry price for a sell. */
  function SaleProfit(tradePrice: Double, enter: Double, eff: Double): Double
  {
    if Ge(eff, Zero) then Zero else Mul(Sub(tradePrice, enter), Neg(eff))
  }

  /** The state after a fill of `eff` counted assets at `tradePrice`. */
  function Fill(st: State, tradePrice: Double, eff: Double): State
  {
    var newAsset := NewAssets(st.assets, eff);
    var avail := AvailableCurrency(st.currency);
    var ebPriceEnter := if Lt(avail, Mul(st.budget, Num(0.7))) then tradePrice else Zero;
    var cost := Mul(tradePrice, eff);
    var ep := PaidAfter(st.ep, st.assets, cost, eff, newAsset);
    MakeState(ep, Div(ep, newAsset), st.budget, newAsset, Min(st.budget, Sub(st.currency, cost)),
              tradePrice, ebPriceEnter)
  }

  /** The paid sum after a fill: a buy adds its cost, a sell scales the paid
      sum with the holdings. */
  function PaidAfter(ep: Double, held: Double, cost: Double, eff: Double, newAsset: Double): Double
  {
    if Ge(eff, Zero) then Add(ep, cost) else Mul(Div(ep, held), newAsset)
  }

  /** Dividing by a non-zero number undoes multiplying by it. */
  lemma MulDivCancel(q: real, d: real)
    requires d != 0.0
    ensures (q * d) / d == q
  {
  }

  lemma DivMulCancel(x: real, d: real)
    requires d != 0.0
    ensures (x / d) * d == x
  {
  }

  /** `v` lies between the prices `a` and `b`, in whichever order they come. */
  predicate Between(a: real, v: real, b: real)
  {
    (a <= b ==> a <= v <= b) && (b <= a ==> b <= v <= a)
  }

  /** The weighted average of two prices lies between them. */
  lemma AverageBetween(enter: real, held: real, price: real, bought: real)
    requires held > 0.0 && bought > 0.0
    ensures Between(enter, (enter * held + price * bought) / (held + bought), price)
  {
    var v := (enter * held + price * bought) / (held + bought);
    assert v * (held + bought) == enter * held + price * bought;
    if enter <= price {
      assert enter * bought <= price * bought;
      assert enter * (held + bought) <= v * (held + bought) <= price * (held + bought);
    } else {
      assert price * held <= enter * held;
      assert price * (held + bought) <= v * (held + bought) <= enter * (held + bought);
    }
  }

  /** A finite buy at a positive price from a finite state: the counted size
      lies in [0, tradeSize], the paid sum grows by its cost, the holdings by
      the size, and the currency drops by the cost, capped at the budget. */
  lemma OnTradeBuyAddsCost(m: Mca, minfo: MarketInfo, tradePrice: Double, tradeSize: Double,
                           assetsLeft: Double, currencyLeft: Double)
    requires IsValid(m.st) && m.st.ep.Num? && m.st.budget.Num? && AtLeast(m.st.assets, 0.0) && m.st.currency.Num?
    requires Above(tradePrice, 0.0) && Above(tradeSize, 0.0) && assetsLeft.Num?
    ensures var n := OnTrade(m, minfo, tradePrice, tradeSize, assetsLeft, currencyLeft).value.next.st;
      var e := EffectiveTradeSize(tradeSize, m.st.assets, assetsLeft);
      var spent := m.st.currency.x - tradePrice.x * e.x;
      AtLeast(e, 0.0) && e.x <= tradeSize.x &&
      n.ep == Num(m.st.ep.x + tradePrice.x * e.x) &&
      n.assets == Num(m.st.assets.x + e.x) &&
      n.currency == Num(if spent < m.st.budget.x then spent else m.st.budget.x)
  {
    var e := EffectiveTradeSize(tradeSize, m.st.assets, assetsLeft);
    assert AtLeast(e, 0.0) && e.x <= tradeSize.x;
    assert Mul(tradePrice, e) == Num(tradePrice.x * e.x);
    assert NewAssets(m.st.assets, e) == Num(m.st.assets.x + e.x);
  }

  /** A buy of a positive amount into a position that is priced at its average
      cost moves the entry price to the weighted average of the old entry price
      and the fill price: it lands between the two. */
  lemma OnTradeBuyAveragesEnter(m: Mca, minfo: MarketInfo, tradePrice: Double, tradeSize: Double,
                                assetsLeft: Double, currencyLeft: Double)
    requires IsValid(m.st) && m.st.ep.Num? && m.st.budget.Num? && Above(m.st.assets, 0.0) && m.st.currency.Num?
    requires AveragePriced(m.st)
    requires Above(tradePrice, 0.0) && Above(tradeSize, 0.0) && assetsLeft.Num?
    requires Above(EffectiveTradeSize(tradeSize, m.st.assets, assetsLeft), 0.0)
    ensures var n := OnTrade(m, minfo, tradePrice, tradeSize, assetsLeft, currencyLeft).value.next.st;
      m.st.enter.Num? && n.enter.Num? &&
      Between(m.st.enter.x, n.enter.x, tradePrice.x)
  {
    var e := EffectiveTradeSize(tradeSize, m.st.assets, assetsLeft);
    assert OnTrade(m, minfo, tradePrice, tradeSize, assetsLeft, currencyLeft).value.next.st
        == Fill(m.st, tradePrice, e);
    FillBuyAverages(m.st, tradePrice, e);
  }

  lemma FillBuyAverages(st: State, tradePrice: Double, e: Double)
    requires st.ep.Num? && Above(st.assets, 0.0) && AveragePriced(st)
    requires Above(tradePrice, 0.0) && Above(e, 0.0)
    ensures var n := Fill(st, tradePrice, e);
      st.enter.Num? && n.enter.Num? &&
      Between(st.enter.x, n.enter.x, tradePrice.x)
  {
    assert st.enter == Num(st.ep.x / st.assets.x);
    var na := NewAssets(st.assets, e);
    assert Fill(st, tradePrice, e).enter == Div(PaidAfter(st.ep, st.assets, Mul(tradePrice, e), e, na), na);
    BuyEnterBetween(st.ep, st.assets, tradePrice, e);
  }

  /** The entry price after a finite buy, the paid sum plus the cost over the
      holdings plus the bought amount, lies between the old average price and
      the fill price. */
  lemma BuyEnterBetween(ep: Double, held: Double, tradePrice: Double, e: Double)
    requires ep.Num? && Above(held, 0.0) && tradePrice.Num? && Above(e, 0.0)
    ensures var na := NewAssets(held, e);
      var v := Div(PaidAfter(ep, held, Mul(tradePrice, e), e, na), na);
      v.Num? && Between(ep.x / held.x, v.x, tradePrice.x)
  {
    var na := held.x + e.x;
    assert NewAssets(held, e) == Num(na);
    var paid := ep.x + tradePrice.x * e.x;
    assert PaidAfter(ep, held, Mul(tradePrice, e), e, Num(na)) == Num(paid);
    DivOfNums(paid, na);
    BuyAverageBetween(ep.x, held.x, tradePrice.x, e.x, paid / na);
  }

  /** `x / y` on two finite numbers with `y` not zero. */
  lemma DivOfNums(x: real, y: real)
    requires y != 0.0
    ensures Div(Num(x), Num(y)) == Num(x / y)
  {
  }

  /** Adding `e` assets at price `p` to `a` assets that cost `ep` in all puts
      the average price between the old average and `p`. */
  lemma BuyAverageBetween(ep: real, a: real, p: real, e: real, v: real)
    requires a > 0.0 && e > 0.0
    requires v == (ep + p * e) / (a + e)
    ensures Between(ep / a, v, p)
  {
    DivMulCancel(ep, a);
    assert (ep / a) * a + p * e == ep + p * e;
    AverageBetween(ep / a, a, p, e);
  }

  /** A sell that leaves something held keeps the paid sum per asset, so a
      position priced at its average cost keeps its entry price. */
  lemma OnTradeSellKeepsEnter(m: Mca, minfo: MarketInfo, tradePrice: Double, tradeSize: Double,
                              assetsLeft: Double, currencyLeft: Double)
    requires IsValid(m.st) && m.st.ep.Num? && Above(m.st.assets, 0.0)
    requires tradeSize.Num? && tradeSize.x < 0.0 && m.st.assets.x + tradeSize.x > 0.0
    ensures var n := OnTrade(m, minfo, tradePrice, tradeSize, assetsLeft, currencyLeft).value.next.st;
      n.enter == Num(m.st.ep.x / m.st.assets.x) && n.assets == Num(m.st.assets.x + tradeSize.x) &&
      (AveragePriced(m.st) ==> n.enter == m.st.enter)
  {
    assert EffectiveTradeSize(tradeSize, m.st.assets, assetsLeft) == tradeSize;
    assert OnTrade(m, minfo, tradePrice, tradeSize, assetsLeft, currencyLeft).value.next.st
        == Fill(m.st, tradePrice, tradeSize);
    FillSellKeepsEnter(m.st, tradePrice, tradeSize);
  }

  lemma FillSellKeepsEnter(st: State, tradePrice: Double, e: Double)
    requires st.ep.Num? && Above(st.assets, 0.0)
    requires e.Num? && e.x < 0.0 && st.assets.x + e.x > 0.0
    ensures var n := Fill(st, tradePrice, e);
      n.enter == Num(st.ep.x / st.assets.x) && n.assets == Num(st.assets.x + e.x)
  {
    var a := st.assets.x;
    var na := a + e.x;
    assert NewAssets(st.assets, e) == Num(na);
    var q := st.ep.x / a;
    assert PaidAfter(st.ep, st.assets, Mul(tradePrice, e), e, Num(na)) == Num(q * na);
    MulDivCancel(q, na);
    assert Fill(st, tradePrice, e).enter == Div(Num(q * na), Num(na));
  }

  /** A finite sell at a finite price from a finite state that holds something:
      the currency grows by the proceeds, capped at the budget, the holdings
      drop by the sale (floored at zero) and the paid sum is the old paid sum
      per asset times what is still held. */
  lemma OnTradeSellAddsProceeds(m: Mca, minfo: MarketInfo, tradePrice: Double, tradeSize: Double,
                                assetsLeft: Double, currencyLeft: Double)
    requires IsValid(m.st) && m.st.ep.Num? && m.st.budget.Num? && Above(m.st.assets, 0.0) && m.st.currency.Num?
    requires tradePrice.Num? && tradeSize.Num? && tradeSize.x < 0.0
    ensures var n := OnTrade(m, minfo, tradePrice, tradeSize, assetsLeft, currencyLeft).value.next.st;
      var got := m.st.currency.x - tradePrice.x * tradeSize.x;
      var left := m.st.assets.x + tradeSize.x;
      n.currency == Num(if got < m.st.budget.x then got else m.st.budget.x) &&
      n.assets == Num(if left < 0.0 then 0.0 else left) &&
      n.ep == Num(m.st.ep.x / m.st.assets.x * n.assets.x)
  {
    assert EffectiveTradeSize(tradeSize, m.st.assets, assetsLeft) == tradeSize;
    assert OnTrade(m, minfo, tradePrice, tradeSize, assetsLeft, currencyLeft).value.next.st
        == Fill(m.st, tradePrice, tradeSize);
    FillSellPaysProceeds(m.st, tradePrice, tradeSize);
  }

  lemma FillSellPaysProceeds(st: State, tradePrice: Double, e: Double)
    requires st.ep.Num? && st.budget.Num? && Above(st.assets, 0.0) && st.currency.Num?
    requires tradePrice.Num? && e.Num? && e.x < 0.0
    ensures var n := Fill(st, tradePrice, e);
      var got := st.currency.x - tradePrice.x * e.x;
      var left := st.assets.x + e.x;
      n.currency == Num(if got < st.budget.x then got else st.budget.x) &&
      n.assets == Num(if left < 0.0 then 0.0 else left) &&
      n.ep == Num(st.ep.x / st.assets.x * n.assets.x)
  {
    var left := st.assets.x + e.x;
    var na := Num(if left < 0.0 then 0.0 else left);
    assert NewAssets(st.assets, e) == na;
    assert Mul(tradePrice, e) == Num(tradePrice.x * e.x);
    assert Div(st.ep, st.assets) == Num(st.ep.x / st.assets.x);
    assert PaidAfter(st.ep, st.assets, Mul(tradePrice, e), e, na) == Num(st.ep.x / st.assets.x * na.x);
  }

  /** A finite sell reports as profit the sold amount times the fill price's
      gain over the entry price; a sell at or above the entry price reports no
      loss. */
  lemma OnTradeSellReportsProfit(m: Mca, minfo: MarketInfo, tradePrice: Double, tradeSize: Double,
                                 assetsLeft: Double, currencyLeft: Double)
    requires IsValid(m.st) && m.st.enter.Num? && tradePrice.Num?
    requires tradeSize.Num? && tradeSize.x < 0.0
    ensures var p := OnTrade(m, minfo, tradePrice, tradeSize, assetsLeft, currencyLeft).value.report.normProfit;
      p == Num((tradePrice.x - m.st.enter.x) * -tradeSize.x) &&
      (tradePrice.x >= m.st.enter.x ==> p.x >= 0.0)
  {
    assert EffectiveTradeSize(tradeSize, m.st.assets, assetsLeft) == tradeSize;
    assert OnTrade(m, minfo, tradePrice, tradeSize, assetsLeft, currencyLeft).value.report.normProfit
        == SaleProfit(tradePrice, m.st.enter, tradeSize);
    SaleProfitOfSell(tradePrice, m.st.enter, tradeSize);
  }

  lemma SaleProfitOfSell(tradePrice: Double, enter: Double, e: Double)
    requires enter.Num? && tradePrice.Num? && e.Num? && e.x < 0.0
    ensures var p := SaleProfit(tradePrice, enter, e);
      p == Num((tradePrice.x - enter.x) * -e.x) && (tradePrice.x >= enter.x ==> p.x >= 0.0)
  {
    var g := tradePrice.x - enter.x;
    assert Sub(tradePrice, enter) == Num(g);
    assert Neg(e) == Num(-e.x);
    if g >= 0.0 {
      assert g * -e.x >= 0.0;
    }
  }

  /** The emergency grid starts at the fill price exactly when less than 70% of
      the budget is left in currency, and is cleared otherwise. */
  lemma OnTradeSetsGridStart(m: Mca, minfo: MarketInfo, tradePrice: Double, tradeSize: Double,
                             assetsLeft: Double, currencyLeft: Double)
    requires IsValid(m.st)
    ensures var n := OnTrade(m, minfo, tradePrice, tradeSize, assetsLeft, currencyLeft).value.next.st;
      n.ebPriceEnter == (if Lt(AvailableCurrency(m.st.currency), Mul(m.st.budget, Num(0.7))) then tradePrice else Zero)
  {
  }

  /** Selling the whole holding empties the paid sum and clears the entry
      price, so the next probe is a cold start; the report then names the fill
      price as the neutral price. */
  lemma SellAllClearsEnter(m: Mca, minfo: MarketInfo, tradePrice: Double, tradeSize: Double,
                           assetsLeft: Double, currencyLeft: Double)
    requires IsValid(m.st) && m.st.ep.Num? && Above(m.st.assets, 0.0)
    requires tradeSize == Neg(m.st.assets)
    ensures var r := OnTrade(m, minfo, tradePrice, tradeSize, assetsLeft, currencyLeft).value;
      r.next.st.ep == Zero && r.next.st.assets == Zero && r.next.st.enter.NaN? &&
      r.report.neutralPrice == tradePrice
  {
    assert NewAssets(m.st.assets, tradeSize) == Zero;
  }

  /** A sell recorded while the state holds nothing breaks the strategy: the
      paid sum becomes NaN, so the successor is not valid and the next idle
      call re-initialises it. */
  lemma SellFromEmptyInvalidates(m: Mca, minfo: MarketInfo, tradePrice: Double, tradeSize: Double,
                                 assetsLeft: Double, currencyLeft: Double)
    requires IsValid(m.st) && m.st.ep.Num? && m.st.assets == Zero
    requires Lt(tradeSize, Zero)
    ensures var n := OnTrade(m, minfo, tradePrice, tradeSize, assetsLeft, currencyLeft).value.next.st;
      n.ep.NaN? && !IsValid(n)
  {
    assert EffectiveTradeSize(tradeSize, m.st.assets, assetsLeft) == tradeSize;
    FillSellFromNothing(m.st, tradePrice, tradeSize);
    OnTradeFills(m, minfo, tradePrice, tradeSize, assetsLeft, currencyLeft);
  }

  /** The successor of a valid strategy is the fill of the counted size. */
  lemma OnTradeFills(m: Mca, minfo: MarketInfo, tradePrice: Double, tradeSize: Double,
                     assetsLeft: Double, currencyLeft: Double)
    requires IsValid(m.st)
    ensures OnTrade(m, minfo, tradePrice, tradeSize, assetsLeft, currencyLeft).value.next
         == Mca(m.cfg, Fill(m.st, tradePrice, EffectiveTradeSize(tradeSize, m.st.assets, assetsLeft)))
  {
  }

  /** Filling a sell when nothing is held makes the paid sum NaN, so the
      successor state is invalid. */
  lemma FillSellFromNothing(st: State, tradePrice: Double, e: Double)
    requires AtLeast(st.ep, 0.0) && st.assets == Zero && Lt(e, Zero)
    ensures Fill(st, tradePrice, e).ep.NaN? && !IsValid(Fill(st, tradePrice, e))
  {
    assert NewAssets(st.assets, e) == Zero;
    SellFromNothingPaysNaN(st.ep, Mul(tradePrice, e), e);
  }

  /** Scaling the paid sum to the holdings after a sell from no holdings
      divides by zero and multiplies by zero: NaN. */
  lemma SellFromNothingPaysNaN(ep: Double, cost: Double, eff: Double)
    requires AtLeast(ep, 0.0) && Lt(eff, Zero)
    ensures PaidAfter(ep, Zero, cost, eff, Zero).NaN?
  {
    assert Div(ep, Zero).PosInf? || Div(ep, Zero).NaN?;
  }

  /** For finite fills at a positive price, `onTrade` keeps a valid strategy
      valid, unless it records a sell while nothing is held. */
  lemma OnTradeKeepsValid(m: Mca, minfo: MarketInfo, tradePrice: Double, tradeSize: Double,
                          assetsLeft: Double, currencyLeft: Double)
    requires IsValid(m.st) && m.st.ep.Num? && AtLeast(m.st.assets, 0.0)
    requires Above(tradePrice, 0.0) && tradeSize.Num? && assetsLeft.Num?
    requires tradeSize.x < 0.0 ==> m.st.assets.x > 0.0
    ensures IsValid(OnTrade(m, minfo, tradePrice, tradeSize, assetsLeft, currencyLeft).value.next.st)
  {
    var e := EffectiveTradeSize(tradeSize, m.st.assets, assetsLeft);
    assert OnTrade(m, minfo, tradePrice, tradeSize, assetsLeft, currencyLeft).value.next.st
        == Fill(m.st, tradePrice, e);
    if tradeSize.x < 0.0 {
      assert e == tradeSize;
      FillSellKeepsPaidSum(m.st, tradePrice, e);
    } else {
      assert AtLeast(e, 0.0);
      FillBuyKeepsPaidSum(m.st, tradePrice, e);
    }
  }

  lemma FillSellKeepsPaidSum(st: State, tradePrice: Double, e: Double)
    requires AtLeast(st.ep, 0.0) && Above(st.assets, 0.0) && e.Num? && e.x < 0.0
    ensures AtLeast(Fill(st, tradePrice, e).ep, 0.0)
  {
    var na := NewAssets(st.assets, e);
    assert AtLeast(na, 0.0);
    assert Fill(st, tradePrice, e).ep == PaidAfter(st.ep, st.assets, Mul(tradePrice, e), e, na);
    SellKeepsPaidSum(st.ep, st.assets, Mul(tradePrice, e), e, na);
  }

  /** A sell scales a non-negative paid sum by a non-negative holding: the
      result is not negative. */
  lemma SellKeepsPaidSum(ep: Double, held: Double, cost: Double, e: Double, na: Double)
    requires AtLeast(ep, 0.0) && Above(held, 0.0) && e.Num? && e.x < 0.0 && AtLeast(na, 0.0)
    ensures AtLeast(PaidAfter(ep, held, cost, e, na), 0.0)
  {
    var avg := ep.x / held.x;
    assert Div(ep, held) == Num(avg);
    assert avg >= 0.0;
    assert avg * na.x >= 0.0;
  }

  lemma FillBuyKeepsPaidSum(st: State, tradePrice: Double, e: Double)
    requires AtLeast(st.ep, 0.0) && Above(tradePrice, 0.0) && AtLeast(e, 0.0)
    ensures AtLeast(Fill(st, tradePrice, e).ep, 0.0)
  {
    assert tradePrice.x * e.x >= 0.0;
    assert Mul(tradePrice, e) == Num(tradePrice.x * e.x);
  }

  // ------------------------------------------------------ export / import

  /** The names the seven fields are stored under. */
  const FieldNames: set<string> := {"ep", "enter", "budget", "assets", "currency", "last_price", "ebPriceEnter"}

  /** `exportState`: the seven fields by name. */
  function ExportState(st: State): (fields: map<string, Double>)
    ensures fields.Keys == FieldNames
  {
    map["ep" := st.ep, "enter" := st.enter, "budget" := st.budget, "assets" := st.assets,
        "currency" := st.currency, "last_price" := st.lastPrice, "ebPriceEnter" := st.ebPriceEnter]
  }

  /** A field's number; a missing field reads as 0. */
  function Field(fields: map<string, Double>, name: string): Double
  {
    if name in fields then fields[name] else Zero
  }

  /** `importState`: the configuration is kept, the seven fields are read by
      name and the rest of the state takes its defaults. */
  function ImportState(m: Mca, fields: map<string, Double>): (r: Mca)
    ensures r.cfg == m.cfg
    ensures r.st.alerts == 0 && r.st.history == EmptyHistory && r.st.sentiment == 0
  {
    Mca(m.cfg, MakeState(Field(fields, "ep"), Field(fields, "enter"), Field(fields, "budget"),
                         Field(fields, "assets"), Field(fields, "currency"), Field(fields, "last_price"),
                         Field(fields, "ebPriceEnter")))
  }

  /** Importing an export gives back the seven fields; a state whose other
      fields hold their defaults (every state the strategy builds) comes back
      whole. */
  lemma ImportExportRoundTrip(m: Mca, st: State)
    ensures var r := ImportState(m, ExportState(st)).st;
      r.ep == st.ep && r.enter == st.enter && r.budget == st.budget && r.assets == st.assets &&
      r.currency == st.currency && r.lastPrice == st.lastPrice && r.ebPriceEnter == st.ebPriceEnter
    ensures st.alerts == 0 && st.history == EmptyHistory && st.sentiment == 0 ==>
      ImportState(m, ExportState(st)) == Mca(m.cfg, st)
  {
  }

  /** Exporting an import gives back a field map with exactly the seven names. */
  lemma ExportImportRoundTrip(m: Mca, fields: map<string, Double>)
    requires fields.Keys == FieldNames
    ensures ExportState(ImportState(m, fields).st) == fields
  {
    var e := ExportState(ImportState(m, fields).st);
    assert e.Keys == fields.Keys;
    forall k | k in fields
      ensures e[k] == fields[k]
    {
    }
  }

  /** An empty import has a zero budget, so the strategy it gives is not
      valid. */
  lemma EmptyImportIsInvalid(m: Mca)
    ensures !IsValid(ImportState(m, map[]).st)
  {
  }

  // ---------------------------------------------------- onIdle and reset

  /** `onIdle`: a valid strategy is kept as it is; any other is initialised
      from the ticker's last price and the reported holdings. */
  function OnIdle(m: Mca, minfo: MarketInfo, ticker: Ticker, assets: Double, currency: Double)
    : (r: Result<Mca, InitError>)
    ensures IsValid(m.st) ==> r == Success(m)
    ensures !IsValid(m.st) ==> r == Init(m.cfg, ticker.last, assets, currency, Leveraged(minfo))
    ensures r.Success? ==> IsValid(r.value.st) && r.value.cfg == m.cfg
  {
    if !IsValid(m.st) then Init(m.cfg, ticker.last, assets, currency, Leveraged(minfo))
    else Success(m)
  }

  /** A second idle call changes nothing. */
  lemma OnIdleIdempotent(m: Mca, minfo: MarketInfo, ticker: Ticker, assets: Double, currency: Double)
    requires OnIdle(m, minfo, ticker, assets, currency).Success?
    ensures var r := OnIdle(m, minfo, ticker, assets, currency).value;
      OnIdle(r, minfo, ticker, assets, currency) == Success(r)
  {
  }

  /** `reset`: the configuration with the default state. */
  function Reset(m: Mca): (r: Mca)
    ensures r.cfg == m.cfg && !IsValid(r.st) && r.st.enter.NaN?
  {
    FromConfig(m.cfg)
  }

  /** After a reset the next idle call initialises afresh from the market. */
  lemma ResetThenIdleInitialises(m: Mca, minfo: MarketInfo, ticker: Ticker, assets: Double, currency: Double)
    ensures OnIdle(Reset(m), minfo, ticker, assets, currency)
            == Init(m.cfg, ticker.last, assets, currency, Leveraged(minfo))
  {
  }

  // ------------------------------------------------------ getCenterPrice

  /** `getCenterPrice`: the entry price when it is a finite non-zero number and
      enough is held (1% of the budget's worth); otherwise the last trade price
      when it is positive, else the caller's price. */
  function GetCenterPrice(st: State, lastPrice: Double, assets: Double): (cp: Double)
    ensures (cp == st.enter && st.enter.Num? && st.enter.x != 0.0)
            || (cp == st.lastPrice && Gt(st.lastPrice, Zero))
            || cp == lastPrice
    ensures Gt(st.lastPrice, Zero) && cp != st.lastPrice ==> cp == st.enter
  {
    var lp := if !IsNaN(st.lastPrice) && Gt(st.lastPrice, Zero) then st.lastPrice else lastPrice;
    var eff := EffectiveAssets(st.assets, assets);
    var minSize := Mul(Div(st.budget, lp), Num(0.01));
    if IsNaN(st.enter) || IsInf(st.enter) || Eq(st.enter, Zero) || Lt(eff, minSize) then lp
    else st.enter
  }

  /** Once the strategy has traded at a positive price and holds at least 1% of
      its budget's worth at that price, the center is its entry price. */
  lemma CenterIsEnterWhenHolding(st: State, lastPrice: Double, assets: Double)
    requires Above(st.lastPrice, 0.0) && Above(st.enter, 0.0) && Above(st.budget, 0.0)
    requires AtLeast(st.assets, 0.0) && AtLeast(assets, 0.0)
    requires st.assets.x >= st.budget.x / st.lastPrice.x * 0.01
    requires assets.x >= st.budget.x / st.lastPrice.x * 0.01
    ensures GetCenterPrice(st, lastPrice, assets) == st.enter
  {
    var eff := EffectiveAssets(st.assets, assets);
    assert eff.Num? && (eff.x == st.assets.x || eff.x == assets.x);
  }

  /** Holding less than 1% of the budget's worth at the last trade price falls
      back to that last trade price, whatever the entry price. */
  lemma CenterIsLastPriceWhenLight(st: State, lastPrice: Double, assets: Double)
    requires Above(st.lastPrice, 0.0) && st.budget.Num?
    requires EffectiveAssets(st.assets, assets).Num?
    requires EffectiveAssets(st.assets, assets).x < st.budget.x / st.lastPrice.x * 0.01
    ensures GetCenterPrice(st, lastPrice, assets) == st.lastPrice
  {
    assert Div(st.budget, st.lastPrice) == Num(st.budget.x / st.lastPrice.x);
    assert Mul(Div(st.budget, st.lastPrice), Num(0.01)) == Num(st.budget.x / st.lastPrice.x * 0.01);
  }

  // ------------------------------------------------------- calcSafeRange

  /** `calcSafeRange`: the strategy claims no limit, [0, +inf). */
  function CalcSafeRange(m: Mca, minfo: MarketInfo, assets: Double, currency: Double): (r: MinMax)
    ensures Eq(r.min, Zero) && r.max.PosInf?
  {
    MinMax(Zero, PosInf)
  }
}
