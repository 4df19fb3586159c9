/** The power-law ("pile") strategy. At equilibrium the position is
    k * price^(r-1) and the budget k * price^r / r, for a ratio r and a scale k
    fitted once by `init`. Orders bring the holdings to the curve's position,
    plus the share of the extra profit that is accumulated in assets. */
module StrategyPile {
  import opened Wrappers
  import opened Float64
  import opened Market

  /** Operator settings: the share of the extra profit kept as assets, and the
      share of the budget an initial position takes. */
  datatype Config = Config(accum: Double, ratio: Double)

  /** The persisted state. */
  datatype State = State(
    ratio: Double,   // value of the assets over the budget, fitted by init
    kmult: Double,   // scale of the curves, fitted by init
    lastp: Double,   // price of the last trade
    budget: Double,  // the curve's budget at lastp
    pos: Double,     // holdings the strategy accounts for
    berror: Double)  // value of the holdings' deviation from the curve at lastp

  /** A strategy instance owns its configuration and state by value. */
  datatype Pile = Pile(cfg: Config, st: State)

  /** Why `init` throws. */
  datatype InitError = NeedAssets | NeedCurrency | ValidationFailed

  /** The successor `onTrade` returns together with its report. */
  datatype Traded = Traded(report: TradeReport, next: Pile)

  /** The pair `calcAccum` returns: profit to report, assets to accumulate. */
  datatype Accum = Accum(normp: Double, accum: Double)

  // -------------------------------------------------------------- the curves

  /** `calcPosition`: k * price^(ratio - 1). */
  function CalcPosition(lib: MathLib, ratio: Double, kmult: Double, price: Double): Double
  {
    Mul(kmult, lib.pow(price, Sub(ratio, One)))
  }

  /** `calcBudget`: k * price^ratio / ratio. */
  function CalcBudget(lib: MathLib, ratio: Double, kmult: Double, price: Double): Double
  {
    Div(Mul(kmult, lib.pow(price, ratio)), ratio)
  }

  /** `calcEquilibrium`: the price at which the curve holds `position`. */
  function CalcEquilibrium(lib: MathLib, ratio: Double, kmult: Double, position: Double): Double
  {
    lib.pow(Div(position, kmult), Div(Num(-1.0), Sub(One, ratio)))
  }

  /** `calcCurrency`: k * (price^ratio / ratio - price^(ratio-1) * price). */
  function CalcCurrency(lib: MathLib, ratio: Double, kmult: Double, price: Double): Double
  {
    Mul(kmult, Sub(Div(lib.pow(price, ratio), ratio), Mul(lib.pow(price, Sub(ratio, One)), price)))
  }

  /** `calcPriceFromCurrency`: the price at which the curve holds `currency`. */
  function CalcPriceFromCurrency(lib: MathLib, ratio: Double, kmult: Double, currency: Double): Double
  {
    lib.pow(Div(Neg(Sub(kmult, Div(kmult, ratio))), currency), Div(Num(-1.0), ratio))
  }

  /** At a positive price and for a positive scale and ratio, the curve's
      position and budget are positive numbers. */
  lemma CurvesPositive(lib: MathLib, ratio: Double, kmult: Double, price: Double)
    requires PowPositive(lib)
    requires Above(ratio, 0.0) && Above(kmult, 0.0) && Above(price, 0.0)
    ensures Above(CalcPosition(lib, ratio, kmult, price), 0.0)
    ensures Above(CalcBudget(lib, ratio, kmult, price), 0.0)
  {
    var a := lib.pow(price, Sub(ratio, One));
    assert Sub(ratio, One) == Num(ratio.x - 1.0);
    assert Above(a, 0.0);
    assert kmult.x * a.x > 0.0;
    var b := lib.pow(price, ratio);
    assert Above(b, 0.0);
    assert kmult.x * b.x > 0.0;
    assert (kmult.x * b.x) / ratio.x > 0.0;
  }

  /** The currency the curve holds is its budget less the value of its
      position. */
  lemma CurrencyIsBudgetLessPosition(lib: MathLib, ratio: Double, kmult: Double, price: Double)
    requires PowPositive(lib)
    requires ratio.Num? && ratio.x != 0.0 && kmult.Num? && Above(price, 0.0)
    ensures var c := CalcCurrency(lib, ratio, kmult, price);
      var b := CalcBudget(lib, ratio, kmult, price);
      var p := CalcPosition(lib, ratio, kmult, price);
      c.Num? && b.Num? && p.Num? && c.x == b.x - p.x * price.x
  {
    var a := lib.pow(price, ratio);
    var d := lib.pow(price, Sub(ratio, One));
    assert Sub(ratio, One) == Num(ratio.x - 1.0);
    assert Above(a, 0.0) && Above(d, 0.0);
    assert kmult.x * (a.x / ratio.x - d.x * price.x)
        == (kmult.x * a.x) / ratio.x - (kmult.x * d.x) * price.x;
  }

  // ---------------------------------------------------------------- validity

  /** `isValid`: budget, scale, last price and ratio are all positive. */
  function IsValid(st: State): (ok: bool)
    ensures ok <==> (st.budget.PosInf? || Above(st.budget, 0.0)) && (st.kmult.PosInf? || Above(st.kmult, 0.0))
                    && (st.lastp.PosInf? || Above(st.lastp, 0.0)) && (st.ratio.PosInf? || Above(st.ratio, 0.0))
  {
    Gt(st.budget, Zero) && Gt(st.kmult, Zero) && Gt(st.lastp, Zero) && Gt(st.ratio, Zero)
  }

  // -------------------------------------------------------------------- init

  /** The fitted ratio: the value of the assets over the budget, which is the
      currency alone on a leveraged market and the whole account otherwise. */
  function InitRatio(price: Double, assets: Double, currency: Double, leveraged: bool): Double
  {
    var v := Mul(price, assets);
    Div(v, if leveraged then currency else Add(v, currency))
  }

  /** `init`: the ratio must lie in (0.001, 0.999]; the scale is chosen so the
      curve's position at this price is the reported holdings. */
  function Init(lib: MathLib, cfg: Config, price: Double, assets: Double, currency: Double, leveraged: bool)
    : (r: Result<Pile, InitError>)
    ensures r.Failure? && r.error == NeedAssets <==> Le(InitRatio(price, assets, currency, leveraged), Num(0.001))
    ensures r.Failure? && r.error == NeedCurrency <==> Gt(InitRatio(price, assets, currency, leveraged), Num(0.999))
    ensures r.Success? ==> var st := r.value.st;
      IsValid(st) && r.value.cfg == cfg &&
      st.ratio == InitRatio(price, assets, currency, leveraged) && st.ratio.Num? && 0.001 < st.ratio.x <= 0.999 &&
      st.lastp == price && st.pos == assets && st.berror == Zero &&
      st.budget == CalcBudget(lib, st.ratio, st.kmult, price)
  {
    var ratio := InitRatio(price, assets, currency, leveraged);
    if Le(ratio, Num(0.001)) then Failure(NeedAssets)
    else if Gt(ratio, Num(0.999)) then Failure(NeedCurrency)
    else
      var m := Div(assets, CalcPosition(lib, ratio, One, price));
      var st := State(ratio, m, price, CalcBudget(lib, ratio, m, price), assets, Zero);
      if !IsValid(st) then Failure(ValidationFailed) else Success(Pile(cfg, st))
  }

  /** After a successful `init` at a positive price, the curve's position at
      that price is exactly the reported holdings. */
  lemma InitPositionIsAssets(lib: MathLib, cfg: Config, price: Double, assets: Double, currency: Double,
                             leveraged: bool)
    requires PowPositive(lib)
    requires Above(price, 0.0) && assets.Num?
    requires Init(lib, cfg, price, assets, currency, leveraged).Success?
    ensures var st := Init(lib, cfg, price, assets, currency, leveraged).value.st;
      CalcPosition(lib, st.ratio, st.kmult, price) == assets
  {
    var st := Init(lib, cfg, price, assets, currency, leveraged).value.st;
    var ratio := st.ratio;
    var a := lib.pow(price, Sub(ratio, One));
    assert Sub(ratio, One) == Num(ratio.x - 1.0);
    assert Above(a, 0.0);
    assert CalcPosition(lib, ratio, One, price) == Num(1.0 * a.x);
    assert st.kmult == Num(assets.x / (1.0 * a.x));
    assert (assets.x / (1.0 * a.x)) * a.x == assets.x;
  }

  /** For finite inputs at a positive price and a non-zero budget, `init`
      succeeds exactly when the holdings are positive and their value is more
      than 0.1% and at most 99.9% of the budget. */
  lemma InitSucceedsIff(lib: MathLib, cfg: Config, price: Double, assets: Double, currency: Double,
                        leveraged: bool)
    requires PowPositive(lib)
    requires Above(price, 0.0) && assets.Num? && currency.Num?
    requires var b := if leveraged then currency.x else price.x * assets.x + currency.x; b != 0.0
    ensures var b := if leveraged then currency.x else price.x * assets.x + currency.x;
      var ratio := price.x * assets.x / b;
      Init(lib, cfg, price, assets, currency, leveraged).Success?
      <==> assets.x > 0.0 && 0.001 < ratio <= 0.999
  {
    var b := if leveraged then currency.x else price.x * assets.x + currency.x;
    var ratio := price.x * assets.x / b;
    var v := Mul(price, assets);
    assert v == Num(price.x * assets.x);
    assert (if leveraged then currency else Add(v, currency)) == Num(b);
    assert InitRatio(price, assets, currency, leveraged) == Num(ratio);
    if 0.001 < ratio <= 0.999 {
      var a := lib.pow(price, Sub(Num(ratio), One));
      assert Sub(Num(ratio), One) == Num(ratio - 1.0);
      assert Above(a, 0.0);
      var m := Div(assets, CalcPosition(lib, Num(ratio), One, price));
      assert m == Num(assets.x / (1.0 * a.x));
      if assets.x > 0.0 {
        assert assets.x / (1.0 * a.x) > 0.0;
        CurvesPositive(lib, Num(ratio), m, price);
      } else {
        assert assets.x / (1.0 * a.x) <= 0.0;
      }
    }
  }

  /** Holdings worth the whole account leave no currency: ratio 1 is refused. */
  lemma InitAllInAssetsNeedsCurrency(lib: MathLib, cfg: Config)
    ensures Init(lib, cfg, Num(100.0), Num(1.0), Zero, false) == Failure(NeedCurrency)
  {
  }

  /** Half the account in assets fits: the ratio is 0.5. */
  lemma InitHalfInAssets(lib: MathLib, cfg: Config)
    requires PowPositive(lib)
    ensures var r := Init(lib, cfg, Num(100.0), Num(0.5), Num(50.0), false);
      r.Success? && r.value.st.ratio == Num(0.5)
  {
    assert Mul(Num(100.0), Num(0.5)) == Num(50.0);
    assert InitRatio(Num(100.0), Num(0.5), Num(50.0), false) == Div(Num(50.0), Num(100.0)) == Num(0.5);
    InitSucceedsIff(lib, cfg, Num(100.0), Num(0.5), Num(50.0), false);
  }

  /** No assets at all: the ratio is 0 and `init` asks for assets. */
  lemma InitWithoutAssetsNeedsAssets(lib: MathLib, cfg: Config, price: Double, currency: Double)
    requires Above(price, 0.0) && Above(currency, 0.0)
    ensures Init(lib, cfg, price, Zero, currency, false) == Failure(NeedAssets)
  {
    assert InitRatio(price, Zero, currency, false) == Zero;
  }

  // --------------------------------------------------------------- calcAccum

  /** The extra profit at `newPrice`: the position's gain since the last trade
      less the growth of the curve's budget. */
  function Extra(lib: MathLib, st: State, newPrice: Double): Double
  {
    var pnl := Mul(st.pos, Sub(newPrice, st.lastp));
    var bdiff := Sub(CalcBudget(lib, st.ratio, st.kmult, newPrice), st.budget);
    Sub(pnl, bdiff)
  }

  /** `calcAccum`: the extra profit split into a share reported as profit and
      a share, converted to assets, kept in the position. */
  function CalcAccum(lib: MathLib, p: Pile, newPrice: Double): Accum
  {
    SplitAccum(p.cfg.accum, Extra(lib, p.st, newPrice), newPrice)
  }

  /** Splits `extra` with accumulation share `k`: `1 - k` of it is profit,
      `k` of it is converted to assets at `price`. */
  function SplitAccum(k: Double, extra: Double, price: Double): Accum
  {
    Accum(Mul(Sub(One, k), extra), Mul(k, Div(extra, price)))
  }

  /** With no accumulation configured, the whole extra profit is reported
      and nothing is accumulated. */
  lemma NoAccumReportsAll(lib: MathLib, p: Pile, newPrice: Double)
    requires p.cfg.accum == Zero && Extra(lib, p.st, newPrice).Num? && newPrice.Num? && newPrice.x != 0.0
    ensures CalcAccum(lib, p, newPrice) == Accum(Extra(lib, p.st, newPrice), Zero)
  {
    ZeroShareReportsAll(Extra(lib, p.st, newPrice).x, newPrice.x);
  }

  /** A zero share splits a finite extra profit into all profit, no assets. */
  lemma ZeroShareReportsAll(e: real, price: real)
    requires price != 0.0
    ensures SplitAccum(Zero, Num(e), Num(price)) == Accum(Num(e), Zero)
  {
    ZeroTimes(Div(Num(e), Num(price)));
  }

  /** Zero times a finite number is zero. */
  lemma ZeroTimes(d: Double)
    requires d.Num?
    ensures Mul(Zero, d) == Zero
  {
  }

  /** The split is exact: the reported profit plus the value of the
      accumulated assets at the new price is the extra profit. */
  lemma AccumSplitsExtra(lib: MathLib, p: Pile, newPrice: Double)
    requires p.cfg.accum.Num? && newPrice.Num? && newPrice.x != 0.0
    requires Extra(lib, p.st, newPrice).Num?
    ensures var r := CalcAccum(lib, p, newPrice);
      var e := Extra(lib, p.st, newPrice).x;
      r.normp.Num? && r.accum.Num? &&
      r.normp.x == (1.0 - p.cfg.accum.x) * e &&
      r.accum.x * newPrice.x == p.cfg.accum.x * e &&
      r.normp.x + r.accum.x * newPrice.x == e
  {
    var e := Extra(lib, p.st, newPrice);
    assert CalcAccum(lib, p, newPrice) == SplitAccum(Num(p.cfg.accum.x), Num(e.x), Num(newPrice.x));
    SplitExtra(p.cfg.accum.x, e.x, newPrice.x);
  }

  /** The split of an extra profit `e` with accumulation share `k` at price
      `p`, on finite numbers. */
  lemma SplitExtra(k: real, e: real, p: real)
    requires p != 0.0
    ensures var r := SplitAccum(Num(k), Num(e), Num(p));
      r.normp.Num? && r.accum.Num? &&
      r.normp.x == (1.0 - k) * e && r.accum.x * p == k * e && r.normp.x + r.accum.x * p == e
  {
    assert Div(Num(e), Num(p)) == Num(e / p);
    assert (k * (e / p)) * p == k * e;
  }

  // ------------------------------------------------------------- getNewOrder

  /** `getNewOrder`: no price override, and the size that brings the
      holdings to the curve's position plus the accumulated assets. No alert
      is set. */
  function GetNewOrder(lib: MathLib, p: Pile, minfo: MarketInfo, curPrice: Double, newPrice: Double,
                       dir: Double, assets: Double, currency: Double, rejected: bool): (o: OrderData)
    ensures o.price == Zero && o.alert == Unset
  {
    var finPos := Add(CalcPosition(lib, p.st.ratio, p.st.kmult, newPrice), CalcAccum(lib, p, newPrice).accum);
    OrderData(Zero, Sub(finPos, assets), Unset)
  }

  /** With finite numbers, filling the order leaves exactly the curve's
      position plus the accumulated assets. */
  lemma OrderReachesTarget(lib: MathLib, p: Pile, minfo: MarketInfo, curPrice: Double, newPrice: Double,
                           dir: Double, assets: Double, currency: Double, rejected: bool)
    requires assets.Num?
    requires CalcPosition(lib, p.st.ratio, p.st.kmult, newPrice).Num? && CalcAccum(lib, p, newPrice).accum.Num?
    ensures var o := GetNewOrder(lib, p, minfo, curPrice, newPrice, dir, assets, currency, rejected);
      o.size.Num? &&
      assets.x + o.size.x == CalcPosition(lib, p.st.ratio, p.st.kmult, newPrice).x + CalcAccum(lib, p, newPrice).accum.x
  {
  }

  // ----------------------------------------------------------------- onTrade

  /** `onTrade` on a valid strategy: ratio and scale stay, the curve's budget
      moves to the trade price, the accumulated assets come out of the
      position, and the rest of the holdings' deviation from the curve is
      booked as `berror`. An invalid strategy is first initialised from the
      holdings before the trade, then the trade is applied to that. */
  function OnTrade(lib: MathLib, p: Pile, minfo: MarketInfo, tradePrice: Double, tradeSize: Double,
                   assetsLeft: Double, currencyLeft: Double): (r: Result<Traded, InitError>)
    decreases if IsValid(p.st) then 0 else 1
    ensures r.Failure? <==>
              !IsValid(p.st) &&
              Init(lib, p.cfg, tradePrice, Sub(assetsLeft, tradeSize), currencyLeft, Leveraged(minfo)).Failure?
    ensures r.Success? ==> var n := r.value.next;
      n.cfg == p.cfg && n.st.lastp == tradePrice &&
      n.st.budget == CalcBudget(lib, n.st.ratio, n.st.kmult, tradePrice) &&
      n.st.berror == Mul(Sub(n.st.pos, CalcPosition(lib, n.st.ratio, n.st.kmult, tradePrice)), tradePrice)
    ensures r.Success? && IsValid(p.st) ==> var n := r.value.next.st;
      var acc := CalcAccum(lib, p, tradePrice);
      n.ratio == p.st.ratio && n.kmult == p.st.kmult && n.pos == Sub(assetsLeft, acc.accum) &&
      r.value.report == TradeReport(acc.normp, acc.accum, Zero, Zero)
  {
    if !IsValid(p.st) then
      match Init(lib, p.cfg, tradePrice, Sub(assetsLeft, tradeSize), currencyLeft, Leveraged(minfo))
      case Failure(e) => Failure(e)
      case Success(q) => OnTrade(lib, q, minfo, tradePrice, tradeSize, assetsLeft, currencyLeft)
    else
      var acc := CalcAccum(lib, p, tradePrice);
      var cass := CalcPosition(lib, p.st.ratio, p.st.kmult, tradePrice);
      var diff := Sub(Sub(assetsLeft, cass), acc.accum);
      var pos := Sub(assetsLeft, acc.accum);
      SubCommutes(assetsLeft, cass, acc.accum);
      Success(Traded(TradeReport(acc.normp, acc.accum, Zero, Zero),
                     Pile(p.cfg, State(p.st.ratio, p.st.kmult, tradePrice,
                                       CalcBudget(lib, p.st.ratio, p.st.kmult, tradePrice),
                                       pos, Mul(diff, tradePrice)))))
  }

  /** Subtracting two amounts in either order gives the same double, with
      infinities and NaN included. */
  lemma SubCommutes(a: Double, b: Double, c: Double)
    ensures Sub(Sub(a, b), c) == Sub(Sub(a, c), b)
  {
    if a.NaN? || b.NaN? || c.NaN? {
    } else if a.Num? && b.Num? && c.Num? {
    } else if a.Num? {
      assert Sub(a, b) == Neg(b) || b.Num?;
    }
  }

  /** An invalid strategy that `init` accepts is traded as that fresh
      strategy: the re-initialisation happens once, then the valid branch. */
  lemma OnTradeInvalidReinitialisesOnce(lib: MathLib, p: Pile, minfo: MarketInfo, tradePrice: Double,
                                        tradeSize: Double, assetsLeft: Double, currencyLeft: Double)
    requires !IsValid(p.st)
    requires Init(lib, p.cfg, tradePrice, Sub(assetsLeft, tradeSize), currencyLeft, Leveraged(minfo)).Success?
    ensures var q := Init(lib, p.cfg, tradePrice, Sub(assetsLeft, tradeSize), currencyLeft, Leveraged(minfo)).value;
      IsValid(q.st) &&
      OnTrade(lib, p, minfo, tradePrice, tradeSize, assetsLeft, currencyLeft)
      == OnTrade(lib, q, minfo, tradePrice, tradeSize, assetsLeft, currencyLeft)
  {
  }

  /** A trade at a positive price keeps a valid strategy valid. */
  lemma OnTradeKeepsValid(lib: MathLib, p: Pile, minfo: MarketInfo, tradePrice: Double, tradeSize: Double,
                          assetsLeft: Double, currencyLeft: Double)
    requires PowPositive(lib)
    requires IsValid(p.st) && p.st.ratio.Num? && p.st.kmult.Num?
    requires Above(tradePrice, 0.0)
    ensures var r := OnTrade(lib, p, minfo, tradePrice, tradeSize, assetsLeft, currencyLeft);
      r.Success? && IsValid(r.value.next.st)
  {
    var r := OnTrade(lib, p, minfo, tradePrice, tradeSize, assetsLeft, currencyLeft);
    assert r.Success?;
    var n := r.value.next.st;
    assert n.ratio == p.st.ratio && n.kmult == p.st.kmult && n.lastp == tradePrice;
    assert n.budget == CalcBudget(lib, p.st.ratio, p.st.kmult, tradePrice);
    CurvesPositive(lib, p.st.ratio, p.st.kmult, tradePrice);
  }

  // ----------------------------------------------------------- calcSafeRange

  /** `calcSafeRange`: the highest price is where the curve would have sold
      the excess of its position over the holdings (none: unbounded); the
      lowest is where the curve would have spent the currency it lacks
      (none: 0). */
  function CalcSafeRange(lib: MathLib, p: Pile, minfo: MarketInfo, assets: Double, currencies: Double)
    : (r: MinMax)
    ensures var pos := CalcPosition(lib, p.st.ratio, p.st.kmult, p.st.lastp);
      (!Gt(pos, assets) ==> r.max.PosInf?) &&
      (Gt(pos, assets) ==> r.max == CalcEquilibrium(lib, p.st.ratio, p.st.kmult, Sub(pos, assets)))
    ensures var pos := CalcPosition(lib, p.st.ratio, p.st.kmult, p.st.lastp);
      var cur := CalcCurrency(lib, p.st.ratio, p.st.kmult, p.st.lastp);
      var avail := Add(currencies, if Gt(assets, pos) then Mul(Sub(assets, pos), p.st.lastp) else Zero);
      (!Gt(cur, avail) ==> r.min == Zero) &&
      (Gt(cur, avail) ==> r.min == CalcPriceFromCurrency(lib, p.st.ratio, p.st.kmult, Sub(cur, avail)))
  {
    var pos := CalcPosition(lib, p.st.ratio, p.st.kmult, p.st.lastp);
    var max := if Gt(pos, assets) then CalcEquilibrium(lib, p.st.ratio, p.st.kmult, Sub(pos, assets)) else PosInf;
    var cur := CalcCurrency(lib, p.st.ratio, p.st.kmult, p.st.lastp);
    var avail := Add(currencies, if Gt(assets, pos) then Mul(Sub(assets, pos), p.st.lastp) else Zero);
    var min := if Gt(cur, avail) then CalcPriceFromCurrency(lib, p.st.ratio, p.st.kmult, Sub(cur, avail)) else Zero;
    MinMax(min, max)
  }

  /** Holding at least the curve's position and the curve's currency leaves
      the range unbounded on both sides: [0, +inf). */
  lemma CoveredPositionIsUnbounded(lib: MathLib, p: Pile, minfo: MarketInfo, assets: Double, currencies: Double)
    requires Le(CalcPosition(lib, p.st.ratio, p.st.kmult, p.st.lastp), assets)
    requires Ge(currencies, CalcCurrency(lib, p.st.ratio, p.st.kmult, p.st.lastp))
    requires AtLeast(assets, 0.0) && currencies.Num? && Above(p.st.lastp, 0.0)
    ensures CalcSafeRange(lib, p, minfo, assets, currencies) == MinMax(Zero, PosInf)
  {
    var pos := CalcPosition(lib, p.st.ratio, p.st.kmult, p.st.lastp);
    var cur := CalcCurrency(lib, p.st.ratio, p.st.kmult, p.st.lastp);
    var extra := if Gt(assets, pos) then Mul(Sub(assets, pos), p.st.lastp) else Zero;
    assert extra.PosInf? || AtLeast(extra, 0.0);
    assert Ge(Add(currencies, extra), currencies);
  }

  // ---------------------------------------------------------- export / import

  /** The names the six fields are stored under. */
  const FieldNames: set<string> := {"ratio", "kmult", "lastp", "budget", "pos", "berror"}

  /** `exportState`: the six fields by name. */
  function ExportState(st: State): (fields: map<string, Double>)
    ensures fields.Keys == FieldNames
  {
    map["ratio" := st.ratio, "kmult" := st.kmult, "lastp" := st.lastp, "budget" := st.budget,
        "pos" := st.pos, "berror" := st.berror]
  }

  /** A field's number; a missing field reads as 0. */
  function Field(fields: map<string, Double>, name: string): Double
  {
    if name in fields then fields[name] else Zero
  }

  /** `importState`: the configuration is kept and the six fields are read by
      name. */
  function ImportState(p: Pile, fields: map<string, Double>): (r: Pile)
    ensures r.cfg == p.cfg
    ensures "ratio" !in fields ==> r.st.ratio == Zero && !IsValid(r.st)
  {
    Pile(p.cfg, State(Field(fields, "ratio"), Field(fields, "kmult"), Field(fields, "lastp"),
                      Field(fields, "budget"), Field(fields, "pos"), Field(fields, "berror")))
  }

  /** Importing an export gives back the whole state. */
  lemma ImportExportRoundTrip(p: Pile, st: State)
    ensures ImportState(p, ExportState(st)) == Pile(p.cfg, st)
  {
  }

  /** Exporting an import gives back a field map with exactly the six names. */
  lemma ExportImportRoundTrip(p: Pile, fields: map<string, Double>)
    requires fields.Keys == FieldNames
    ensures ExportState(ImportState(p, fields).st) == fields
  {
    var e := ExportState(ImportState(p, fields).st);
    assert e.Keys == fields.Keys;
    forall k | k in fields
      ensures e[k] == fields[k]
    {
    }
  }

  // ------------------------------------------------------------------ onIdle

  /** `onIdle`: a valid strategy is kept; any other is initialised from the
      ticker's last price and the reported holdings. */
  function OnIdle(lib: MathLib, p: Pile, minfo: MarketInfo, ticker: Ticker, assets: Double, currency: Double)
    : (r: Result<Pile, InitError>)
    ensures IsValid(p.st) ==> r == Success(p)
    ensures !IsValid(p.st) ==> r == Init(lib, p.cfg, ticker.last, assets, currency, Leveraged(minfo))
    ensures r.Success? ==> IsValid(r.value.st) && r.value.cfg == p.cfg
    ensures !IsValid(p.st) && r.Success? ==> r.value.st.lastp == ticker.last && r.value.st.pos == assets
  {
    if !IsValid(p.st) then Init(lib, p.cfg, ticker.last, assets, currency, Leveraged(minfo))
    else Success(p)
  }

  /** A second idle call changes nothing. */
  lemma OnIdleIdempotent(lib: MathLib, p: Pile, minfo: MarketInfo, ticker: Ticker, assets: Double,
                         currency: Double)
    requires OnIdle(lib, p, minfo, ticker, assets, currency).Success?
    ensures var q := OnIdle(lib, p, minfo, ticker, assets, currency).value;
      OnIdle(lib, q, minfo, ticker, assets, currency) == Success(q)
  {
  }

  // ----------------------------------------------------- calcInitialPosition

  /** `calcInitialPosition`: the configured share of the budget, in assets at
      this price; the budget is the currency alone on a leveraged market. */
  function CalcInitialPosition(p: Pile, minfo: MarketInfo, price: Double, assets: Double, currency: Double)
    : (r: Double)
  {
    var budget := if Leveraged(minfo) then currency else Add(currency, Mul(price, assets));
    Div(Mul(budget, p.cfg.ratio), price)
  }

  /** With finite numbers at a positive price, the initial position is worth
      the configured share of the budget. */
  lemma InitialPositionWorthShare(p: Pile, minfo: MarketInfo, price: Double, assets: Double, currency: Double)
    requires Above(price, 0.0) && assets.Num? && currency.Num? && p.cfg.ratio.Num?
    ensures var budget := if Leveraged(minfo) then currency.x else currency.x + price.x * assets.x;
      var r := CalcInitialPosition(p, minfo, price, assets, currency);
      r.Num? && r.x * price.x == budget * p.cfg.ratio.x
  {
    var budget := if Leveraged(minfo) then currency.x else currency.x + price.x * assets.x;
    assert (budget * p.cfg.ratio.x) / price.x * price.x == budget * p.cfg.ratio.x;
  }
}
