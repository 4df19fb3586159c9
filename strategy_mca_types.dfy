/** The configuration and state records of the averaging ("mathematical cost
    averaging") strategy, with the defaults a bare constructor gives them. */
module StrategyMcaTypes {
  import opened Float64

  /** Operator-chosen tuning constants; never changed by the strategy. */
  datatype Config = Config(
    buyStrength: Double,
    sellStrength: Double,
    initBet: Double,      // initial bet, percent of the budget
    minPnl: Double,       // declared, never read
    useSentiment: bool)   // declared, never read

  /** The six-slot trade-direction history. */
  type History = h: seq<int> | |h| == 6 witness [0, 0, 0, 0, 0, 0]

  const EmptyHistory: History := [0, 0, 0, 0, 0, 0]

  /** The persisted state. The first seven fields are the doubles the strategy
      reads and writes (ebPriceEnter is where the emergency grid starts); alerts,
      history and sentiment are declared but never touched, so they keep their
      defaults. */
  datatype State = State(
    ep: Double,           // sum paid for the held assets
    enter: Double,        // average entry price ep/assets, NaN before any position
    budget: Double,
    assets: Double,
    currency: Double,
    lastPrice: Double,
    ebPriceEnter: Double,
    alerts: int,
    history: History,
    sentiment: int)

  /** `State{ep, enter, budget, assets, currency, last_price, ebPriceEnter}`:
      aggregate initialisation, every member not listed takes its default. */
  function MakeState(ep: Double, enter: Double, budget: Double, assets: Double,
                     currency: Double, lastPrice: Double, ebPriceEnter: Double): (st: State)
    ensures st.alerts == 0 && st.history == EmptyHistory && st.sentiment == 0
  {
    State(ep, enter, budget, assets, currency, lastPrice, ebPriceEnter, 0, EmptyHistory, 0)
  }

  /** `State{}`: no position, no budget. Both enter and budget are NaN. */
  const DefaultState: State := MakeState(Zero, NaN, NaN, Zero, Zero, Zero, Zero)

  /** A strategy instance owns its configuration and state by value. Every
      operation builds a new instance; none changes one. */
  datatype Mca = Mca(cfg: Config, st: State)

  /** `Strategy_Mca(cfg)`: the configuration with the default state. */
  function FromConfig(cfg: Config): (s: Mca)
    ensures s.cfg == cfg
    ensures s.st.enter.NaN? && s.st.budget.NaN?
    ensures s.st.ep == Zero && s.st.assets == Zero && s.st.currency == Zero && s.st.lastPrice == Zero
    ensures s.st.alerts == 0 && s.st.sentiment == 0
    ensures forall i :: 0 <= i < 6 ==> s.st.history[i] == 0
  {
    Mca(cfg, DefaultState)
  }
}
