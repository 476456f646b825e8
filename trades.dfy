/**
 * The paper-trading records: a trade row of the trades table, the dictionary
 * view of it that the dashboard keeps in `active_trades`, the virtual account,
 * and the sign convention every P&L computation shares.
 * Money is modelled as `real`; rounding to two decimals is not modelled.
 */
module Trades {
  import opened Wrappers
  import KiteConfig

  const BUY: string := "BUY"
  const SELL: string := "SELL"
  const CALL: string := "CE"
  const PUT: string := "PE"

  /** Fraction of the entry value blocked as margin when a trade is opened. */
  const MARGIN_RATE: real := 0.2

  /** Capital of a freshly created virtual account. */
  const INITIAL_CAPITAL: real := 1000000.0

  datatype TradeStatus = Active | Closed | Expired

  /** +1 for a BUY leg, -1 for a leg of any other position type. */
  function Multiplier(positionType: string): real {
    if positionType == BUY then 1.0 else -1.0
  }

  /**
   * P&L of `quantity` units opened at `entryPrice` and now valued at `price`:
   * a BUY leg gains when the price rises, any other leg when it falls.
   */
  function SignedPnl(positionType: string, entryPrice: real, price: real, quantity: int): real {
    Multiplier(positionType) * (price - entryPrice) * (quantity as real)
  }

  /** The two sides of the sign convention, and no P&L at the entry price. */
  lemma SignedPnlBySide(positionType: string, entryPrice: real, price: real, quantity: int)
    ensures positionType == BUY ==> SignedPnl(positionType, entryPrice, price, quantity) == (price - entryPrice) * (quantity as real)
    ensures positionType != BUY ==> SignedPnl(positionType, entryPrice, price, quantity) == (entryPrice - price) * (quantity as real)
    ensures price == entryPrice ==> SignedPnl(positionType, entryPrice, price, quantity) == 0.0
  {
  }

  /** A BUY leg and a non-BUY leg on the same terms have opposite P&L. */
  lemma OppositeSidesOppositePnl(positionType: string, entryPrice: real, price: real, quantity: int)
    requires positionType != BUY
    ensures SignedPnl(BUY, entryPrice, price, quantity) == -SignedPnl(positionType, entryPrice, price, quantity)
  {
  }

  /** A row of the trades table: one leg of a strategy. */
  datatype Trade = Trade(
    id: int,
    strategyId: string,
    strategyName: string,
    symbol: string,
    instrumentToken: int,
    tradingsymbol: string,
    exchange: string,
    strikePrice: real,
    expiryDate: string,
    optionType: string,
    positionType: string,
    quantity: int,
    lotSize: int,
    entryPrice: real,
    currentPrice: real,
    exitPrice: Option<real>,
    status: TradeStatus,
    marginUsed: real)
  {
    /** The `pnl` property. */
    function Pnl(): real {
      SignedPnl(positionType, entryPrice, currentPrice, quantity)
    }

    function EntryValue(): real {
      entryPrice * (quantity as real)
    }

    /** The `pnl_percentage` property. */
    function PnlPercentage(): real {
      if EntryValue() == 0.0 then 0.0 else Pnl() / EntryValue() * 100.0
    }

    /** `to_dict`: the view of the row kept in `active_trades`. */
    function ToDict(): Leg {
      Leg(id, strategyId, strategyName, symbol, tradingsymbol, instrumentToken, strikePrice,
          expiryDate, optionType, positionType, quantity, entryPrice, currentPrice,
          Pnl(), PnlPercentage(), status)
    }
  }

  /** The percentage is the P&L per 100 of entry value, and 0 for a zero entry value. */
  lemma PnlPercentageMeaning(t: Trade)
    ensures t.EntryValue() == 0.0 ==> t.PnlPercentage() == 0.0
    ensures t.EntryValue() != 0.0 ==> t.PnlPercentage() * t.EntryValue() == t.Pnl() * 100.0
  {
  }

  /** The dictionary `Trade.to_dict` builds and `_update_pnl` refreshes in place. */
  datatype Leg = Leg(
    id: int,
    strategyId: string,
    strategyName: string,
    symbol: string,
    tradingsymbol: string,
    instrumentToken: int,
    strikePrice: real,
    expiryDate: string,
    optionType: string,
    positionType: string,
    quantity: int,
    entryPrice: real,
    currentPrice: real,
    pnl: real,
    pnlPercentage: real,
    status: TradeStatus)

  /** The arguments of `add_trade`; an empty strategy id or name stands for "not given". */
  datatype TradeRequest = TradeRequest(
    symbol: string,
    strikePrice: real,
    expiryDate: string,
    optionType: string,
    positionType: string,
    lots: int,
    entryPrice: real,
    instrumentToken: int,
    tradingsymbol: string,
    strategyId: string,
    strategyName: string)

  function Quantity(req: TradeRequest): int {
    req.lots * KiteConfig.LotSize(req.symbol)
  }

  function MarginRequired(req: TradeRequest): real {
    req.entryPrice * (Quantity(req) as real) * MARGIN_RATE
  }

  /**
   * The row `add_trade` inserts under primary key `id`; `generatedStrategyId`
   * stands for the random identifier it draws when no strategy id is given.
   */
  function OpenedTrade(id: int, req: TradeRequest, generatedStrategyId: string): (t: Trade)
    ensures t.id == id && t.status == Active && t.exitPrice == None
    ensures t.quantity == req.lots * t.lotSize && t.lotSize == KiteConfig.LotSize(req.symbol)
    ensures t.currentPrice == t.entryPrice == req.entryPrice
    ensures t.marginUsed == t.EntryValue() * MARGIN_RATE
    ensures t.Pnl() == 0.0 && t.PnlPercentage() == 0.0
    ensures t.strategyId == (if req.strategyId == "" then generatedStrategyId else req.strategyId)
    ensures t.exchange == (if req.symbol == "SENSEX" then "BFO" else "NFO")
  {
    Trade(
      id := id,
      strategyId := if req.strategyId == "" then generatedStrategyId else req.strategyId,
      strategyName := if req.strategyName == "" then req.symbol + " Trade" else req.strategyName,
      symbol := req.symbol,
      instrumentToken := req.instrumentToken,
      tradingsymbol := req.tradingsymbol,
      exchange := if req.symbol != "SENSEX" then "NFO" else "BFO",
      strikePrice := req.strikePrice,
      expiryDate := req.expiryDate,
      optionType := req.optionType,
      positionType := req.positionType,
      quantity := Quantity(req),
      lotSize := KiteConfig.LotSize(req.symbol),
      entryPrice := req.entryPrice,
      currentPrice := req.entryPrice,
      exitPrice := None,
      status := Active,
      marginUsed := MarginRequired(req))
  }

  /** The P&L `close_trade` realises when it closes `t` at `exitPrice`: the row's `pnl` valued at that price. */
  function FinalPnl(t: Trade, exitPrice: real): real {
    SignedPnl(t.positionType, t.entryPrice, exitPrice, t.quantity)
  }

  /** The row after `close_trade`: frozen at its exit price. */
  function ClosedAt(t: Trade, exitPrice: real): (r: Trade)
    ensures r.status == Closed && r.exitPrice == Some(exitPrice) && r.currentPrice == exitPrice
  {
    t.(exitPrice := Some(exitPrice), currentPrice := exitPrice, status := Closed)
  }

  /** A closed row shows the final P&L, and closing changes nothing but the price, the exit price and the status. */
  lemma ClosedAtFreezes(t: Trade, exitPrice: real)
    ensures ClosedAt(t, exitPrice).Pnl() == FinalPnl(t, exitPrice)
    ensures ClosedAt(t, exitPrice).(currentPrice := t.currentPrice, exitPrice := t.exitPrice, status := t.status) == t
  {
  }

  /** The margin and P&L fields of the virtual account. */
  datatype Account = Account(initialCapital: real, availableMargin: real, usedMargin: real, realizedPnl: real)

  /** Available plus used margin is the initial capital plus everything realised so far. */
  ghost predicate Balanced(a: Account) {
    a.availableMargin + a.usedMargin == a.initialCapital + a.realizedPnl
  }

  /** Blocking `margin` for a new trade moves it from available to used margin. */
  function Debit(a: Account, margin: real): (r: Account)
    ensures r.availableMargin + r.usedMargin == a.availableMargin + a.usedMargin
    ensures r.usedMargin - a.usedMargin == margin
    ensures r.realizedPnl == a.realizedPnl && r.initialCapital == a.initialCapital
    ensures Balanced(r) <==> Balanced(a)
  {
    a.(availableMargin := a.availableMargin - margin, usedMargin := a.usedMargin + margin)
  }

  /** Closing a trade releases its margin and credits its final P&L. */
  function Release(a: Account, margin: real, pnl: real): (r: Account)
    ensures (r.availableMargin + r.usedMargin) - (a.availableMargin + a.usedMargin) == pnl
    ensures a.usedMargin - r.usedMargin == margin
    ensures r.realizedPnl - a.realizedPnl == pnl && r.initialCapital == a.initialCapital
    ensures Balanced(r) <==> Balanced(a)
  {
    a.(availableMargin := a.availableMargin + margin + pnl,
       usedMargin := a.usedMargin - margin,
       realizedPnl := a.realizedPnl + pnl)
  }

  /**
   * Opening a trade and closing it at its own entry price realises nothing
   * and gives the account back exactly as it was.
   */
  lemma OpenCloseRoundTrip(a: Account, id: int, req: TradeRequest, generatedStrategyId: string)
    ensures var t := OpenedTrade(id, req, generatedStrategyId);
            FinalPnl(t, t.entryPrice) == 0.0 &&
            Release(Debit(a, t.marginUsed), t.marginUsed, FinalPnl(t, t.entryPrice)) == a
  {
  }
}
