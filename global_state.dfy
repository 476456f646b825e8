/**
 * `GlobalState`: the dashboard's application state. Its methods change the
 * state in place, and each is proved to leave the state that the pure
 * definitions of the other modules give for the state before it.
 */
module State {
  import opened Wrappers
  import opened Trades
  import opened Valuation
  import opened Ledger
  import opened Portfolio
  import Ticker
  import Notices
  import KiteConfig
  import Payoff

  class GlobalState {
    // Session credentials.
    var apiKey: string
    var accessToken: string

    // Ticker connection: `is_ticker_connected`, `ticker_status`, whether
    // `_ticker_instance` is set, and `_should_stop_ticker`.
    var isTickerConnected: bool
    var tickerStatus: Ticker.TickerStatus
    var hasTickerInstance: bool
    var shouldStopTicker: bool

    // Market data written by the feed.
    var niftySpot: real
    var bankniftySpot: real
    var ltpCache: map<int, real>

    // Trades and their totals.
    var activeTrades: seq<Leg>
    var totalPnl: real
    var totalPnlPercentage: real

    // Virtual account, as the state holds it.
    var availableMargin: real
    var usedMargin: real

    // The database: the trades table, and the user's virtual account row if there is one.
    var rows: seq<Trade>
    var account: Option<Account>

    // `message` and `message_type`.
    var message: Notices.Notice

    function Market(): MarketData
      reads this
    {
      MarketData(ltpCache, niftySpot, bankniftySpot)
    }

    function Flags(): Ticker.TickerFlags
      reads this
    {
      Ticker.TickerFlags(isTickerConnected, tickerStatus, hasTickerInstance, shouldStopTicker)
    }

    /** The trade book: the trades table, the active list, the margins and the account row. */
    function CurrentBook(): Book
      reads this
    {
      Book(rows, activeTrades, availableMargin, usedMargin, account)
    }

    ghost predicate Valid()
      reads this
    {
      Portfolio.Valid(CurrentBook())
    }

    /**
     * A fresh session with an empty trades table; when `withAccount` holds,
     * the user has a virtual account row with its default capital.
     */
    constructor (apiKey: string, accessToken: string, withAccount: bool)
      ensures this.apiKey == apiKey && this.accessToken == accessToken
      ensures Flags() == Ticker.TickerFlags(false, Ticker.Disconnected, false, false)
      ensures Market() == MarketData(map[], 0.0, 0.0)
      ensures activeTrades == [] && totalPnl == 0.0 && totalPnlPercentage == 0.0
      ensures availableMargin == INITIAL_CAPITAL && usedMargin == 0.0
      ensures rows == [] && message == Notices.NoNotice
      ensures account == if withAccount then Some(Account(INITIAL_CAPITAL, INITIAL_CAPITAL, 0.0, 0.0)) else None
      ensures Valid() && Reconciled(CurrentBook()) && Synced(CurrentBook())
      ensures account.Some? ==> Balanced(account.value)
    {
      this.apiKey := apiKey;
      this.accessToken := accessToken;
      isTickerConnected := false;
      tickerStatus := Ticker.Disconnected;
      hasTickerInstance := false;
      shouldStopTicker := false;
      niftySpot := 0.0;
      bankniftySpot := 0.0;
      ltpCache := map[];
      activeTrades := [];
      totalPnl := 0.0;
      totalPnlPercentage := 0.0;
      availableMargin := INITIAL_CAPITAL;
      usedMargin := 0.0;
      rows := [];
      account := if withAccount then Some(Account(INITIAL_CAPITAL, INITIAL_CAPITAL, 0.0, 0.0)) else None;
      message := Notices.NoNotice;
    }

    /**
     * The body of `_update_pnl`'s loop for one leg, in the source's own steps:
     * its price from the cache, then its P&L and percentage. It is split out of
     * `UpdatePnl` to keep that proof small, and is proved to compute `RefreshLeg`,
     * which defines the revaluation.
     */
    method RevalueLeg(trade: Leg) returns (refreshed: Leg)
      ensures refreshed == RefreshLeg(trade, ltpCache)
    {
      var currentLtp := if trade.instrumentToken in ltpCache then ltpCache[trade.instrumentToken] else trade.currentPrice;
      var multiplier := if trade.positionType == BUY then 1.0 else -1.0;
      var pnl := multiplier * (currentLtp - trade.entryPrice) * (trade.quantity as real);
      var entryValue := trade.entryPrice * (trade.quantity as real);
      var pnlPercentage := trade.pnlPercentage;
      if entryValue > 0.0 {
        pnlPercentage := pnl / entryValue * 100.0;
      }
      refreshed := trade.(currentPrice := currentLtp, pnl := pnl, pnlPercentage := pnlPercentage);
    }

    /** `_update_pnl`: revalue every active leg from the LTP cache and recompute the totals. */
    method UpdatePnl()
      modifies this`activeTrades, this`totalPnl, this`totalPnlPercentage
      ensures activeTrades == RefreshAll(old(activeTrades), ltpCache)
      ensures totalPnl == TotalPnl(activeTrades)
      ensures totalPnlPercentage == TotalPercentage(activeTrades, old(totalPnlPercentage))
      ensures old(Valid()) ==> Valid()
    {
      var total := 0.0;
      var totalEntryValue := 0.0;
      var updated: seq<Leg> := [];
      var i := 0;
      while i < |activeTrades|
        invariant 0 <= i <= |activeTrades| && activeTrades == old(activeTrades)
        invariant totalPnlPercentage == old(totalPnlPercentage)
        invariant |updated| == i
        invariant forall k :: 0 <= k < i ==> updated[k] == RefreshLeg(activeTrades[k], ltpCache)
        invariant total == TotalPnl(updated)
        invariant totalEntryValue == TotalEntryValue(updated)
      {
        var trade := activeTrades[i];
        var refreshed := RevalueLeg(trade);
        TotalsAppend(updated, refreshed);
        total := total + refreshed.pnl;
        totalEntryValue := totalEntryValue + LegEntryValue(trade);
        updated := updated + [refreshed];
        i := i + 1;
      }
      assert updated == RefreshAll(activeTrades, ltpCache);
      activeTrades := updated;
      totalPnl := total;
      if totalEntryValue > 0.0 {
        totalPnlPercentage := total / totalEntryValue * 100.0;
      }
      IdsOfRefreshAll(old(activeTrades), ltpCache);
    }

    /** `_process_ticks_sync`: fold a batch of ticks into the market data, then revalue. */
    method ProcessTicks(ticks: seq<Tick>)
      modifies this`niftySpot, this`bankniftySpot, this`ltpCache
      modifies this`activeTrades, this`totalPnl, this`totalPnlPercentage
      ensures Market() == Ingest(old(Market()), ticks)
      ensures activeTrades == RefreshAll(old(activeTrades), ltpCache)
      ensures totalPnl == TotalPnl(activeTrades)
      ensures totalPnlPercentage == TotalPercentage(activeTrades, old(totalPnlPercentage))
      ensures old(Valid()) ==> Valid()
    {
      var i := 0;
      while i < |ticks|
        invariant 0 <= i <= |ticks|
        invariant Market() == Ingest(old(Market()), ticks[..i])
        invariant activeTrades == old(activeTrades) && totalPnlPercentage == old(totalPnlPercentage)
      {
        var tick := ticks[i];
        match tick.instrumentToken {
          case None =>
          case Some(token) =>
            var ltp := TickPrice(tick);
            if token == KiteConfig.NIFTY_50_TOKEN {
              niftySpot := ltp;
            } else if token == KiteConfig.NIFTY_BANK_TOKEN {
              bankniftySpot := ltp;
            }
            ltpCache := ltpCache[token := ltp];
        }
        assert ticks[..i + 1][..i] == ticks[..i];
        i := i + 1;
      }
      assert ticks[..i] == ticks;
      UpdatePnl();
      IdsOfRefreshAll(old(activeTrades), ltpCache);
    }

    /**
     * `add_trade`: open a leg if the available margin covers 20% of its entry
     * value; `generatedStrategyId` stands for the random id drawn when the
     * request names no strategy.
     */
    method AddTrade(req: TradeRequest, generatedStrategyId: string)
      modifies this`rows, this`activeTrades, this`availableMargin, this`usedMargin, this`account, this`message
      ensures (CurrentBook(), message) == Portfolio.AddTrade(old(CurrentBook()), req, generatedStrategyId)
      ensures old(Valid()) ==> Valid()
    {
      var marginRequired := MarginRequired(req);
      if marginRequired > availableMargin {
        message := Notices.InsufficientMargin(marginRequired, availableMargin);
        return;
      }
      var trade := OpenedTrade(|rows| + 1, req, generatedStrategyId);
      rows := rows + [trade];
      availableMargin := availableMargin - marginRequired;
      usedMargin := usedMargin + marginRequired;
      if account.Some? {
        account := Some(account.value.(availableMargin := availableMargin, usedMargin := usedMargin));
      }
      activeTrades := activeTrades + [trade.ToDict()];
      message := Notices.TradeAdded(req.tradingsymbol);
      assert old(Valid()) ==> Valid() by {
        if old(Valid()) {
          AddTradeKeepsValid(old(CurrentBook()), req, generatedStrategyId);
        }
      }
    }

    /**
     * `close_trade`: freeze the row at `exitPrice`, release its margin and
     * realise its P&L, then drop the leg from the active list and revalue.
     */
    method CloseTrade(tradeId: int, exitPrice: real)
      modifies this`rows, this`activeTrades, this`totalPnl, this`totalPnlPercentage
      modifies this`availableMargin, this`usedMargin, this`account, this`message
      ensures (CurrentBook(), message) == Portfolio.CloseTrade(old(CurrentBook()), tradeId, exitPrice, ltpCache)
      ensures Lookup(old(rows), tradeId).None? ==> totalPnl == old(totalPnl) && totalPnlPercentage == old(totalPnlPercentage)
      ensures Lookup(old(rows), tradeId).Some? ==>
                totalPnl == TotalPnl(activeTrades) && totalPnlPercentage == TotalPercentage(activeTrades, old(totalPnlPercentage))
      ensures old(Valid()) ==> Valid()
    {
      ghost var target := Portfolio.CloseTrade(CurrentBook(), tradeId, exitPrice, ltpCache);
      if !(1 <= tradeId <= |rows|) {
        assert target == (CurrentBook(), Notices.TradeNotFound);
        message := Notices.TradeNotFound;
        return;
      }
      var trade := rows[tradeId - 1];
      var finalPnl := FinalPnl(trade, exitPrice);
      rows := rows[tradeId - 1 := ClosedAt(trade, exitPrice)];
      availableMargin := availableMargin + trade.marginUsed + finalPnl;
      usedMargin := usedMargin - trade.marginUsed;
      if account.Some? {
        account := Some(account.value.(availableMargin := availableMargin, usedMargin := usedMargin,
                                       realizedPnl := account.value.realizedPnl + finalPnl));
      }
      assert rows == target.0.rows && account == target.0.account;
      assert availableMargin == target.0.availableMargin && usedMargin == target.0.usedMargin;
      var remaining := RemoveId(activeTrades, tradeId);
      assert target.0.activeTrades == RefreshAll(remaining, ltpCache);
      activeTrades := remaining;
      ghost var percentageBefore := totalPnlPercentage;
      assert percentageBefore == old(totalPnlPercentage);
      UpdatePnl();
      assert activeTrades == RefreshAll(remaining, ltpCache);
      assert totalPnlPercentage == TotalPercentage(activeTrades, percentageBefore);
      message := Notices.TradeClosed(finalPnl);
      assert (CurrentBook(), message) == target;
      assert old(Valid()) ==> Valid() by {
        if old(Valid()) {
          CloseTradeKeepsValid(old(CurrentBook()), tradeId, exitPrice, ltpCache);
        }
      }
    }

    /**
     * `close_all_trades`: close every leg of a copy of the active list in turn.
     * The first leg closes at the price it had in the copy; each later leg at
     * the price the previous close's revaluation gave it, which the live list holds.
     */
    method CloseAllTrades()
      requires Valid()
      modifies this`rows, this`activeTrades, this`totalPnl, this`totalPnlPercentage
      modifies this`availableMargin, this`usedMargin, this`account, this`message
      ensures (CurrentBook(), message) == Portfolio.CloseAllTrades(old(CurrentBook()), old(message), ltpCache)
      ensures old(activeTrades) == [] ==> totalPnl == old(totalPnl) && totalPnlPercentage == old(totalPnlPercentage)
      ensures old(activeTrades) != [] ==> totalPnl == 0.0
      ensures Valid()
    {
      var snapshot := activeTrades;
      ghost var start := CurrentBook();
      var j := 0;
      while j < |snapshot|
        invariant 0 <= j <= |snapshot| && start.activeTrades == snapshot
        invariant (CurrentBook(), message) == CloseLegs(start, old(message), snapshot, j, ltpCache)
        invariant j == 0 ==> totalPnl == old(totalPnl) && totalPnlPercentage == old(totalPnlPercentage)
        invariant j > 0 ==> totalPnl == TotalPnl(activeTrades)
      {
        assert Portfolio.Valid(CurrentBook()) && activeTrades == LiveList(snapshot, j, ltpCache) by {
          CloseLegsInvariant(start, old(message), ltpCache, j);
        }
        ghost var before := CurrentBook();
        CloseNextLeg(before, snapshot, j + 1, ltpCache);
        var trade := activeTrades[0];
        var tradeId := trade.id;
        var currentPrice := trade.currentPrice;
        assert tradeId == snapshot[j].id && currentPrice == CloseAllPrice(snapshot, j, ltpCache);
        ghost var expected := Portfolio.CloseTrade(before, tradeId, currentPrice, ltpCache);
        assert CloseLegs(start, old(message), snapshot, j + 1, ltpCache) == expected;
        assert tradeId != 0 && before == CurrentBook();
        if tradeId != 0 {
          CloseTrade(tradeId, currentPrice);
          assert (CurrentBook(), message) == expected;
        }
        j := j + 1;
      }
      assert Valid() && activeTrades == LiveList(snapshot, j, ltpCache) by {
        CloseLegsInvariant(start, old(message), ltpCache, j);
      }
    }

    /**
     * `calculate_payoff`: the strategy's expiry payoff at each spot price of
     * `spotRange`, then the breakevens interpolated between consecutive spot
     * prices where the payoff changes sign.
     */
    method CalculatePayoff(spotRange: seq<real>) returns (payoffs: seq<real>, breakevens: seq<real>)
      ensures payoffs == Payoff.Payoffs(activeTrades, spotRange)
      ensures breakevens == Payoff.Breakevens(payoffs, spotRange)
    {
      payoffs := [];
      var n := 0;
      while n < |spotRange|
        invariant 0 <= n <= |spotRange| && |payoffs| == n
        invariant forall i :: 0 <= i < n ==> payoffs[i] == Payoff.TotalPayoff(activeTrades, spotRange[i])
      {
        var totalPayoff := PayoffAt(spotRange[n]);
        payoffs := payoffs + [totalPayoff];
        n := n + 1;
      }
      breakevens := [];
      if |payoffs| <= 1 {
        return;
      }
      var i := 1;
      while i < |payoffs|
        invariant 1 <= i <= |payoffs|
        invariant breakevens == Payoff.Breakevens(payoffs[..i], spotRange[..i])
      {
        var previous, current := payoffs[i - 1], payoffs[i];
        assert payoffs[..i + 1][..i] == payoffs[..i] && spotRange[..i + 1][..i] == spotRange[..i];
        if (previous < 0.0 && current >= 0.0) || (previous >= 0.0 && current < 0.0) {
          var breakeven := BreakevenBetween(previous, current, spotRange[i - 1], spotRange[i]);
          breakevens := breakevens + [breakeven];
        }
        i := i + 1;
      }
      assert payoffs[..i] == payoffs && spotRange[..i] == spotRange;
    }

    /** The inner loop of `calculate_payoff`: the payoff of every active leg at `spot`, summed. */
    method PayoffAt(spot: real) returns (totalPayoff: real)
      ensures totalPayoff == Payoff.TotalPayoff(activeTrades, spot)
    {
      totalPayoff := 0.0;
      var k := 0;
      while k < |activeTrades|
        invariant 0 <= k <= |activeTrades|
        invariant totalPayoff == Payoff.TotalPayoff(activeTrades[..k], spot)
      {
        var legPnl := LegPayoffAt(activeTrades[k], spot);
        assert activeTrades[..k + 1][..k] == activeTrades[..k];
        totalPayoff := totalPayoff + legPnl;
        k := k + 1;
      }
      assert activeTrades[..k] == activeTrades;
    }

    /**
     * One leg's P&L at expiry in the source's own steps (the option settles at
     * its intrinsic value). It is split out of `PayoffAt` to keep that proof
     * small, and is proved to compute `Payoff.LegPayoff`, which defines it.
     */
    method LegPayoffAt(trade: Leg, spot: real) returns (legPnl: real)
      ensures legPnl == Payoff.LegPayoff(trade, spot)
    {
      var intrinsic := if trade.optionType == CALL then Payoff.Max0(spot - trade.strikePrice)
                       else Payoff.Max0(trade.strikePrice - spot);
      assert intrinsic == Payoff.Intrinsic(trade.optionType, trade.strikePrice, spot);
      if trade.positionType == BUY {
        legPnl := (intrinsic - trade.entryPrice) * (trade.quantity as real);
      } else {
        legPnl := (trade.entryPrice - intrinsic) * (trade.quantity as real);
      }
    }

    /**
     * The linear interpolation of `calculate_payoff` at a sign change, in the
     * source's own steps. It is split out of `CalculatePayoff` to keep that proof
     * small, and is proved to compute `Payoff.Interpolate`, which defines it.
     */
    method BreakevenBetween(previous: real, current: real, spot0: real, spot1: real) returns (breakeven: real)
      requires Payoff.Crosses(previous, current)
      ensures breakeven == Payoff.Interpolate(previous, current, spot0, spot1)
    {
      var ratio := Payoff.Abs(previous) / (Payoff.Abs(previous) + Payoff.Abs(current));
      assert ratio == Payoff.CrossingRatio(previous, current);
      breakeven := spot0 + ratio * (spot1 - spot0);
    }

    /** `start_ticker`; `sdk` is how the client library behaves when asked to start. */
    method StartTicker(sdk: Ticker.SdkOutcome)
      modifies this`isTickerConnected, this`tickerStatus, this`hasTickerInstance, this`shouldStopTicker, this`message
      ensures (Flags(), message) == Ticker.Start(old(Flags()), Ticker.Authenticated(apiKey, accessToken), sdk)
    {
      if accessToken == "" || apiKey == "" {
        message := Notices.NotAuthenticated;
        return;
      }
      if isTickerConnected {
        message := Notices.TickerAlreadyRunning;
        return;
      }
      if sdk == Ticker.SdkNotInstalled {
        message := Notices.PackageMissing;
        return;
      }
      if sdk == Ticker.SdkConstructorFails {
        message := Notices.TickerFailed;
        isTickerConnected := false;
        tickerStatus := Ticker.Error;
        return;
      }
      hasTickerInstance := true;
      shouldStopTicker := false;
      isTickerConnected := true;
      tickerStatus := Ticker.Connected;
      message := Notices.TickerStarted;
      if sdk == Ticker.SdkThreadFails {
        message := Notices.TickerFailed;
        isTickerConnected := false;
        tickerStatus := Ticker.Error;
      }
    }

    /** `stop_ticker` */
    method StopTicker()
      modifies this`isTickerConnected, this`tickerStatus, this`hasTickerInstance, this`shouldStopTicker, this`message
      ensures Flags() == Ticker.Stop(old(Flags())) && message == Notices.TickerStopped
    {
      shouldStopTicker := true;
      if hasTickerInstance {
        hasTickerInstance := false;
      }
      isTickerConnected := false;
      tickerStatus := Ticker.Disconnected;
      message := Notices.TickerStopped;
    }
  }
}
