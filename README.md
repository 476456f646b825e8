# KiteCobra trading state, modelled in Dafny

KiteCobra is a paper-trading dashboard for Indian index options (NIFTY, BANKNIFTY,
SENSEX) on top of the Zerodha Kite Connect API. Its application state, the
`GlobalState` of `kitecobra/state.py`, does the following:

- It keeps a cache of last traded prices (LTP) fed by a WebSocket ticker.
- It revalues every open option leg from that cache, and keeps running totals
  of profit and loss.
- It opens and closes simulated trades against a virtual margin account, which
  is persisted in a trades table and an account row.
- It computes the expiry payoff of the open strategy, with its breakeven
  points, for the payoff chart.

This project models that core. It covers:

- the `Trade` row, its P&L and percentage, and the dictionary view the state
  keeps in `active_trades`;
- tick ingestion and revaluation;
- `add_trade`, `close_trade` and `close_all_trades` over an in-memory trades
  table and account row;
- the payoff calculator and the chart sweep;
- the subscription token set;
- the connection flags of `start_ticker` and `stop_ticker`.

The project has the following modules:

- `Trades` (`trades.dfy`): the rows, the P&L sign convention and the account
  arithmetic.
- `Valuation` (`valuation.dfy`): tick ingestion into the LTP cache and the
  revaluation done by `_update_pnl`.
- `Ledger` (`ledger.dfy`): the trades table seen as a sequence of rows. The row
  with primary key k is at position k-1. The module also holds lemmas about
  the ids of the active list.
- `Portfolio` (`portfolio.dfy`): a `Book` is the table, the active list, the two
  margins and the optional account row. `AddTrade`, `CloseTrade` and
  `CloseAllTrades` are functions from one book to the next, and the lemmas
  state what each one preserves.
- `Payoff` (`payoff.dfy`): `calculate_payoff` and `payoff_data` as pure
  functions.
- `Ticker` (`ticker.dfy`): `_get_subscription_tokens`, and the flags left
  behind by `start_ticker` and `stop_ticker`.
- `State` (`global_state.dfy`): the class `GlobalState`. The fields are those
  of the Python state, and each method updates them in place with the
  source's own loops. Each method is proved to leave exactly the state that
  the pure function gives for the old state.
- `KiteConfig`, `Notices` and `Wrappers`: the constants, the `message` /
  `message_type` pair, and `Option`.

Decisions of the model:

- Money is `real`, so arithmetic is exact.
- The cache is keyed by the integer token. The source keys it by `str(token)`,
  which is the same mapping.
- The client library outcome, the random strategy id from `uuid4` and the
  presence of an account row are parameters of the operations.

Two behaviours of the code are worth knowing:

- `close_trade` refuses only unknown ids (`kitecobra/state.py:769-774`).
  Closing a CLOSED row again releases its margin a second time and realises its
  P&L again, so the used margin drifts from the open rows
  (`Portfolio.CloseClosedTradeAgain`).
- `_process_ticks_sync` caches the price of every tick that carries a token,
  including tokens of instruments no leg holds (`kitecobra/state.py:603-617`,
  `Valuation.IngestKeys`).

## Model

| member | source | states |
|---|---|---|
| KiteConfig.LotSize | kitecobra/state.py:183-187 | The lot size is positive. It is the table's entry for NIFTY, BANKNIFTY and SENSEX, and 50 for any other symbol. |
| Trades.Trade.Pnl | kitecobra/state.py:93-98 | The `pnl` property: `SignedPnl` of the row's quantity between its entry price and its current price. `Trades.SignedPnlBySide` gives its two sides and its zero at the entry price. |
| Trades.SignedPnlBySide | kitecobra/state.py:93-98 | A BUY leg earns (price - entry) x quantity. Any other leg earns (entry - price) x quantity. P&L is zero at the entry price. |
| Trades.OppositeSidesOppositePnl | kitecobra/state.py:93-98 | A BUY leg and a non-BUY leg on the same terms have opposite P&L. |
| Trades.Trade.PnlPercentage | kitecobra/state.py:100-106 | The `pnl_percentage` property: the P&L per 100 of entry value, and 0 for a zero entry value. `Trades.PnlPercentageMeaning` states this as a product, free of the division. |
| Trades.PnlPercentageMeaning | kitecobra/state.py:100-106 | The percentage is 0 when the entry value is 0. Otherwise, percentage x entry value = P&L x 100. |
| Trades.Trade.ToDict | kitecobra/state.py:114-136 | The dictionary view `add_trade` appends to the active list: the row's id, strategy, symbol, token, strike, expiry, option type, side, quantity, prices and status, with its `pnl` and `pnl_percentage` properties. `Valuation.RefreshedPnlIsTradePnl` shows that revaluing it gives the row's own `pnl` at the new price. |
| Trades.OpenedTrade | kitecobra/state.py:696-730 | The new row has the given id, is ACTIVE and has no exit price. Its quantity is lots x the symbol's lot size. Its current price equals its entry price, so its P&L and percentage are 0. Its margin is 20% of the entry value. A missing strategy id is replaced by the generated one. The exchange is BFO for SENSEX and NFO otherwise. |
| Trades.ClosedAt | kitecobra/state.py:781-784 | A closed row is CLOSED, records the exit price, and has the exit price as its current price. |
| Trades.FinalPnl | kitecobra/state.py:776-778 | The final P&L of a close: `SignedPnl` of the row's quantity between its entry price and the exit price. `ClosedAtFreezes` shows it is the closed row's own `pnl`, and `OpenCloseRoundTrip` that it is 0 at the entry price. |
| Trades.ClosedAtFreezes | kitecobra/state.py:777-784 | The P&L of the closed row is the final P&L computed at close. Closing changes nothing but the price, the exit price and the status. |
| Trades.Debit | kitecobra/state.py:736-737 | Blocking margin m moves m from available to used margin. Their sum, the realised P&L and the balance invariant are unchanged. |
| Trades.Release | kitecobra/state.py:789-797 | Closing gives back the margin m and credits the P&L p: used margin falls by m, the margin total and the realised P&L rise by p, and the balance invariant is kept. |
| Trades.OpenCloseRoundTrip | kitecobra/state.py:704-797 | Opening a trade and closing it at its entry price realises 0 and returns the account exactly as it was. |
| Valuation.IngestTick | kitecobra/state.py:604-617 | One tick: skipped without a token. Otherwise its price, 0 when it carries none, is cached under its token, and the NIFTY 50 or NIFTY BANK spot is set when the token is that index's. Its properties are carried by the four `Ingest` lemmas below. |
| Valuation.Ingest | kitecobra/state.py:603-617 | A batch: the ticks applied by `IngestTick` in arrival order. `IngestKeys`, `IngestLastTickWins`, `IngestUntouched` and `IngestSkipsTokenless` state what it leaves. |
| Valuation.IngestKeys | kitecobra/state.py:603-617 | After a batch, the cache keys are the old keys plus every token in the batch. No key is ever removed. |
| Valuation.IngestLastTickWins | kitecobra/state.py:603-617 | A token's cached price is the price of its last tick in the batch. An index token's spot price is also set to that price. |
| Valuation.IngestUntouched | kitecobra/state.py:603-617 | A token with no tick in the batch keeps its cache entry. A spot price with no tick for its index keeps its value. |
| Valuation.IngestSkipsTokenless | kitecobra/state.py:603-608 | A batch of ticks without tokens changes nothing. |
| Valuation.RefreshLeg | kitecobra/state.py:628-649 | The revalued leg takes its cached LTP, or keeps its price when its token is not cached. Its P&L follows the sign convention at that price. Its percentage is kept when the entry value is not positive. Id, token, side, entry price and quantity are kept. |
| Valuation.RefreshLegOnlyRevalues | kitecobra/state.py:628-649 | Revaluation changes a leg's price, P&L and percentage, and nothing else. |
| Valuation.RefreshLegPercentage | kitecobra/state.py:647-649 | With a positive entry value, percentage x entry value = refreshed P&L x 100. |
| Valuation.RefreshAll | kitecobra/state.py:627-656 | The revalued list has the same length, and each position holds that leg revalued. |
| Valuation.RefreshIdempotent | kitecobra/state.py:622-660 | Revaluing twice from the same cache gives the same list as revaluing once. |
| Valuation.TotalPnl | kitecobra/state.py:651-657 | `total_pnl`: the P&L of the legs summed in list order. `TotalsAppend` states the step each leg adds. |
| Valuation.TotalsAppend | kitecobra/state.py:651-652 | Each leg adds its P&L to `total_pnl` and its entry value to the total entry value. |
| Valuation.TotalPercentage | kitecobra/state.py:652-660 | `total_pnl_percentage` after a revaluation: the previous value unless the total entry value is positive, else the total P&L per 100 of it. `TotalPercentageMeaning` states both cases. |
| Valuation.TotalPercentageMeaning | kitecobra/state.py:659-660 | When the total entry value is not positive, the previous percentage is kept. Otherwise, total percentage x total entry value = total P&L x 100. |
| Valuation.RefreshedPnlIsTradePnl | kitecobra/state.py:93-136 | Revaluing the dictionary of a row gives the same P&L as the row's own `pnl` property at the revalued price. |
| Ledger.Ids | kitecobra/state.py:804 | The ids of a list of legs, position by position. |
| Ledger.Lookup | kitecobra/state.py:769-774 | `session.get` on the trades table: the row at position id-1 when 1 <= id <= the table's length, and nothing otherwise. `Portfolio.CloseTrade` states its not-found branch, and `Portfolio.ListedIdsInRange` that every listed id is found in a valid book. |
| Ledger.ActiveIdsIncreasing | kitecobra/state.py:713-750 | The keys of the ACTIVE rows are keys of the table, strictly increasing. |
| Ledger.ActiveIdsExact | kitecobra/state.py:713-784 | A key is an active key exactly when its row is ACTIVE. |
| Ledger.NoActiveIds | kitecobra/state.py:811-817 | A table without active keys has no ACTIVE row. |
| Ledger.AppendActive | kitecobra/state.py:713-750 | Inserting an ACTIVE row under the next key, and appending its leg to the list, keeps the active list equal to the ACTIVE rows in key order. |
| Ledger.RemoveAbsentValue | kitecobra/state.py:804 | Removing a value that is not in the sequence changes nothing. |
| Ledger.ActiveIdsAfterClose | kitecobra/state.py:781-804 | Closing the row at position k removes exactly key k+1 from the active keys. |
| Ledger.ActiveIdsAfterCloseLast | kitecobra/state.py:781-804 | Closing the last row removes exactly the largest key from the active keys. |
| Ledger.RemoveValueSnoc | kitecobra/state.py:804 | Filtering distributes over appending one element. |
| Ledger.ActiveMarginAfterClose | kitecobra/state.py:781-790 | Closing a row removes its margin, and only its margin, from the margin of the ACTIVE rows, if the row was ACTIVE. |
| Ledger.NoActiveNoMargin | kitecobra/state.py:811-817 | A table without ACTIVE rows blocks no margin. |
| Ledger.RemoveId | kitecobra/state.py:804 | Filtering never lengthens the active list. `RemoveIdMembers` and `IdsOfRemoveId` state what it keeps. |
| Ledger.RemoveIdMembers | kitecobra/state.py:804 | The filtered list holds exactly the legs whose id differs from the closed id. |
| Ledger.IdsOfRemoveId | kitecobra/state.py:804 | The ids of the filtered list are the old ids without the closed id, in order. |
| Ledger.RemoveIdAt | kitecobra/state.py:804 | With distinct ids, filtering out the id of the leg at position k drops that leg alone. |
| Ledger.RemoveLastId | kitecobra/state.py:804 | With distinct ids, filtering out the last leg's id drops that leg alone. |
| Ledger.RemoveAbsentId | kitecobra/state.py:804 | Filtering out an id that no leg carries leaves the list unchanged. |
| Ledger.IdsOfRefreshAll | kitecobra/state.py:622-656 | Revaluation keeps every leg's id in place. |
| Ledger.IncreasingIdsDistinct | kitecobra/state.py:804 | Strictly increasing ids are distinct. |
| Payoff.Intrinsic | kitecobra/state.py:903-907 | Intrinsic value is never negative. For a CE it is 0 or spot - strike, whichever is larger. For any other type it is 0 or strike - spot, whichever is larger. |
| Payoff.LegPayoff | kitecobra/state.py:909-913 | A leg's expiry payoff is its signed P&L with the intrinsic value as the price, so it uses the same sign convention as live P&L. |
| Payoff.TotalPayoff | kitecobra/state.py:894-915 | The strategy payoff at one spot: `LegPayoff` summed over the legs in list order. `Payoffs` pairs it with every spot, and `NoTradesFlatPayoff` gives its value without legs. |
| Payoff.Payoffs | kitecobra/state.py:893-917 | There is one payoff per spot price, in order, and each is the sum over the active legs at that spot. |
| Payoff.CrossingRatio | kitecobra/state.py:924 | At a sign change the ratio lies in [0, 1], and it is the point where the line from the previous payoff to the current one reaches zero. |
| Payoff.Interpolate | kitecobra/state.py:924-925 | The interpolated breakeven lies between the two spot prices. |
| Payoff.CrossingsSound | kitecobra/state.py:921-922 | Each crossing index is a real sign change between positions i-1 and i. The indices are strictly increasing. |
| Payoff.CrossingsComplete | kitecobra/state.py:921-922 | Every sign change between consecutive payoffs is a crossing index. |
| Payoff.Breakevens | kitecobra/state.py:919-926 | The `breakevens` list: the pairs (i-1, i) scanned in order, with one `Interpolate` point for each pair that `Crosses`. `BreakevensAtCrossings` ties it to `Crossings`, which `CrossingsSound` and `CrossingsComplete` characterise. |
| Payoff.BreakevensAtCrossings | kitecobra/state.py:919-926 | There is exactly one breakeven per crossing index, in order, and it is interpolated between that index and the one before. |
| Payoff.NonNegativeNoBreakevens | kitecobra/state.py:919-926 | A payoff that never goes negative has no breakevens. |
| Payoff.NoTradesFlatPayoff | kitecobra/state.py:893-926 | With no active legs every payoff is 0 and there are no breakevens. |
| Payoff.LongCallExample | kitecobra/state.py:903-913 | A long 22000 CE bought at 100 for 50 units has intrinsic value 200 at spot 22200, and pays 5000 there. |
| Payoff.BreakevenExample | kitecobra/state.py:919-926 | Payoffs -500 and 500 at spots 100 and 110 give the single breakeven 105. |
| Payoff.Center | kitecobra/state.py:945 | The chart is centred on the NIFTY spot when it is positive, and on the mean strike otherwise. |
| Payoff.SpotRange | kitecobra/state.py:946-951 | The sweep has 101 spot prices, from 90% to 110% of the centre, in equal steps of centre/500. |
| Payoff.PayoffData | kitecobra/state.py:934-960 | The chart is empty exactly when there are no active legs. Otherwise each point pairs a spot price of the sweep with the strategy payoff there. |
| Ticker.SubscriptionTokens | kitecobra/state.py:581-594 | The set always holds the NIFTY 50 and NIFTY BANK tokens. A token is in it exactly when it is one of those two, or it is the non-zero token of an active leg. |
| Ticker.Start | kitecobra/state.py:481-563 | Without credentials, and when already connected, the flags are unchanged and the matching notice is set. Otherwise the result depends on the client library. If it is missing, the flags are unchanged and the notice says the package is missing. If it starts, the state is connected and holds an instance. If it raises, the status is Error; a failing constructor leaves the instance and stop flags as they were, and a failing thread start leaves an instance held and no stop requested. The state is connected exactly when the library starts. |
| Ticker.Stop | kitecobra/state.py:565-579 | From any flags, the result is disconnected, with no instance and the stop request set. |
| Ticker.StopIdempotent | kitecobra/state.py:565-579 | Stopping twice gives the same flags as stopping once. |
| Notices.Notice.Kind | kitecobra/state.py:809 | `message_type` for each notice. A close with final P&L >= 0 is a success and one with a loss is an error (line 809). The other notices take the fixed types the source sets: error for no credentials, a missing package, a failed start, too little margin and an unknown trade (lines 490, 558, 561, 708, 773); info for an already running or stopped ticker (495, 579); success for a started ticker and an added trade (543, 753). |
| Portfolio.AddTrade | kitecobra/state.py:678-753 | When the required margin exceeds the available margin, the book is unchanged and the notice reports both amounts. Otherwise, the opened row is inserted under the next key and its leg is appended. The used margin rises by the row's margin, the margin total is unchanged, the available margin stays non-negative, and the notice names the tradingsymbol. |
| Portfolio.AddTradeKeepsValid | kitecobra/state.py:713-750 | Adding a trade keeps keys in place, and keeps the active list equal to the ACTIVE rows in key order. |
| Portfolio.AddTradeReconciles | kitecobra/state.py:704-737 | The used margin still equals the margin of the ACTIVE rows after a trade is added. |
| Portfolio.AddTradeSynced | kitecobra/state.py:736-747 | An open writes the state's new margins into the account row, whatever the row held. A synced row stays synced and receives exactly the debit. When the account was balanced, it stays balanced. |
| Portfolio.WriteBack | kitecobra/state.py:795-799 | The account write-back: a missing account row stays missing, and an existing one takes the state's two margins and has the given P&L added to its realised P&L. `add_trade` uses it with 0 (lines 743-747). `AddTradeSynced` and `CloseTradeSynced` state both uses. |
| Portfolio.AddThenCloseRestoresMargins | kitecobra/state.py:704-790 | Opening a trade and closing it at once at its entry price realises 0 and restores both margins. |
| Portfolio.CloseTrade | kitecobra/state.py:766-809 | An unknown key leaves the book unchanged with a not-found notice. A known key gives a notice carrying the final P&L at the exit price. |
| Portfolio.CloseTradeEffect | kitecobra/state.py:777-806 | Closing a known row freezes that row alone, removes its leg and revalues the rest. The used margin falls by the row's margin, and the margin total rises by its final P&L. |
| Portfolio.CloseTradeKeepsValid | kitecobra/state.py:781-804 | Closing keeps the book valid, and the active ids lose exactly the closed id. |
| Portfolio.CloseTradeReconciles | kitecobra/state.py:789-790 | Closing an ACTIVE row, or an unknown key, keeps used margin equal to the margin of the ACTIVE rows. |
| Portfolio.CloseClosedTradeAgain | kitecobra/state.py:766-790 | Closing an already CLOSED row that blocked margin leaves the used margin out of step with the ACTIVE rows. |
| Portfolio.CloseTradeSynced | kitecobra/state.py:789-799 | A close of a known row writes the state's new margins into the account row and credits the final P&L, whatever the row held. A synced row stays synced and receives exactly the release and the P&L. |
| Portfolio.CloseAllPrice | kitecobra/state.py:814 | The price close-all passes for the leg at position j of its copy: the copied price for the first leg, and, once the first close has revalued the shared dictionaries, its cached price (its own price when its token is not cached). `CloseNextLeg` shows it is the live leg's price. |
| Portfolio.CloseLegs | kitecobra/state.py:813-817 | The first j iterations of close-all: `CloseTrade` applied, in order, to every leg of the copy that has a non-zero id, at its `CloseAllPrice`. `CloseLegsInvariant` states what each prefix keeps. |
| Portfolio.CloseAllTrades | kitecobra/state.py:811-817 | close-all: `CloseLegs` over the whole copy of the active list. `CloseAllTradesEffect` states its result. |
| Portfolio.CloseNextLeg | kitecobra/state.py:811-817 | During close-all, the live list starts with the next leg of the copy. That leg's price is refreshed after the first close, because the copy shares the dictionaries. Its row is ACTIVE, and closing it leaves the rest of the copy, revalued. |
| Portfolio.LiveListHead | kitecobra/state.py:811-817 | The live list before a close starts with the copy's next leg, and revaluing the rest gives the next live list. |
| Portfolio.RemoveHead | kitecobra/state.py:804 | In a valid book, filtering out the first leg's id drops that leg alone. |
| Portfolio.ListedIdsInRange | kitecobra/state.py:750 | Every listed leg's id is a key of the table. |
| Portfolio.ListedLegIsActive | kitecobra/state.py:750 | Every listed leg has an ACTIVE row. |
| Portfolio.CloseLegsInvariant | kitecobra/state.py:811-817 | After the first j closes of close-all, the book is valid, the live list is the rest of the copy, the message is from the last close, and the margins still reconcile and sync. |
| Portfolio.CloseStep | kitecobra/state.py:811-817 | One close of close-all preserves that invariant. |
| Portfolio.ClosedRows | kitecobra/state.py:811-817 | Closing legs one after another never changes the table's length. |
| Portfolio.CloseLegsRowsAre | kitecobra/state.py:811-817 | The table close-all leaves after j closes depends only on the table, the copy and the cache, not on the margins, the account row or the message. |
| Portfolio.CloseTradeRows | kitecobra/state.py:769-784 | close_trade freezes the row it finds, and leaves the table unchanged when it finds none. |
| Portfolio.ClosedRowsFrozen | kitecobra/state.py:811-817 | With distinct ids that are all keys, each leg closed so far has its row frozen at its closing price, and every other row is unchanged. |
| Portfolio.ClosedRowsStep | kitecobra/state.py:815-817 | One more close updates only the next leg's row. |
| Portfolio.RowsStep | kitecobra/state.py:815-817 | One more close freezes a row that no earlier close touched. |
| Portfolio.CloseLegsRows | kitecobra/state.py:811-817 | On a valid book, after j closes each closed leg's row is frozen at its closing price and the other rows are unchanged. |
| Portfolio.CloseAllTradesEffect | kitecobra/state.py:811-817 | On a valid book, close-all leaves no active leg and no ACTIVE row. Each leg's row is frozen at its closing price, and rows that were not ACTIVE are unchanged. With reconciled margins, no margin is left in use, and a synced account stays synced. |
| State.GlobalState.constructor | kitecobra/state.py:232-262 | A fresh state is disconnected, has an empty cache, table and list, full available margin and no margin in use. It is valid, reconciled and synced, and its account row, if any, is balanced. |
| State.GlobalState.RevalueLeg | kitecobra/state.py:628-649 | The loop body of `_update_pnl` gives the revalued leg. |
| State.GlobalState.UpdatePnl | kitecobra/state.py:622-660 | The list becomes every leg revalued from the cache. `total_pnl` becomes their total, and the percentage changes only when the total entry value is positive. A valid book stays valid. |
| State.GlobalState.ProcessTicks | kitecobra/state.py:596-620 | The market data becomes the batch applied in order, then the legs are revalued as by `_update_pnl`. A valid book stays valid. |
| State.GlobalState.AddTrade | kitecobra/state.py:678-753 | The state's book and message become those of `Portfolio.AddTrade` on the old book. A valid book stays valid. |
| State.GlobalState.CloseTrade | kitecobra/state.py:766-809 | The state's book and message become those of `Portfolio.CloseTrade` on the old book. Totals are unchanged for an unknown key, and are recomputed from the new list otherwise. A valid book stays valid. |
| State.GlobalState.CloseAllTrades | kitecobra/state.py:811-817 | The state's book and message become those of `Portfolio.CloseAllTrades`. With no legs the totals are kept, otherwise `total_pnl` ends at 0. The book is still valid afterwards. |
| State.GlobalState.CalculatePayoff | kitecobra/state.py:882-932 | The payoffs are `Payoff.Payoffs` of the active legs over the sweep, and the breakevens are `Payoff.Breakevens` of those payoffs. |
| State.GlobalState.PayoffAt | kitecobra/state.py:894-915 | The inner loop sums the legs' payoffs at one spot price. |
| State.GlobalState.LegPayoffAt | kitecobra/state.py:897-913 | The source's formula for one leg equals `Payoff.LegPayoff`. |
| State.GlobalState.BreakevenBetween | kitecobra/state.py:924-925 | The source's formula for one crossing equals `Payoff.Interpolate`. |
| State.GlobalState.StartTicker | kitecobra/state.py:481-563 | The flags and message become those of `Ticker.Start`, with the credential check done on the state's API key and access token. |
| State.GlobalState.StopTicker | kitecobra/state.py:565-579 | The flags become those of `Ticker.Stop`, and the message is that the ticker stopped. |

## Left out

- Authentication (OAuth redirect, request and access tokens, `logout`, `_init_virtual_account`): this is interaction with the broker, not part of the trading core.
- Database sessions: the trades table and the user's account row are held in memory. `session.get`, `add` and `commit` become reads and updates of a sequence and an `Option`.
- The WebSocket client: the ticker thread, the `on_connect`/`on_ticks`/`on_close`/`on_error` callbacks, `subscribe`/`set_mode`, and the subscribe that `add_trade` issues at lines 755-764. These are calls into a library; the library's outcome on start is the parameter `SdkOutcome`.
- Concurrency between the ticker thread and the UI handlers: each operation is one atomic step.
- The "No instruments to subscribe" branch of `start_ticker`: the token set always holds the two index tokens, so the branch cannot be reached (`Ticker.SubscriptionTokens`).
- `search_instruments`, `get_available_expiries`, `load_active_trades` and the form setters: they are outside the core.
- Rounding to two decimals in `to_dict`, `_update_pnl`, `calculate_payoff` and the message text: money is exact `real`.
- State.GlobalState.UpdatePnl: stores unrounded prices, P&L and percentages, where the source stores them rounded to two decimals.
- State.GlobalState.CalculatePayoff: returns unrounded payoffs and breakevens.
- Trades.Trade.ToDict: carries unrounded entry price, current price, P&L and percentage.
- Timestamps (`entry_time`, `exit_time`, `last_tick_time`, `created_at`), `pnl_color`, `is_itm`, `sensex_spot` and the account's `unrealized_pnl`: none of them affects the modelled state.
- Message text: `message` is a `Notices.Notice` carrying the amounts. `message_type` is `Notice.Kind`.
- The random strategy id from `uuid4`: it is the parameter `generatedStrategyId`.
- Optional arguments of `add_trade`: `None` for the strategy id or name is modelled as the empty string, which Python treats the same way.
- State.GlobalState.CloseAllTrades: requires `Valid()`, meaning ids are keys of the table and the active list is exactly the ACTIVE rows in key order. The constructor establishes this, and every method of `GlobalState` that changes the book or the list ensures it is kept. A hand-made list that breaks it, such as a leg without an id, is not modelled.
- State.GlobalState.CloseAllTrades: does not state the final `total_pnl_percentage`. After the last close the list is empty and the previous percentage is kept, which is whatever the last revaluation with a positive entry value gave.
- Python's dynamic typing: position and option types are strings, and dictionary lookups with defaults are modelled only where a key can be missing (a tick's token and price).
