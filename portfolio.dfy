/**
 * The trade book as `add_trade`, `close_trade` and `close_all_trades` change
 * it: the trades table, the active list, the state's margins and the user's
 * virtual account row. Each operation is a function from the book before to
 * the book after (and the message it leaves); the lemmas state what each
 * operation keeps.
 */
module Portfolio {
  import opened Wrappers
  import opened Trades
  import opened Valuation
  import opened Ledger
  import Notices

  datatype Book = Book(
    rows: seq<Trade>,
    activeTrades: seq<Leg>,
    availableMargin: real,
    usedMargin: real,
    account: Option<Account>)

  /** The keys match their positions and the active list holds exactly the ACTIVE rows, in key order. */
  ghost predicate Valid(b: Book) {
    RowIdsMatch(b.rows) && Ids(b.activeTrades) == ActiveIds(b.rows)
  }

  /** The used margin is the margin blocked by the ACTIVE rows. */
  ghost predicate Reconciled(b: Book) {
    b.usedMargin == ActiveMargin(b.rows)
  }

  /** The account row, if there is one, holds the state's margins. */
  ghost predicate Synced(b: Book) {
    b.account.Some? ==> b.account.value.availableMargin == b.availableMargin && b.account.value.usedMargin == b.usedMargin
  }

  /** The account row after the state's margins are written into it and `realized` is credited. */
  function WriteBack(account: Option<Account>, availableMargin: real, usedMargin: real, realized: real): Option<Account> {
    match account
    case None => None
    case Some(a) => Some(a.(availableMargin := availableMargin, usedMargin := usedMargin, realizedPnl := a.realizedPnl + realized))
  }

  /** `add_trade` */
  function AddTrade(b: Book, req: TradeRequest, generatedStrategyId: string): (r: (Book, Notices.Notice))
    ensures MarginRequired(req) > b.availableMargin ==>
              r == (b, Notices.InsufficientMargin(MarginRequired(req), b.availableMargin))
    ensures MarginRequired(req) <= b.availableMargin ==>
              var t := OpenedTrade(|b.rows| + 1, req, generatedStrategyId);
              r.1 == Notices.TradeAdded(req.tradingsymbol) &&
              r.0.rows == b.rows + [t] && r.0.activeTrades == b.activeTrades + [t.ToDict()] &&
              r.0.availableMargin >= 0.0 &&
              r.0.availableMargin + r.0.usedMargin == b.availableMargin + b.usedMargin &&
              r.0.usedMargin - b.usedMargin == t.marginUsed
  {
    var marginRequired := MarginRequired(req);
    if marginRequired > b.availableMargin then
      (b, Notices.InsufficientMargin(marginRequired, b.availableMargin))
    else
      var t := OpenedTrade(|b.rows| + 1, req, generatedStrategyId);
      var available, used := b.availableMargin - marginRequired, b.usedMargin + marginRequired;
      (Book(b.rows + [t], b.activeTrades + [t.ToDict()], available, used, WriteBack(b.account, available, used, 0.0)),
       Notices.TradeAdded(req.tradingsymbol))
  }

  /** The new row gets the next key and, being ACTIVE, the end of the active list. */
  lemma AddTradeKeepsValid(b: Book, req: TradeRequest, generatedStrategyId: string)
    requires Valid(b)
    ensures Valid(AddTrade(b, req, generatedStrategyId).0)
  {
    if MarginRequired(req) <= b.availableMargin {
      var t := OpenedTrade(|b.rows| + 1, req, generatedStrategyId);
      AppendActive(b.rows, b.activeTrades, t, t.ToDict());
    }
  }

  /** The margin blocked for the new trade is the margin its row records. */
  lemma AddTradeReconciles(b: Book, req: TradeRequest, generatedStrategyId: string)
    requires Reconciled(b)
    ensures Reconciled(AddTrade(b, req, generatedStrategyId).0)
  {
    if MarginRequired(req) <= b.availableMargin {
      var t := OpenedTrade(|b.rows| + 1, req, generatedStrategyId);
      assert (b.rows + [t])[..|b.rows|] == b.rows;
    }
  }

  /**
   * An open writes the state's new margins into the account row, whatever it
   * held; a synced row follows the state and receives exactly the debit.
   */
  lemma AddTradeSynced(b: Book, req: TradeRequest, generatedStrategyId: string)
    ensures var r := AddTrade(b, req, generatedStrategyId).0;
            MarginRequired(req) <= b.availableMargin ==> r.account == WriteBack(b.account, r.availableMargin, r.usedMargin, 0.0)
    ensures var r := AddTrade(b, req, generatedStrategyId).0;
            Synced(b) ==> Synced(r)
    ensures var r := AddTrade(b, req, generatedStrategyId).0;
            Synced(b) && b.account.Some? && r != b ==>
              r.account == Some(Debit(b.account.value, MarginRequired(req))) && (Balanced(r.account.value) <==> Balanced(b.account.value))
  {
  }

  /**
   * Opening a trade and closing it at once at its entry price realises
   * nothing and gives both margins back as they were.
   */
  lemma AddThenCloseRestoresMargins(b: Book, req: TradeRequest, generatedStrategyId: string, cache: map<int, real>)
    requires MarginRequired(req) <= b.availableMargin
    ensures var afterOpen := AddTrade(b, req, generatedStrategyId).0;
            var afterClose := CloseTrade(afterOpen, |b.rows| + 1, req.entryPrice, cache);
            afterClose.1 == Notices.TradeClosed(0.0) &&
            afterClose.0.availableMargin == b.availableMargin && afterClose.0.usedMargin == b.usedMargin
  {
    var t := OpenedTrade(|b.rows| + 1, req, generatedStrategyId);
    var afterOpen := AddTrade(b, req, generatedStrategyId).0;
    assert afterOpen.rows[|b.rows|] == t;
    SignedPnlBySide(t.positionType, t.entryPrice, req.entryPrice, t.quantity);
    CloseTradeEffect(afterOpen, |b.rows| + 1, req.entryPrice, cache);
  }

  /** `close_trade`; `cache` is the LTP cache the closing revaluation reads. */
  function CloseTrade(b: Book, tradeId: int, exitPrice: real, cache: map<int, real>): (r: (Book, Notices.Notice))
    ensures Lookup(b.rows, tradeId).None? ==> r == (b, Notices.TradeNotFound)
    ensures Lookup(b.rows, tradeId).Some? ==> r.1 == Notices.TradeClosed(FinalPnl(b.rows[tradeId - 1], exitPrice))
  {
    match Lookup(b.rows, tradeId)
    case None => (b, Notices.TradeNotFound)
    case Some(t) =>
      var finalPnl := FinalPnl(t, exitPrice);
      var available, used := b.availableMargin + t.marginUsed + finalPnl, b.usedMargin - t.marginUsed;
      (Book(b.rows[tradeId - 1 := ClosedAt(t, exitPrice)],
            RefreshAll(RemoveId(b.activeTrades, tradeId), cache),
            available, used, WriteBack(b.account, available, used, finalPnl)),
       Notices.TradeClosed(finalPnl))
  }

  /**
   * Closing a known row freezes that row alone at the exit price, drops its
   * leg and revalues the rest, and moves its margin and final P&L back into
   * the available margin.
   */
  lemma CloseTradeEffect(b: Book, tradeId: int, exitPrice: real, cache: map<int, real>)
    requires Lookup(b.rows, tradeId).Some?
    ensures var r, t := CloseTrade(b, tradeId, exitPrice, cache).0, b.rows[tradeId - 1];
            |r.rows| == |b.rows| && r.rows[tradeId - 1] == ClosedAt(t, exitPrice) &&
            (forall k :: 0 <= k < |b.rows| && k != tradeId - 1 ==> r.rows[k] == b.rows[k]) &&
            r.activeTrades == RefreshAll(RemoveId(b.activeTrades, tradeId), cache) &&
            (r.availableMargin + r.usedMargin) - (b.availableMargin + b.usedMargin) == FinalPnl(t, exitPrice) &&
            b.usedMargin - r.usedMargin == t.marginUsed
  {
  }

  /** Closing a row takes its leg, and only its leg, off the active list. */
  lemma {:induction false} CloseTradeKeepsValid(b: Book, tradeId: int, exitPrice: real, cache: map<int, real>)
    requires Valid(b)
    ensures Valid(CloseTrade(b, tradeId, exitPrice, cache).0)
    ensures Ids(CloseTrade(b, tradeId, exitPrice, cache).0.activeTrades) == RemoveValue(Ids(b.activeTrades), tradeId)
  {
    var r := CloseTrade(b, tradeId, exitPrice, cache).0;
    if 1 <= tradeId <= |b.rows| {
      var closed := ClosedAt(b.rows[tradeId - 1], exitPrice);
      IdsOfRefreshAll(RemoveId(b.activeTrades, tradeId), cache);
      IdsOfRemoveId(b.activeTrades, tradeId);
      ActiveIdsAfterClose(b.rows, tradeId - 1, closed);
    } else {
      ActiveIdsExact(b.rows);
      RemoveAbsentValue(Ids(b.activeTrades), tradeId);
    }
  }

  /**
   * Closing an ACTIVE row releases exactly the margin it blocked, so the used
   * margin still matches the ACTIVE rows; an unknown key changes nothing.
   */
  lemma CloseTradeReconciles(b: Book, tradeId: int, exitPrice: real, cache: map<int, real>)
    requires Reconciled(b)
    requires Lookup(b.rows, tradeId).Some? ==> b.rows[tradeId - 1].status == Active
    ensures Reconciled(CloseTrade(b, tradeId, exitPrice, cache).0)
  {
    if 1 <= tradeId <= |b.rows| {
      ActiveMarginAfterClose(b.rows, tradeId - 1, ClosedAt(b.rows[tradeId - 1], exitPrice));
    }
  }

  /**
   * A row that is already closed is not refused: closing it again releases its
   * margin a second time and realises its P&L again, so the used margin no
   * longer matches the ACTIVE rows.
   */
  lemma CloseClosedTradeAgain(b: Book, tradeId: int, exitPrice: real, cache: map<int, real>)
    requires Reconciled(b) && 1 <= tradeId <= |b.rows|
    requires b.rows[tradeId - 1].status != Active && b.rows[tradeId - 1].marginUsed != 0.0
    ensures !Reconciled(CloseTrade(b, tradeId, exitPrice, cache).0)
  {
    ActiveMarginAfterClose(b.rows, tradeId - 1, ClosedAt(b.rows[tradeId - 1], exitPrice));
  }

  /**
   * A close writes the state's new margins into the account row and credits the
   * final P&L, whatever the row held; a synced row follows the state and
   * receives exactly the release and the P&L.
   */
  lemma CloseTradeSynced(b: Book, tradeId: int, exitPrice: real, cache: map<int, real>)
    ensures var r := CloseTrade(b, tradeId, exitPrice, cache).0;
            Lookup(b.rows, tradeId).Some? ==>
              r.account == WriteBack(b.account, r.availableMargin, r.usedMargin, FinalPnl(b.rows[tradeId - 1], exitPrice))
    ensures Synced(b) ==> Synced(CloseTrade(b, tradeId, exitPrice, cache).0)
    ensures var r := CloseTrade(b, tradeId, exitPrice, cache).0;
            Synced(b) && b.account.Some? && Lookup(b.rows, tradeId).Some? ==>
              var t := b.rows[tradeId - 1];
              r.account == Some(Release(b.account.value, t.marginUsed, FinalPnl(t, exitPrice))) &&
              (Balanced(r.account.value) <==> Balanced(b.account.value))
  {
  }

  /** The price `close_all_trades` closes the leg at position `j` of its copy of the active list at. */
  function CloseAllPrice(snapshot: seq<Leg>, j: int, cache: map<int, real>): real
    requires 0 <= j < |snapshot|
  {
    // The copy holds the same dictionaries as the live list, and every close
    // that finds its row revalues the legs still in the live list, so only the
    // first leg keeps the price it had when the copy was taken. A close that
    // finds no row returns before revaluing; in a valid book every listed id
    // is a key (`ListedIdsInRange`), so that case does not arise here.
    if j == 0 then snapshot[0].currentPrice else CachedPrice(snapshot[j], cache)
  }

  /** The first `j` legs of the copy closed in order, together with the last message. */
  function CloseLegs(b: Book, m: Notices.Notice, snapshot: seq<Leg>, j: int, cache: map<int, real>): (Book, Notices.Notice)
    requires 0 <= j <= |snapshot|
    decreases j
  {
    if j == 0 then (b, m)
    else
      var previous := CloseLegs(b, m, snapshot, j - 1, cache);
      var leg := snapshot[j - 1];
      if leg.id != 0 then CloseTrade(previous.0, leg.id, CloseAllPrice(snapshot, j - 1, cache), cache)
      else previous
  }

  /**
   * `close_all_trades`: every leg of a copy of the active list closed in turn.
   * Its prices are those of a valid book, where every close finds its row.
   */
  function CloseAllTrades(b: Book, m: Notices.Notice, cache: map<int, real>): (Book, Notices.Notice) {
    CloseLegs(b, m, b.activeTrades, |b.activeTrades|, cache)
  }

  /** The live list after the first `j` closes of `close_all_trades`: the rest of the copy, revalued once a close has happened. */
  function LiveList(snapshot: seq<Leg>, j: int, cache: map<int, real>): seq<Leg>
    requires 0 <= j <= |snapshot|
  {
    if j == 0 then snapshot else RefreshAll(snapshot[j..], cache)
  }

  /**
   * One step of `close_all_trades`: when the live list is the rest of the copy,
   * it starts with the next leg of the copy, whose row is ACTIVE, and closing
   * that leg leaves the rest of the copy after it.
   */
  lemma CloseNextLeg(p: Book, s: seq<Leg>, j: int, cache: map<int, real>)
    requires Valid(p) && 0 < j <= |s| && p.activeTrades == LiveList(s, j - 1, cache)
    ensures p.activeTrades[0] == (if j == 1 then s[0] else RefreshLeg(s[j - 1], cache))
    ensures 1 <= s[j - 1].id <= |p.rows| && p.rows[s[j - 1].id - 1].status == Active
    ensures CloseTrade(p, s[j - 1].id, CloseAllPrice(s, j - 1, cache), cache).0.activeTrades == LiveList(s, j, cache)
  {
    var current := p.activeTrades;
    LiveListHead(s, j, cache);
    ListedLegIsActive(p, 0);
    RemoveHead(p);
    CloseTradeEffect(p, s[j - 1].id, CloseAllPrice(s, j - 1, cache), cache);
  }

  /** The live list before the `j`-th close starts with the `j`-th leg of the copy, and revaluing its rest gives the next live list. */
  lemma LiveListHead(s: seq<Leg>, j: int, cache: map<int, real>)
    requires 0 < j <= |s|
    ensures var current := LiveList(s, j - 1, cache);
            |current| == |s| - j + 1 &&
            current[0] == (if j == 1 then s[0] else RefreshLeg(s[j - 1], cache)) &&
            current[0].id == s[j - 1].id &&
            RefreshAll(current[1..], cache) == LiveList(s, j, cache)
  {
    if j > 1 {
      RefreshTail(s[j - 1..], cache);
      assert s[j - 1..][1..] == s[j..];
      RefreshIdempotent(s[j..], cache);
    } else {
      assert s[1..] == s[j..];
    }
  }

  /** In a valid book, dropping the id of the first listed leg drops that leg alone. */
  lemma RemoveHead(p: Book)
    requires Valid(p) && p.activeTrades != []
    ensures RemoveId(p.activeTrades, p.activeTrades[0].id) == p.activeTrades[1..]
  {
    ActiveIdsIncreasing(p.rows);
    IncreasingIdsDistinct(p.activeTrades);
    RemoveIdAt(p.activeTrades, 0);
  }

  lemma ListedIdsInRange(b: Book)
    requires Valid(b)
    ensures forall i :: 0 <= i < |b.activeTrades| ==> 1 <= b.activeTrades[i].id <= |b.rows|
  {
    forall i | 0 <= i < |b.activeTrades| ensures 1 <= b.activeTrades[i].id <= |b.rows| {
      ListedLegIsActive(b, i);
    }
  }

  /** A leg of the active list of a valid book has an ACTIVE row of the table. */
  lemma ListedLegIsActive(b: Book, i: int)
    requires Valid(b) && 0 <= i < |b.activeTrades|
    ensures 1 <= b.activeTrades[i].id <= |b.rows| && b.rows[b.activeTrades[i].id - 1].status == Active
  {
    assert Ids(b.activeTrades)[i] == b.activeTrades[i].id;
    assert b.activeTrades[i].id in ActiveIds(b.rows);
    ActiveIdsExact(b.rows);
  }

  /**
   * After the first `j` closes of `close_all_trades` the book is still valid,
   * the live list is the rest of the copy, the message is the last close's,
   * and the margins still reconcile and sync.
   */
  lemma {:induction false} CloseLegsInvariant(b: Book, m: Notices.Notice, cache: map<int, real>, j: int)
    requires Valid(b) && 0 <= j <= |b.activeTrades|
    ensures var r := CloseLegs(b, m, b.activeTrades, j, cache);
            Valid(r.0) && |r.0.rows| == |b.rows| &&
            r.0.activeTrades == LiveList(b.activeTrades, j, cache) &&
            (j > 0 ==> r.1.TradeClosed?) && (j == 0 ==> r.1 == m) &&
            (Reconciled(b) ==> Reconciled(r.0)) && (Synced(b) ==> Synced(r.0)) &&
            (r.0.account.Some? <==> b.account.Some?)
    decreases j
  {
    if j > 0 {
      var s := b.activeTrades;
      CloseLegsInvariant(b, m, cache, j - 1);
      var previous := CloseLegs(b, m, s, j - 1, cache);
      CloseStep(previous.0, s, j, cache, Reconciled(b), Synced(b));
      assert CloseLegs(b, m, s, j, cache) == CloseTrade(previous.0, s[j - 1].id, CloseAllPrice(s, j - 1, cache), cache);
    }
  }

  /** One close of `close_all_trades` keeps everything the invariant above states. */
  lemma CloseStep(p: Book, s: seq<Leg>, j: int, cache: map<int, real>, reconciled: bool, synced: bool)
    requires Valid(p) && 0 < j <= |s| && p.activeTrades == LiveList(s, j - 1, cache)
    requires reconciled ==> Reconciled(p)
    requires synced ==> Synced(p)
    ensures 1 <= s[j - 1].id <= |p.rows| && p.rows[s[j - 1].id - 1].status == Active
    ensures var r := CloseTrade(p, s[j - 1].id, CloseAllPrice(s, j - 1, cache), cache);
            Valid(r.0) && |r.0.rows| == |p.rows| &&
            r.0.activeTrades == LiveList(s, j, cache) && r.1.TradeClosed? &&
            (reconciled ==> Reconciled(r.0)) && (synced ==> Synced(r.0)) &&
            (r.0.account.Some? <==> p.account.Some?)
  {
    var id, price := s[j - 1].id, CloseAllPrice(s, j - 1, cache);
    CloseNextLeg(p, s, j, cache);
    CloseTradeEffect(p, id, price, cache);
    CloseTradeKeepsValid(p, id, price, cache);
    CloseTradeSynced(p, id, price, cache);
    if reconciled {
      CloseTradeReconciles(p, id, price, cache);
    }
  }

  /** The trades table after the first `j` closes of `close_all_trades`. */
  function ClosedRows(rows: seq<Trade>, s: seq<Leg>, j: int, cache: map<int, real>): (r: seq<Trade>)
    requires 0 <= j <= |s|
    ensures |r| == |rows|
    decreases j
  {
    if j == 0 then rows
    else
      FreezeRow(ClosedRows(rows, s, j - 1, cache), s[j - 1].id, CloseAllPrice(s, j - 1, cache))
  }

  /** The table with the row of trade `id`, if there is one, closed at `price`. */
  function FreezeRow(rows: seq<Trade>, id: int, price: real): (r: seq<Trade>)
    ensures |r| == |rows|
    ensures forall i :: 0 <= i < |rows| && i != id - 1 ==> r[i] == rows[i]
    ensures 1 <= id <= |rows| ==> r[id - 1] == ClosedAt(rows[id - 1], price)
  {
    if 1 <= id <= |rows| then rows[id - 1 := ClosedAt(rows[id - 1], price)] else rows
  }

  /** The table `close_all_trades` leaves after `j` closes is `ClosedRows`, whatever the book. */
  lemma {:induction false} CloseLegsRowsAre(b: Book, m: Notices.Notice, s: seq<Leg>, j: int, cache: map<int, real>)
    requires 0 <= j <= |s|
    ensures CloseLegs(b, m, s, j, cache).0.rows == ClosedRows(b.rows, s, j, cache)
    decreases j
  {
    if j > 0 {
      CloseLegsRowsAre(b, m, s, j - 1, cache);
      ClosedRowsStep(b.rows, s, j, cache);
      CloseLegsStepRows(b, m, s, j, cache);
    }
  }

  /** The `j`-th close of `close_all_trades` freezes the row of the `j`-th leg, if the table has one, and nothing else. */
  lemma CloseLegsStepRows(b: Book, m: Notices.Notice, s: seq<Leg>, j: int, cache: map<int, real>)
    requires 0 < j <= |s|
    ensures CloseLegs(b, m, s, j, cache).0.rows == FreezeRow(CloseLegs(b, m, s, j - 1, cache).0.rows, s[j - 1].id, CloseAllPrice(s, j - 1, cache))
  {
    var previous := CloseLegs(b, m, s, j - 1, cache).0;
    var id, price := s[j - 1].id, CloseAllPrice(s, j - 1, cache);
    if id != 0 {
      assert CloseLegs(b, m, s, j, cache).0 == CloseTrade(previous, id, price, cache).0;
      CloseTradeRows(previous, id, price, cache);
    } else {
      assert CloseLegs(b, m, s, j, cache) == CloseLegs(b, m, s, j - 1, cache);
    }
  }

  /** `close_trade` freezes the row it finds and leaves the table alone when it finds none. */
  lemma CloseTradeRows(b: Book, tradeId: int, exitPrice: real, cache: map<int, real>)
    ensures CloseTrade(b, tradeId, exitPrice, cache).0.rows ==
            if 1 <= tradeId <= |b.rows| then b.rows[tradeId - 1 := ClosedAt(b.rows[tradeId - 1], exitPrice)] else b.rows
  {
  }

  /**
   * `r` is `rows` after closing the first `j` legs of `s`: each leg closed so
   * far has its row frozen at its closing price, and every other row is untouched.
   */
  ghost predicate FrozenUpTo(rows: seq<Trade>, s: seq<Leg>, r: seq<Trade>, j: int, cache: map<int, real>)
    requires 0 <= j <= |s|
  {
    |r| == |rows| &&
    (forall i :: 0 <= i < j ==> 1 <= s[i].id <= |rows| && r[s[i].id - 1] == ClosedAt(rows[s[i].id - 1], CloseAllPrice(s, i, cache))) &&
    (forall k :: 0 <= k < |rows| && k + 1 !in Ids(s[..j]) ==> r[k] == rows[k])
  }

  /** With distinct ids that are keys of the table, every close freezes a row no earlier close touched. */
  lemma {:induction false} ClosedRowsFrozen(rows: seq<Trade>, s: seq<Leg>, j: int, cache: map<int, real>)
    requires 0 <= j <= |s| && DistinctIds(s)
    requires forall i :: 0 <= i < |s| ==> 1 <= s[i].id <= |rows|
    ensures FrozenUpTo(rows, s, ClosedRows(rows, s, j, cache), j, cache)
    decreases j
  {
    if j > 0 {
      ClosedRowsFrozen(rows, s, j - 1, cache);
      ClosedRowsStep(rows, s, j, cache);
      RowsStep(rows, s, ClosedRows(rows, s, j - 1, cache), j, cache);
    }
  }

  lemma ClosedRowsStep(rows: seq<Trade>, s: seq<Leg>, j: int, cache: map<int, real>)
    requires 0 < j <= |s|
    ensures var p, id := ClosedRows(rows, s, j - 1, cache), s[j - 1].id;
            ClosedRows(rows, s, j, cache) ==
            if 1 <= id <= |rows| then p[id - 1 := ClosedAt(p[id - 1], CloseAllPrice(s, j - 1, cache))] else p
  {
  }

  /** One close freezes the next leg's row, which no earlier close touched. */
  lemma RowsStep(rows: seq<Trade>, s: seq<Leg>, p: seq<Trade>, j: int, cache: map<int, real>)
    requires 0 < j <= |s| && DistinctIds(s)
    requires forall i :: 0 <= i < |s| ==> 1 <= s[i].id <= |rows|
    requires FrozenUpTo(rows, s, p, j - 1, cache)
    ensures var id := s[j - 1].id;
            FrozenUpTo(rows, s, p[id - 1 := ClosedAt(p[id - 1], CloseAllPrice(s, j - 1, cache))], j, cache)
  {
    var leg := s[j - 1];
    var r := p[leg.id - 1 := ClosedAt(p[leg.id - 1], CloseAllPrice(s, j - 1, cache))];
    assert Ids(s[..j]) == Ids(s[..j - 1]) + [leg.id];
    var earlier := Ids(s[..j - 1]);
    assert leg.id !in earlier by {
      forall i | 0 <= i < |earlier| ensures earlier[i] != leg.id {
        assert s[i].id != leg.id;
      }
    }
    assert p[leg.id - 1] == rows[leg.id - 1];
    forall i | 0 <= i < j
      ensures 1 <= s[i].id <= |rows| && r[s[i].id - 1] == ClosedAt(rows[s[i].id - 1], CloseAllPrice(s, i, cache))
    {
      if i < j - 1 {
        assert s[i].id != leg.id;
      }
    }
    forall k | 0 <= k < |rows| && k + 1 !in Ids(s[..j]) ensures r[k] == rows[k] {
      assert k + 1 !in earlier && k != leg.id - 1;
    }
  }

  /**
   * After the first `j` closes of `close_all_trades` on a valid book each leg
   * closed so far has its row frozen at its closing price, and every other
   * row is untouched.
   */
  lemma CloseLegsRows(b: Book, m: Notices.Notice, cache: map<int, real>, j: int)
    requires Valid(b) && 0 <= j <= |b.activeTrades|
    ensures FrozenUpTo(b.rows, b.activeTrades, CloseLegs(b, m, b.activeTrades, j, cache).0.rows, j, cache)
  {
    var s := b.activeTrades;
    ListedIdsInRange(b);
    assert DistinctIds(s) by {
      ActiveIdsIncreasing(b.rows);
      IncreasingIdsDistinct(s);
    }
    CloseLegsRowsAre(b, m, s, j, cache);
    ClosedRowsFrozen(b.rows, s, j, cache);
  }

  /**
   * `close_all_trades` on a valid book leaves no active leg and no ACTIVE row,
   * freezes every leg's row at its closing price, leaves the other rows alone,
   * and, with reconciled margins, leaves no margin in use.
   */
  lemma CloseAllTradesEffect(b: Book, m: Notices.Notice, cache: map<int, real>)
    requires Valid(b)
    ensures forall i :: 0 <= i < |b.activeTrades| ==> 1 <= b.activeTrades[i].id <= |b.rows|
    ensures var s, r := b.activeTrades, CloseAllTrades(b, m, cache).0;
            Valid(r) && r.activeTrades == [] && |r.rows| == |b.rows| &&
            (forall k :: 0 <= k < |r.rows| ==> r.rows[k].status != Active) &&
            (forall i :: 0 <= i < |s| ==> r.rows[s[i].id - 1] == ClosedAt(b.rows[s[i].id - 1], CloseAllPrice(s, i, cache))) &&
            (forall k :: 0 <= k < |b.rows| && b.rows[k].status != Active ==> r.rows[k] == b.rows[k]) &&
            (Reconciled(b) ==> r.usedMargin == 0.0) && (Synced(b) ==> Synced(r))
  {
    var s := b.activeTrades;
    CloseLegsInvariant(b, m, cache, |s|);
    ListedIdsInRange(b);
    CloseLegsRows(b, m, cache, |s|);
    var r := CloseAllTrades(b, m, cache).0;
    assert s[|s|..] == [];
    NoActiveIds(r.rows);
    ActiveIdsExact(b.rows);
    assert s[..|s|] == s;
    forall k | 0 <= k < |b.rows| && b.rows[k].status != Active ensures k + 1 !in Ids(s) {
    }
    if Reconciled(b) {
      NoActiveNoMargin(r.rows);
    }
  }
}
