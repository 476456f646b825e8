/**
 * The valuation cache and the P&L engine: how a batch of ticks is folded into
 * the last-price cache and the two index spot prices (`_process_ticks_sync`),
 * and how every active leg is revalued from that cache (`_update_pnl`).
 */
module Valuation {
  import opened Wrappers
  import opened Trades
  import KiteConfig

  /** One tick of a batch: `instrument_token` and `last_price` may be missing. */
  datatype Tick = Tick(instrumentToken: Option<int>, lastPrice: Option<real>)

  /** The price a tick carries, 0 when it carries none. */
  function TickPrice(t: Tick): real {
    t.lastPrice.GetOr(0.0)
  }

  /**
   * The market data the feed writes: the LTP cache (keyed by instrument token,
   * which the source renders with `str`), the NIFTY 50 spot and the NIFTY BANK spot.
   */
  datatype MarketData = MarketData(ltpCache: map<int, real>, niftySpot: real, bankniftySpot: real)

  /** The effect of one tick: skipped without a token, otherwise cached (and a spot set for an index token). */
  function IngestTick(m: MarketData, t: Tick): MarketData {
    match t.instrumentToken
    case None => m
    case Some(token) =>
      var ltp := TickPrice(t);
      MarketData(
        m.ltpCache[token := ltp],
        if token == KiteConfig.NIFTY_50_TOKEN then ltp else m.niftySpot,
        if token == KiteConfig.NIFTY_BANK_TOKEN then ltp else m.bankniftySpot)
  }

  /** The ticks of a batch applied in arrival order. */
  function Ingest(m: MarketData, ticks: seq<Tick>): MarketData
    decreases |ticks|
  {
    if ticks == [] then m
    else IngestTick(Ingest(m, ticks[..|ticks| - 1]), ticks[|ticks| - 1])
  }

  /** The tokens a batch carries. */
  function TickedTokens(ticks: seq<Tick>): set<int> {
    set i | 0 <= i < |ticks| && ticks[i].instrumentToken.Some? :: ticks[i].instrumentToken.value
  }

  /** No cache entry is ever removed, and every token of the batch is cached, known or not. */
  lemma {:induction false} IngestKeys(m: MarketData, ticks: seq<Tick>)
    ensures Ingest(m, ticks).ltpCache.Keys == m.ltpCache.Keys + TickedTokens(ticks)
    decreases |ticks|
  {
    if ticks != [] {
      var n := |ticks|;
      var prefix := ticks[..n - 1];
      IngestKeys(m, prefix);
      forall x | x in TickedTokens(ticks)
        ensures x in TickedTokens(prefix) || ticks[n - 1].instrumentToken == Some(x)
      {
        var i :| 0 <= i < n && ticks[i].instrumentToken.Some? && ticks[i].instrumentToken.value == x;
        if i < n - 1 {
          assert prefix[i] == ticks[i];
        }
      }
      forall x | x in TickedTokens(prefix) ensures x in TickedTokens(ticks) {
        var i :| 0 <= i < n - 1 && prefix[i].instrumentToken.Some? && prefix[i].instrumentToken.value == x;
        assert ticks[i] == prefix[i];
      }
    }
  }

  /**
   * The last tick of the batch for a token decides that token's cache entry,
   * and the spot price too when the token is an index token.
   */
  lemma {:induction false} IngestLastTickWins(m: MarketData, ticks: seq<Tick>, i: int)
    requires 0 <= i < |ticks| && ticks[i].instrumentToken.Some?
    requires forall j :: i < j < |ticks| ==> ticks[j].instrumentToken != ticks[i].instrumentToken
    ensures var token, r := ticks[i].instrumentToken.value, Ingest(m, ticks);
            token in r.ltpCache && r.ltpCache[token] == TickPrice(ticks[i]) &&
            (token == KiteConfig.NIFTY_50_TOKEN ==> r.niftySpot == TickPrice(ticks[i])) &&
            (token == KiteConfig.NIFTY_BANK_TOKEN ==> r.bankniftySpot == TickPrice(ticks[i]))
    decreases |ticks|
  {
    var n := |ticks|;
    if i < n - 1 {
      var prefix := ticks[..n - 1];
      assert prefix[i] == ticks[i];
      forall j | i < j < |prefix| ensures prefix[j].instrumentToken != prefix[i].instrumentToken {
        assert prefix[j] == ticks[j];
      }
      IngestLastTickWins(m, prefix, i);
    }
  }

  /**
   * A token no tick of the batch carries keeps its cache entry (or its absence),
   * and an index spot price changes only when its own token is ticked.
   */
  lemma {:induction false} IngestUntouched(m: MarketData, ticks: seq<Tick>, token: int)
    requires forall j :: 0 <= j < |ticks| ==> ticks[j].instrumentToken != Some(token)
    ensures var r := Ingest(m, ticks);
            (token in r.ltpCache <==> token in m.ltpCache) &&
            (token in m.ltpCache ==> r.ltpCache[token] == m.ltpCache[token]) &&
            (token == KiteConfig.NIFTY_50_TOKEN ==> r.niftySpot == m.niftySpot) &&
            (token == KiteConfig.NIFTY_BANK_TOKEN ==> r.bankniftySpot == m.bankniftySpot)
    decreases |ticks|
  {
    if ticks != [] {
      var prefix := ticks[..|ticks| - 1];
      forall j | 0 <= j < |prefix| ensures prefix[j].instrumentToken != Some(token) {
        assert prefix[j] == ticks[j];
      }
      IngestUntouched(m, prefix, token);
    }
  }

  /** Ticks without a token are skipped: a batch of them changes nothing. */
  lemma {:induction false} IngestSkipsTokenless(m: MarketData, ticks: seq<Tick>)
    requires forall j :: 0 <= j < |ticks| ==> ticks[j].instrumentToken.None?
    ensures Ingest(m, ticks) == m
    decreases |ticks|
  {
    if ticks != [] {
      var prefix := ticks[..|ticks| - 1];
      forall j | 0 <= j < |prefix| ensures prefix[j].instrumentToken.None? {
        assert prefix[j] == ticks[j];
      }
      IngestSkipsTokenless(m, prefix);
    }
  }

  /** The price `_update_pnl` gives a leg: its cached LTP, or its current price when its token is not cached. */
  function CachedPrice(leg: Leg, cache: map<int, real>): real {
    if leg.instrumentToken in cache then cache[leg.instrumentToken] else leg.currentPrice
  }

  function LegEntryValue(leg: Leg): real {
    leg.entryPrice * (leg.quantity as real)
  }

  /** One leg as `_update_pnl` leaves it. */
  function RefreshLeg(leg: Leg, cache: map<int, real>): (r: Leg)
    ensures r.id == leg.id && r.instrumentToken == leg.instrumentToken && r.positionType == leg.positionType
    ensures r.entryPrice == leg.entryPrice && r.quantity == leg.quantity
    ensures leg.instrumentToken in cache ==> r.currentPrice == cache[leg.instrumentToken]
    ensures leg.instrumentToken !in cache ==> r.currentPrice == leg.currentPrice
    ensures r.pnl == SignedPnl(leg.positionType, leg.entryPrice, r.currentPrice, leg.quantity)
    ensures LegEntryValue(leg) <= 0.0 ==> r.pnlPercentage == leg.pnlPercentage
  {
    var price := CachedPrice(leg, cache);
    var pnl := SignedPnl(leg.positionType, leg.entryPrice, price, leg.quantity);
    var entryValue := LegEntryValue(leg);
    leg.(currentPrice := price,
         pnl := pnl,
         pnlPercentage := if entryValue > 0.0 then pnl / entryValue * 100.0 else leg.pnlPercentage)
  }

  /** Revaluation changes the price, the P&L and the percentage of a leg, and nothing else. */
  lemma RefreshLegOnlyRevalues(leg: Leg, cache: map<int, real>)
    ensures RefreshLeg(leg, cache).(currentPrice := leg.currentPrice, pnl := leg.pnl, pnlPercentage := leg.pnlPercentage) == leg
  {
  }

  /** With a positive entry value, the refreshed percentage is the refreshed P&L per 100 of entry value. */
  lemma RefreshLegPercentage(leg: Leg, cache: map<int, real>)
    requires LegEntryValue(leg) > 0.0
    ensures RefreshLeg(leg, cache).pnlPercentage * LegEntryValue(leg) == RefreshLeg(leg, cache).pnl * 100.0
  {
  }

  /** Every leg of the list refreshed, in the same order. */
  function RefreshAll(legs: seq<Leg>, cache: map<int, real>): (r: seq<Leg>)
    ensures |r| == |legs|
    ensures forall i :: 0 <= i < |legs| ==> r[i] == RefreshLeg(legs[i], cache)
  {
    seq(|legs|, i requires 0 <= i < |legs| => RefreshLeg(legs[i], cache))
  }

  /**
   * Revaluing against an unchanged cache changes nothing: the result of one
   * refresh is a fixed point.
   */
  lemma RefreshIdempotent(legs: seq<Leg>, cache: map<int, real>)
    ensures RefreshAll(RefreshAll(legs, cache), cache) == RefreshAll(legs, cache)
  {
    var once := RefreshAll(legs, cache);
    forall i | 0 <= i < |legs| ensures RefreshLeg(once[i], cache) == once[i] {
      var leg := legs[i];
      if leg.instrumentToken !in cache {
        assert once[i].currentPrice == leg.currentPrice;
      }
    }
  }

  /** Revaluation commutes with dropping the first leg. */
  lemma RefreshTail(legs: seq<Leg>, cache: map<int, real>)
    requires legs != []
    ensures RefreshAll(legs, cache)[1..] == RefreshAll(legs[1..], cache)
  {
  }

  /** Sum of the legs' P&L, in list order. */
  function TotalPnl(legs: seq<Leg>): real
    decreases |legs|
  {
    if legs == [] then 0.0 else TotalPnl(legs[..|legs| - 1]) + legs[|legs| - 1].pnl
  }

  /** Sum of the legs' entry values, in list order. */
  function TotalEntryValue(legs: seq<Leg>): real
    decreases |legs|
  {
    if legs == [] then 0.0 else TotalEntryValue(legs[..|legs| - 1]) + LegEntryValue(legs[|legs| - 1])
  }

  /** Appending a leg adds its P&L and its entry value to the totals. */
  lemma TotalsAppend(legs: seq<Leg>, leg: Leg)
    ensures TotalPnl(legs + [leg]) == TotalPnl(legs) + leg.pnl
    ensures TotalEntryValue(legs + [leg]) == TotalEntryValue(legs) + LegEntryValue(leg)
  {
    assert (legs + [leg])[..|legs|] == legs;
  }

  /** `total_pnl_percentage` after a revaluation: only a positive total entry value replaces the previous one. */
  function TotalPercentage(legs: seq<Leg>, previous: real): real {
    var entryValue := TotalEntryValue(legs);
    if entryValue > 0.0 then TotalPnl(legs) / entryValue * 100.0 else previous
  }

  /**
   * The total percentage is the total P&L per 100 of total entry value, and is
   * left as it was unless the total entry value is positive.
   */
  lemma TotalPercentageMeaning(legs: seq<Leg>, previous: real)
    ensures TotalEntryValue(legs) <= 0.0 ==> TotalPercentage(legs, previous) == previous
    ensures TotalEntryValue(legs) > 0.0 ==> TotalPercentage(legs, previous) * TotalEntryValue(legs) == TotalPnl(legs) * 100.0
  {
  }

  /**
   * The P&L `_update_pnl` writes into a leg is the row's own `pnl` property
   * evaluated at the leg's refreshed price: both use one sign convention.
   */
  lemma RefreshedPnlIsTradePnl(t: Trade, cache: map<int, real>)
    ensures var r := RefreshLeg(t.ToDict(), cache);
            r.pnl == t.(currentPrice := r.currentPrice).Pnl()
  {
  }
}
