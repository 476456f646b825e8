/**
 * The ticker side of the state: the instrument tokens a connection subscribes
 * to, and the connection flags `start_ticker` and `stop_ticker` maintain.
 * The WebSocket client, its thread and its callbacks are not part of this model;
 * what the client library does when it is asked to start is an input.
 */
module Ticker {
  import opened Trades
  import Notices
  import KiteConfig

  /**
   * `_get_subscription_tokens`: the two index tokens and the token of every
   * active leg, each once. A leg whose token is 0 is skipped, as Python treats 0 as false.
   */
  function SubscriptionTokens(legs: seq<Leg>): (r: set<int>)
    ensures KiteConfig.NIFTY_50_TOKEN in r && KiteConfig.NIFTY_BANK_TOKEN in r
    ensures forall x :: x in r <==>
              x == KiteConfig.NIFTY_50_TOKEN || x == KiteConfig.NIFTY_BANK_TOKEN ||
              (x != 0 && exists i :: 0 <= i < |legs| && legs[i].instrumentToken == x)
    decreases |legs|
  {
    if legs == [] then {KiteConfig.NIFTY_50_TOKEN, KiteConfig.NIFTY_BANK_TOKEN}
    else
      var prefix, last := legs[..|legs| - 1], legs[|legs| - 1];
      var r := SubscriptionTokens(prefix) + (if last.instrumentToken != 0 then {last.instrumentToken} else {});
      assert forall i :: 0 <= i < |prefix| ==> prefix[i] == legs[i];
      r
  }

  datatype TickerStatus = Disconnected | Connected | Error

  /**
   * `is_ticker_connected`, `ticker_status`, whether a client instance is held
   * (`_ticker_instance`) and the stop request flag (`_should_stop_ticker`).
   */
  datatype TickerFlags = TickerFlags(
    isTickerConnected: bool,
    tickerStatus: TickerStatus,
    hasTickerInstance: bool,
    shouldStopTicker: bool)

  /**
   * How the client library behaves when asked to start: it starts, it is not
   * installed (ImportError), its constructor raises, or starting the thread raises.
   */
  datatype SdkOutcome = SdkStarts | SdkNotInstalled | SdkConstructorFails | SdkThreadFails

  /** A session credential is held: both the access token and the API key are non-empty. */
  predicate Authenticated(apiKey: string, accessToken: string) {
    accessToken != "" && apiKey != ""
  }

  /** The flags and message `start_ticker` leaves. */
  function Start(f: TickerFlags, authenticated: bool, sdk: SdkOutcome): (r: (TickerFlags, Notices.Notice))
    ensures !authenticated ==> r == (f, Notices.NotAuthenticated)
    ensures authenticated && f.isTickerConnected ==> r == (f, Notices.TickerAlreadyRunning)
    ensures r.0 != f ==> authenticated && !f.isTickerConnected && sdk != SdkNotInstalled
    ensures authenticated && !f.isTickerConnected && sdk == SdkNotInstalled ==> r == (f, Notices.PackageMissing)
    ensures authenticated && !f.isTickerConnected ==> (r.0.isTickerConnected <==> sdk == SdkStarts)
    ensures authenticated && !f.isTickerConnected && sdk == SdkStarts ==>
              r.0.tickerStatus == Connected && r.0.hasTickerInstance && !r.0.shouldStopTicker &&
              r.1 == Notices.TickerStarted
    ensures authenticated && !f.isTickerConnected && sdk != SdkStarts && sdk != SdkNotInstalled ==>
              r.0.tickerStatus == Error && r.1 == Notices.TickerFailed
    ensures authenticated && !f.isTickerConnected && sdk == SdkConstructorFails ==>
              r.0.hasTickerInstance == f.hasTickerInstance && r.0.shouldStopTicker == f.shouldStopTicker
    ensures authenticated && !f.isTickerConnected && sdk == SdkThreadFails ==>
              r.0.hasTickerInstance && !r.0.shouldStopTicker
  {
    if !authenticated then (f, Notices.NotAuthenticated)
    else if f.isTickerConnected then (f, Notices.TickerAlreadyRunning)
    else
      match sdk
      case SdkNotInstalled => (f, Notices.PackageMissing)
      case SdkConstructorFails => (f.(isTickerConnected := false, tickerStatus := Error), Notices.TickerFailed)
      case SdkThreadFails => (TickerFlags(false, Error, true, false), Notices.TickerFailed)
      case SdkStarts => (TickerFlags(true, Connected, true, false), Notices.TickerStarted)
  }

  /** The flags `stop_ticker` leaves, whatever they were. */
  function Stop(f: TickerFlags): (r: TickerFlags)
    ensures !r.isTickerConnected && r.tickerStatus == Disconnected
    ensures !r.hasTickerInstance && r.shouldStopTicker
  {
    TickerFlags(false, Disconnected, false, true)
  }

  /** Stopping twice leaves the same state as stopping once. */
  lemma StopIdempotent(f: TickerFlags)
    ensures Stop(Stop(f)) == Stop(f)
  {
  }
}
