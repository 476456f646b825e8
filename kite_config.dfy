/** The constants of `KiteConfig`: index instrument tokens and contract lot sizes. */
module KiteConfig {

  /** Instrument token of the NSE "NIFTY 50" index. */
  const NIFTY_50_TOKEN: int := 256265
  /** Instrument token of the NSE "NIFTY BANK" index. */
  const NIFTY_BANK_TOKEN: int := 260105
  /** Instrument token of the BSE "SENSEX" index (configured, never subscribed). */
  const SENSEX_TOKEN: int := 265

  /** Contract lot size per underlying symbol. */
  const LOT_SIZES: map<string, int> := map["NIFTY" := 50, "BANKNIFTY" := 15, "SENSEX" := 10]

  /** Lot size for `symbol`, 50 for a symbol the table does not list. */
  function LotSize(symbol: string): (n: int)
    ensures n > 0
    ensures symbol !in LOT_SIZES ==> n == 50
    ensures symbol in LOT_SIZES ==> n == LOT_SIZES[symbol]
  {
    if symbol in LOT_SIZES then LOT_SIZES[symbol] else 50
  }
}
