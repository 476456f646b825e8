/** The dashboard's `message` and `message_type` after each operation. */
module Notices {

  datatype MessageType = NoMessage | Info | Success | Failure

  datatype Notice =
    | NoNotice
    | NotAuthenticated
    | TickerAlreadyRunning
    | PackageMissing
    | TickerFailed
    | TickerStarted
    | TickerStopped
    | InsufficientMargin(required: real, available: real)
    | TradeAdded(tradingsymbol: string)
    | TradeNotFound
    | TradeClosed(pnl: real)
  {
    /** `message_type`: a close reads as a success when it did not lose money. */
    function Kind(): MessageType {
      match this
      case NoNotice => NoMessage
      case NotAuthenticated => Failure
      case TickerAlreadyRunning => Info
      case PackageMissing => Failure
      case TickerFailed => Failure
      case TickerStarted => Success
      case TickerStopped => Info
      case InsufficientMargin(_, _) => Failure
      case TradeAdded(_) => Success
      case TradeNotFound => Failure
      case TradeClosed(pnl) => if pnl >= 0.0 then Success else Failure
    }
  }
}
