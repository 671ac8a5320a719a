/** The data the token search works on. */
module Tokens {

  datatype Option<+T> = None | Some(value: T) {
    /** The wrapped value, or `default` when there is none. */
    function GetOr(default: T): T {
      match this
      case Some(v) => v
      case None => default
    }
  }

  /**
   A token-list entry (`TokenInfo` of the token-lists format): contract
   address, ticker symbol, display name and an optional logo location.
   */
  datatype TokenInfo = TokenInfo(
    address: string,
    symbol: string,
    name: string,
    logoURI: Option<string>
  )

  /**
   The network whose token list is searched. `Unsupported` stands for any
   other value the selector may hold at run time.
   */
  datatype Network = Eth | GravityBridge | Unsupported
}
