/** The uniform reply of every request handler: `{success: true, data}` or
    `{success: false, error}`, plus an Option for JavaScript's `undefined`. */
module Envelope {

  /** A value that may be absent (`undefined` in the handlers' payloads). */
  datatype Option<+T> = None | Some(value: T) {
    function GetOr(default: T): T {
      match this
      case Some(v) => v
      case None => default
    }
  }

  /** `Ok(data)` is `{success: true, data}`; `Err(error)` is `{success: false, error}`. */
  datatype Result<+T> = Ok(data: T) | Err(error: string)

  /** The acknowledgement carried by handlers that answer `{success: true}` alone. */
  datatype Ack = Ack
}
