/** Small failure-carrying datatypes shared by the read path. */
module Outcomes {

  /** A value that may be absent, as a store lookup that finds nothing. */
  datatype Option<+T> = None | Some(value: T)

  /** The outcome of a read that may abort: the server's `throw` on a
      mnemonic error ends the whole request instead of returning a value. */
  datatype Outcome<+T> = Ok(value: T) | Abort(error: string)
}
