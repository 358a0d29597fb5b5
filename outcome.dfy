/** Failure-compatible wrappers shared by the geohash modules. */
module Outcome {

  datatype Option<+T> = None | Some(value: T)

  /** The exceptions the modelled operations can raise. */
  datatype Error =
    | InvalidCharacter    // `BASE32.index` finds no such character (ValueError)
    | PrecisionOutOfRange // the grid tables are indexed past their end (IndexError)

  datatype Result<+T> = Ok(value: T) | Err(error: Error)
}
