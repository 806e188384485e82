/** Failure-compatible result types shared by the analyser modules. */
module Wrappers {

  /** An optional value: `None` stands for an absent or non-finite result. */
  datatype Option<+T> = None | Some(value: T)

  /** A computation that either succeeds with a value or fails with an error. */
  datatype Result<+T, +E> = Success(value: T) | Failure(error: E)

  /** The ways an analysis call can fail instead of returning. */
  datatype Error =
    | EmptySeries       // the price frame has no rows, so the first close cannot be read
    | MissingBreakout   // a T position has no B at the same list position to pair with
}
