/** The exceptions the game raises, and the wrappers that carry them. */
module Outcomes {

  /** The two exception kinds thrown by the rule engine. */
  datatype Error =
    | IllegalArgument  // invalid move, or an occupied cell handed to setState
    | IllegalState     // getWinner while the game is still running

  /** A value, or a Java `null`. */
  datatype Option<+T> = None | Some(value: T)

  /** A void operation that either returns normally or throws. */
  datatype Outcome = Pass | Fail(error: Error)

  /** An operation that returns a value or throws. */
  datatype Result<+T> = Success(value: T) | Failure(error: Error)
}
