/** Optional values, results and the two Python exceptions the solver can raise. */
module Outcomes {

  datatype Option<+T> = None | Some(value: T)

  /** The exceptions the puzzle code lets escape. */
  datatype Fault =
    | ValueError   // a line was asked for between two identical points
    | IndexError   // a fill pass was given an empty point list

  datatype Result<+T> = Success(value: T) | Failure(error: Fault)
}
