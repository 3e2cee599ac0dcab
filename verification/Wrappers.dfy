/** Small shared datatypes. */
module Wrappers {

  /** A nullable value: a database row that may be missing, an optional field. */
  datatype Option<+T> = None | Some(value: T)

  /** How a database call ends.  An error may come back after the write committed. */
  datatype Fault = Fine | Error | ErrorAfterCommit
}
