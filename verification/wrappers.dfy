/** Failure-carrying result types shared by the engine and the command handlers. */
module Wrappers {

  /** A value that may be absent: a member lookup that found nothing is `None`. */
  datatype Option<+T> = None | Some(value: T)

  /** The outcome of a step that can raise: `Failure` stands for a Python exception. */
  datatype Result<+T, +E> = Success(value: T) | Failure(error: E)
}
