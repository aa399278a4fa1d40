/** Failure-carrying datatypes shared by the model: `Option` stands for a
    Java reference that may be null, `Result` for a call that may throw, and
    `BatchOutcome` for a batch that may abort part-way and keeps whatever state it
    had reached when it stopped. */
module Wrappers {

  datatype Option<+T> = None | Some(value: T) {

    /** The encapsulated value, or `default` when there is none. */
    function GetOr(default: T): T {
      match this
      case Some(v) => v
      case None => default
    }
  }

  datatype Result<+T, +E> = Success(value: T) | Failure(error: E)

  /** The end state of a batch. `Aborted` still carries the state: the
      source mutates records and the remote store in place, so the effects of
      the items processed before the failure survive it. */
  datatype BatchOutcome<+S, +E> = Completed(state: S) | Aborted(state: S, error: E)
}
