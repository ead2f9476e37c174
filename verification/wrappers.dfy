/** Failure-compatible Option and Result, the model's counterparts of Rust's
    `Option<T>` and `Result<T, Error>`. */
module Wrappers {

  datatype Option<+T> = None | Some(value: T) {
    predicate IsFailure() { None? }

    function PropagateFailure<U>(): Option<U>
      requires None?
    {
      None
    }

    function Extract(): T
      requires Some?
    {
      value
    }

    /** Rust's `unwrap_or`. */
    function GetOr(default: T): T {
      match this
      case Some(v) => v
      case None => default
    }
  }

  datatype Result<+R, +E> = Success(value: R) | Failure(error: E) {
    predicate IsFailure() { Failure? }

    function PropagateFailure<U>(): Result<U, E>
      requires Failure?
    {
      Failure(error)
    }

    function Extract(): R
      requires Success?
    {
      value
    }
  }
}

/** The crate's error kinds, across all revisions of the source. */
module Errors {
  datatype Error =
    | WordIsInvalid        // a word's stored parity disagrees with its data
    | InvalidWord          // same, as reported by the message builder
    | StringIsInvalid      // a data word's two bytes are not UTF-8
    | MessageBad           // a typed command constructor's predicate failed
    | NotModeCode          // mode code requested from a non-mode-code command
    | PacketIsInvalid      // a packet with bad parity or the wrong sync
    | MessageIsFull        // a command message already holds its data words
    | FirstWordIsData      // a data word offered to an empty message
    | StatusWordNotFirst   // a status word offered to a non-empty message
    | CommandWordNotFirst  // a command word offered to a non-empty message
    | MessageFull          // the limited message has reached its limit
}
