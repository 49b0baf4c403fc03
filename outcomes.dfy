/** The outcomes a wrapper can have. Rust's `Result` gives `Ok` and `Err`; a
    `panic!` is the distinguished `Fatal` outcome (the process aborts, nothing is
    returned to the caller); `unreachable!()` is the `Unreachable` outcome, kept
    separate from `Fatal` so that the three-way classification of kernel replies
    (typed error, contract violation, cannot happen) stays visible. */
module Outcomes {

  datatype Option<+T> = None | Some(value: T)

  /** Why the process aborted. */
  datatype Panic =
    | ErrnoPanic(errno: int)       // a `panic!` arm chosen by an errno value
    | SliceOutOfBounds             // a slice index past the end of a slice
    | SignalReadCancelled          // the signal file descriptor read was cancelled
    | SignalReadInterrupted        // the signal file descriptor read was interrupted
    | QueueNameRejected            // the message queue name guard refused the name

  datatype Outcome<+T, +E> =
    | Ok(value: T)
    | Err(error: E)
    | Fatal(panic: Panic)
    | Unreachable
  {
    /** Anything but `Ok` ends a chain of `:-` steps, the way `?` does. */
    predicate IsFailure() {
      !Ok?
    }

    function PropagateFailure<U>(): (r: Outcome<U, E>)
      requires !Ok?
      ensures Err? ==> r == Err(error)
      ensures Fatal? ==> r == Fatal(panic)
      ensures Unreachable? ==> r.Unreachable?
    {
      match this
      case Err(e) => Err(e)
      case Fatal(p) => Fatal(p)
      case Unreachable => Unreachable
    }

    function Extract(): T
      requires Ok?
    {
      value
    }
  }

  /** The `std::io::ErrorKind` values the modelled code produces or inspects. */
  datatype IoErrorKind =
    | InvalidData
    | Interrupted
    | WouldBlock
    | Other
    | UnexpectedEof
    | ConnectionReset
    | ConnectionRefused
    | WriteZero
    | BrokenPipe
    | PermissionDenied
    | NotFound
}
