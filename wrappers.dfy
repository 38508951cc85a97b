/** Option and Result, used wherever the Java code returns null or throws. */
module Wrappers {

  /** A value that may be absent: `None` stands for Java's `null`. */
  datatype Option<+T> = None | Some(value: T) {
    function GetOr(default: T): T {
      match this
      case Some(v) => v
      case None => default
    }
  }

  /** The outcome of a Java call that either returns a value or throws `error`. */
  datatype Result<+T, +E> = Success(value: T) | Failure(error: E) {
    predicate IsFailure() {
      Failure?
    }

    function PropagateFailure<U>(): Result<U, E>
      requires Failure?
    {
      Failure(error)
    }

    function Extract(): T
      requires Success?
    {
      value
    }
  }
}

/** The Java exceptions the framework throws or wraps, with message and nested cause. */
module Exceptions {
  import opened Wrappers

  datatype Kind =
    | IllegalArgument
    | IllegalState
    | UnsupportedOperation
    | ClassCast
    | NullPointer
    | NoSuchMethod
    | InvocationTarget
    | NumberFormat
    | Remote
    | Execute
    | AssertionFailed
    | Runtime
    | FileNotFound
    | IO
    | Other(className: string)

  datatype Throwable = Throwable(kind: Kind, message: Option<string>, cause: Option<Throwable>)

  /** `new K(message)`. */
  function Raise(kind: Kind, message: string): Throwable {
    Throwable(kind, Some(message), None)
  }

  /** `new UnsupportedOperationException()`, as an iterator's unsupported remove() throws it. */
  function Unsupported(): (t: Throwable)
    ensures t.kind == UnsupportedOperation && t.message.None? && t.cause.None?
  {
    Throwable(UnsupportedOperation, None, None)
  }

  /** `new K(message, cause)`. */
  function Wrap(kind: Kind, message: string, cause: Throwable): Throwable {
    Throwable(kind, Some(message), Some(cause))
  }
}
