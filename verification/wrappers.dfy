/** Failure-compatible result types shared by every module of the model.

    Python code signals failure by raising; the model returns `Failure` with an
    `Error` naming the exception the source would raise. */
module Wrappers {

  datatype Option<+T> = None | Some(value: T) {
    function GetOr(default: T): T {
      match this
      case Some(v) => v
      case None => default
    }
  }

  /** The exceptions the modelled code can raise. */
  datatype Error =
    | ZeroDivision          // Python ZeroDivisionError
    | TypeError             // e.g. zip over None
    | ValueError(msg: string)
    | KeyError(key: string)
    | IndexError
    | AttributeError        // attribute access on None
    | AssertionError
    | ArgumentError(msg: string)
    | ParserError(msg: string)
    | ImportError(name: string)

  datatype Result<+R> = Success(value: R) | Failure(error: Error) {
    predicate IsFailure() {
      Failure?
    }

    function PropagateFailure<U>(): Result<U>
      requires Failure?
    {
      Failure(error)
    }

    function Extract(): R
      requires Success?
    {
      value
    }
  }

  /** Python truthiness of an optional string: `None` and `''` are falsy. */
  predicate Truthy(s: Option<string>) {
    s.Some? && s.value != ""
  }
}
