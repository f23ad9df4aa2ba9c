/** Small shared vocabulary: optional values and the values a JavaScript
    `catch` block can receive. */
module Wrappers {

  /** `undefined`/`null` versus a present value. */
  datatype Option<+T> = None | Some(value: T) {
    function GetOr(default: T): T {
      match this
      case Some(v) => v
      case None => default
    }
  }

  /** A computed value or the message explaining why there is none. */
  datatype Result<+R> = Success(value: R) | Failure(error: string)

  /** A value caught by `catch (error)`: either an `Error` instance (with its
      `name` and `message`) or some other thrown value, of which the model
      keeps its `String(...)` rendering and whether it is truthy. */
  datatype Thrown =
    | ErrorObject(name: string, message: string)
    | NonError(text: string, truthy: bool)
  {
    /** `error instanceof Error ? error.message : fallback` */
    function MessageOr(fallback: string): string {
      if ErrorObject? then message else fallback
    }

    /** `String(error)`: an Error renders as "name: message" (just the name
        when the message is empty). */
    function Rendered(): string {
      match this
      case ErrorObject(n, m) => if m == "" then n else n + ": " + m
      case NonError(t, _) => t
    }

    /** `Boolean(error)`: every object is truthy. */
    predicate IsTruthy() {
      ErrorObject? || truthy
    }
  }
}
