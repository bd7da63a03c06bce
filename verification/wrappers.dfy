/** Failure-compatible wrappers used by every other module: `Option` for an
    absent value and `Result` for an operation that can throw. */
module Wrappers {

  datatype Option<+T> = None | Some(value: T)

  datatype Result<+T, +E> = Success(value: T) | Failure(error: E) {

    predicate IsFailure() {
      Failure?
    }

    function PropagateFailure<U>(): Result<U, E>
      requires Failure?
    {
      Failure(error)
    }

    function Extract(): T
      requires Success?
    {
      value
    }
  }
}

/** The exceptions the engine can raise. Each one aborts the whole call:
    JavaScript's `String.prototype.replace` gives no partial output when its
    callback throws. */
module Errors {

  datatype Error =
      /** `evalRegex` was given something that is neither a string nor a
          RegExp (or, in literal mode, `escapeRegExp` called `.replace` on
          such a value). */
    | InvalidTargetType
      /** The replacement is neither a string nor a function. */
    | InvalidReplacementType
      /** The capitalise-first-letter rule indexed `replaced[0]` of an empty
          replacement, which throws a TypeError. */
    | EmptyReplacementIndexed
}
