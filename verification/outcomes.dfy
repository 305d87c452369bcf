/** Failure-carrying results shared by the token table and the virtual
    machine. Every error the modelled C code raises through `call_error` or
    `oto_error` is fatal to the current compilation or execution unit, so an
    operation either produces its value or stops with one error kind. */
module Outcomes {

  /** The error codes the modelled code raises. A pop from an empty operand
      stack is reported as an internal error: stack-discipline violations are
      never tolerated silently. */
  datatype ErrorKind =
    | TooManyTokenError
    | ArgumentsTypeError
    | MissingArgumentsError
    | FilterError
    | InternalError

  datatype Option<+T> = None | Some(value: T)

  datatype Result<+T> = Ok(value: T) | Error(kind: ErrorKind) {
    predicate IsFailure() {
      Error?
    }

    function PropagateFailure<U>(): Result<U>
      requires Error?
    {
      Error(kind)
    }

    function Extract(): T
      requires Ok?
    {
      value
    }
  }
}
