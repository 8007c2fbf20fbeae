/** Shared vocabulary: octets, optional values, and the outcome of a call that may raise. */
module Common {

  /** One element of a Python `bytes` value. */
  type byte = b: int | 0 <= b < 0x100

  /** A value that may be absent, as Python's `None`. */
  datatype Option<+T> = None | Some(value: T)

  /** The exceptions the client lets escape to its caller. */
  datatype Error =
    | TypeError(reason: string)   // raised by `_bytes`, and by `findall(None)` after a non-200 reply
    | ConnectionError             // raised by the HTTP library when the service cannot be reached

  /** The value a call returns, or the exception it raises. */
  datatype Result<+T> = Ok(value: T) | Err(error: Error) {

    predicate IsFailure() {
      Err?
    }

    function PropagateFailure<U>(): Result<U>
      requires Err?
    {
      Err(error)
    }

    function Extract(): T
      requires Ok?
    {
      value
    }
  }
}
