/** Failure-compatible result types shared by the codec and the session model.
    Callers use `:-` to propagate a `Fault` exactly as an exception unwinds to the
    next `catch`. */
module Wrappers {
  import opened Faults

  datatype Option<+T> = None | Some(value: T) {
    function GetOr(default: T): T {
      match this
      case Some(v) => v
      case None => default
    }
  }

  datatype Result<+T> = Ok(value: T) | Fail(error: Fault) {
    predicate IsFailure() {
      Fail?
    }

    function PropagateFailure<U>(): Result<U>
      requires Fail?
    {
      Fail(error)
    }

    function Extract(): T
      requires Ok?
    {
      value
    }
  }

  /** A value decoded from the front of an input, and the input left after it. */
  datatype Parsed<+T> = Parsed(value: T, rest: seq<Byte>)

  /** One octet on the wire. */
  newtype Byte = x: int | 0 <= x < 256
}
