/** Option, Result and the outcome of a Rust call that may panic. */
module Wrappers {

  datatype Option<+T> = None | Some(value: T)

  datatype Result<+T, +E> = Ok(value: T) | Err(error: E)

  /** Why a Rust call aborted instead of returning. */
  datatype PanicCause =
    | IndexOutOfBounds(len: nat, index: nat)  // `v[index]` on a vector of length `len`
    | ExpectFailed(message: string)           // `.expect(message)` on an `Err`/`None`
    | NotYetImplemented                       // `todo!()`

  /** A call either returns a value or panics. */
  datatype Run<+T> = Returns(value: T) | Panics(cause: PanicCause)
}
