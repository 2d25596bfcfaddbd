/** Failure-carrying datatypes shared by the frame decoder and the session. */
module Wrappers {

  /** An optional value: the device-side decoders answer `None` for a malformed frame. */
  datatype Option<+T> = None | Some(value: T)

  /** A value or an error: used where a command refuses its input. */
  datatype Result<+R, +E> = Success(value: R) | Failure(error: E)
}
