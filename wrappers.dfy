/** Option and Result values shared by the tracker and the scouting modules. */
module Wrappers {

  /** A value that may be absent (a frame without a detection, a failed read). */
  datatype Option<+T> = None | Some(value: T)

  /** A value or an error, for operations of the source that raise. */
  datatype Result<+R, +E> = Ok(value: R) | Err(error: E)
}
