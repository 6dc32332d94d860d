/** Option and Result, shared by the extraction and zone-map models. */
module Wrappers {

  /** An optional value: a search that may find nothing, a line that may emit nothing. */
  datatype Option<+T> = None | Some(value: T)

  /** The outcome of a computation that can abort with an error. */
  datatype Result<+R, +E> = Success(value: R) | Failure(error: E)
}
