/** Failure-compatible wrappers used by the iBFT marshaller model. */
module Wrappers {

  /** An optional value: what a parser or bit-packer returns when it may reject its input. */
  datatype Option<+T> = None | Some(value: T)

  /** The outcome of an operation that either produces a value or reports why it could not. */
  datatype Result<+T, +E> = Ok(value: T) | Err(error: E)
}
