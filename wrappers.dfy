/** Optional values and the outcome of an operation that can fail. */
module Wrappers {

  datatype Option<T> = None | Some(value: T)

  /** The only failure the chunk layer reports: the input does not start with the PNG signature
      (the source raises `ValueError` there). */
  datatype Error = NotPng

  datatype Result<T> = Ok(value: T) | Err(error: Error)
}
