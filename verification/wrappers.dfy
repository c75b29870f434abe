/** Optional values and error-carrying results, used for the nullable columns
    and JSON fields of the country service and for its error responses. */
module Wrappers {

  /** A nullable value: `None` stands for a JSON `null` or a missing key. */
  datatype Option<T> = None | Some(value: T)

  /** The outcome of an operation that either succeeds with a value or fails
      with an error that the caller reports instead of changing anything. */
  datatype Result<T, E> = Ok(value: T) | Err(error: E)
}
