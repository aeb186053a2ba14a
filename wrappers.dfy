/** Optional values and handler outcomes shared by the controllers. */
module Wrappers {

  /** A value that may be absent: a JavaScript `undefined`/`null`, or a query
      that returned no row. */
  datatype Option<+T> = None | Some(value: T)

  /** The outcome of a request handler: the success payload or the error the
      handler answers with instead. */
  datatype Result<+R, +E> = Success(value: R) | Failure(error: E)
}
