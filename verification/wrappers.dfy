/** Optional values and results with an error, used for GraphQL nullable
    values and for resolvers that throw. */
module Wrappers {

  /** A nullable value: `null`/`undefined` is `None`. */
  datatype Option<+T> = None | Some(value: T)

  /** The outcome of a resolver: a value, or the error it throws. */
  datatype Result<+R, +E> = Success(value: R) | Failure(error: E)
}
