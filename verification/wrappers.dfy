/** The two failure-carrying shapes the model needs: Go's `(value, error)`
    pairs become a `Result`, a nil-or-not `error` becomes an `Option`. */
module Wrappers {

  datatype Option<+T> = None | Some(value: T)

  datatype Result<+R, +E> = Success(value: R) | Failure(error: E)
}
