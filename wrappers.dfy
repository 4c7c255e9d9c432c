/** Optional and failure-carrying values. In this model `None` stands for a C#
    `null` reference and `Failure` for an exception the runtime would throw. */
module Wrappers {

  datatype Option<+T> = None | Some(value: T)

  datatype Result<+T, +E> = Success(value: T) | Failure(error: E)
}
