/** Optional values and the single failure outcome used by the service. */
module Wrappers {

  /** A Java reference that may be null: `None` stands for `null`. */
  datatype Option<T> = None | Some(value: T)

  /**
   * The outcome of a service call. `Fail` collapses every exception the
   * service can raise (an empty `Optional.get()`, a setter on a null entity).
   */
  datatype Result<T> = Ok(value: T) | Fail
}
