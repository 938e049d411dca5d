/** Failure kinds of the store and the wrappers that carry them.
    Every exception the store throws becomes an `Err`/`Fail` value here. */
module Errors {

  /** The exceptions the storage core can raise. */
  datatype Error =
    | NotRegistered      // "Component is not registered"
    | AlreadyRegistered  // "Component is already registered"
    | TypeMismatch       // "Type doesn't match node"
    | OutOfRange         // std::out_of_range from a checked `.at` access

  datatype Option<+T> = None | Some(value: T)

  datatype Result<+T> = Ok(value: T) | Err(error: Error)

  /** Result of an operation that returns nothing but may throw. */
  datatype Outcome = Pass | Fail(error: Error)
}
