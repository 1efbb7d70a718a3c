/** The optional and fallible results used throughout. */
module Wrappers {

  datatype Option<+T> = None | Some(value: T)

  /** The store's sentinel errors; Driver stands for any error PostgreSQL or the
      JSON layer returns unmapped. */
  datatype Error =
    | NotFound | Conflict | Forbidden | Invalid | RequesterMatch | CheckAndSet
    | Serialization | Authentication | Driver

  datatype Result<+T> = Ok(value: T) | Err(error: Error) {
    predicate IsFailure() { Err? }

    function PropagateFailure<U>(): Result<U>
      requires Err?
    { Err(error) }

    function Extract(): T
      requires Ok?
    { value }
  }
}
