/** Optional values and the raising paths of the modelled Python code. */
module Wrappers {

  /** A Python value that may be `None`. */
  datatype Option<+T> = None | Some(value: T)

  /** The outcome of a Python call that either returns a value or raises. */
  datatype Outcome<+T> = Returned(value: T) | Raised(exception: string)

  /** Python truthiness of an optional string: not `None` and not empty. */
  predicate Truthy(s: Option<string>) {
    s.Some? && s.value != ""
  }
}
