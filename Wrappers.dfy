/** Optional values: Python's `None` or a value. */
module Wrappers {

  datatype Option<T> = None | Some(value: T)

  /** Python truthiness of an optional string: present and non-empty. */
  predicate Truthy(o: Option<string>)
  {
    o.Some? && |o.value| > 0
  }
}
