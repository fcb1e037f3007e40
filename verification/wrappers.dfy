/** Optional values in the sense of JavaScript: a field that is either `undefined` or holds a value. */
module Wrappers {

  /** A value that may be JavaScript's `undefined`. */
  datatype Optional<+T> = Undefined | Defined(value: T)

  /** JavaScript truthiness of an optional string: `undefined` and the empty string are both falsy. */
  predicate Truthy(o: Optional<string>)
  {
    o.Defined? && o.value != ""
  }
}
