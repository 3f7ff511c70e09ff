/** Optional values, and the JavaScript notion of a "truthy" optional string. */
module Wrappers {

  /** A field that may be `undefined` in the source. */
  datatype Option<+T> = None | Some(value: T)

  /**
   * JavaScript truthiness of a `string | undefined`: both `undefined` and the
   * empty string are falsy, every other string is truthy.
   */
  predicate Truthy(o: Option<string>)
  {
    o.Some? && o.value != ""
  }
}
