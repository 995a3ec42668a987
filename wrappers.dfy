/** An optional value: JavaScript's null or undefined where a value may be absent. */
module Wrappers {
  datatype Option<T> = None | Some(value: T)
}
