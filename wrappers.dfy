/** An optional value, for results that the source reports as None. */
module Wrappers {
  datatype Option<T> = None | Some(value: T)
}
