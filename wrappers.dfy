/** The Option type used for Java nulls, Python `None` and parse failures. */
module Wrappers {
  datatype Option<+T> = None | Some(value: T)
}
