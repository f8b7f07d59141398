/** The optional-value type used for `java.util.Optional` results and absent map entries. */
module Wrappers {
  datatype Option<+T> = None | Some(value: T)
}
