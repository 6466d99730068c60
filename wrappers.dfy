/** The optional value that Python writes as `Optional[T]` (`None` or a value). */
module Wrappers {
  datatype Option<T> = None | Some(value: T)
}
