/** A value that may be missing: a nil pointer, or a search that found nothing. */
module Wrappers {
  datatype Option<T> = None | Some(value: T)
}
