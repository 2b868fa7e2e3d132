/** The optional-value type shared by the other modules. */
module Wrappers {

  /** A value that may be absent; Go's `error` return is `Option<E>` here (None is nil). */
  datatype Option<+T> = None | Some(value: T)
}
