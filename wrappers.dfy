/** The optional value used across the model. */
module Wrappers {

  /** A value that may be absent: a JavaScript `undefined`/`null` or a failed search. */
  datatype Option<+T> = None | Some(value: T)
}
