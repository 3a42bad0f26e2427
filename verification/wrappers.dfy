/** The optional value used wherever the screen can trap or has nothing to report. */
module Wrappers {

  /** `None` is the absent value; `Some` carries one. */
  datatype Option<+T> = None | Some(value: T)
}
