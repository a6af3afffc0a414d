/** Failure-compatible optional values, used wherever the modelled code can throw. */
module Wrappers {

  /** `None` stands for a thrown exception (or a JavaScript `null`/`undefined`). */
  datatype Option<+T> = None | Some(value: T)
}
