/** Small value wrappers shared by the whole model. */
module Wrappers {

  /** A value that may be absent: Python's `None` or a missing DOM element. */
  datatype Option<+T> = None | Some(value: T)

  /** The outcome of one call into the browser: either a value, or an exception
      that the calling Python code either catches or lets propagate. */
  datatype Try<+T> = Ok(value: T) | Raised
}
