/** Optional values and run outcomes shared by the modules of the model. */
module Wrappers {

  /** An optional value: the explicit form of Python's `None` sentinel. */
  datatype Option<+T> = None | Some(value: T)

  /** The outcome of a run: it either completes or stops at an error. */
  datatype Outcome<+E> = Pass | Fail(error: E)
}
