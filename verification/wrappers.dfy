/** The two result shapes the model uses in place of C's special values. */
module Wrappers {

  /** A value that may be missing: `None` stands for the NULL that `lookup`
      returns for an absent prefix, and for `generate`'s `w` before the
      selection loop first sets it. */
  datatype Option<+T> = None | Some(value: T)

  /** A generated text, or the fault (a NULL state, an unset `w`) at which
      the C code would have undefined behaviour. */
  datatype Result<+R, +E> = Success(value: R) | Failure(error: E)
}
