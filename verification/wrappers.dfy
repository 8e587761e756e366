/** Failure-carrying wrappers for the outcomes of the two external
    collaborators: the PDF text extractor and the language-model call. */
module Wrappers {

  /** Some value, or nothing (a call that threw, an absent field). */
  datatype Option<+T> = None | Some(value: T)

  /** A value, or the message of the exception that replaced it. */
  datatype Result<+T, +E> = Success(value: T) | Failure(error: E)
}
