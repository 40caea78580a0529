/** Failure-carrying values shared by every part of the query engine. */
module Wrappers {

  /** An absent-or-present value; `None` stands for the `None` that the
      `*_or_default` terminals return. */
  datatype Option<+T> = None | Some(value: T)

  /** The error kinds a terminal operation or a constructor can raise. */
  datatype Error =
    | IndexOutOfRange              // IndexError
    | EmptySequence                // NoElementsError
    | NoMatchingElement            // NoMatchingElement
    | MoreThanOneMatchingElement   // MoreThanOneMatchingElement

  /** The outcome of an operation that either returns a value or raises. */
  datatype Result<+T> = Success(value: T) | Failure(error: Error)
}
