/** Tagged outcomes used in place of Python's `None` returns and caught exceptions. */
module Outcomes {

  /** A value that may be absent (Python's `X | None`). */
  datatype Option<+T> = None | Some(value: T)

  /** Why a frame was rejected; each case is an exception the pipeline catches. */
  datatype Failure =
    | DuplicateColumn(column: string)   // `df[column]` on a repeated label yields a frame, and `.str` raises

  /** The outcome of a step that may raise inside the pipeline's `try` block. */
  datatype Result<+T> = Ok(value: T) | Err(failure: Failure)
}
