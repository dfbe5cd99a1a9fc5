/** The error values the engine returns, and the wrappers that carry them. */
module Errors {

  /** One constructor per error the engine can return. */
  datatype Error =
    | OutOfField      // Field.Set outside the grid ("out of field")
    | WrongInitSize   // NewLife with a pattern of the wrong size ("Wrong init size")
    | ColumnSize      // loader: a later line differs in length ("column size is not appropriate")
    | EndOfFile       // loader: the first line is not terminated (io.EOF from ReadBytes)

  /** An operation that either succeeds or fails with an error (Go's `error`, nil meaning Pass). */
  datatype Outcome = Pass | Fail(error: Error)

  /** A value or an error (Go's `(T, error)` pair). */
  datatype Result<+T> = Success(value: T) | Failure(error: Error)
}
