/** The failures the series surface raises, as values instead of exceptions. */
module Outcomes {

  /** One constructor per exception type the series operations throw. */
  datatype Failure =
    | InvalidOperation(message: string)     // InvalidOperationException("Series is empty")
    | KeyNotFound                           // KeyNotFoundException
    | ArgumentOutOfRange(paramName: string) // ArgumentOutOfRangeException(nameof(idx))
    | NotSupported(message: string)         // NotSupportedException

  /** Message of the failure raised by `First`/`Last` on an empty series. */
  const SeriesIsEmpty: string := "Series is empty"

  /** Message of the failure raised by the synchronous series' async `MoveNext`. */
  const AsyncMoveNextNotSupported: string := "Async MoveNext should use BaseCursor via CursorSeries"

  datatype Result<T> = Ok(value: T) | Err(error: Failure)
}
