/** Integer widths of the C# source, optional values, the exceptions the core
    raises, and a result type that carries either a value or the exception a
    call threw. */
module Common {

  /** C# `long`: the width of a candidate's primary key. */
  type Int64 = x: int | -0x8000_0000_0000_0000 <= x <= 0x7FFF_FFFF_FFFF_FFFF

  /** C# `int`: the width of an HTTP status code. */
  type Int32 = x: int | -0x8000_0000 <= x <= 0x7FFF_FFFF

  const MaxInt64: Int64 := 0x7FFF_FFFF_FFFF_FFFF

  /** A nullable reference or nullable value. */
  datatype Option<+T> = None | Some(value: T)

  /** Why the relational store refused to save a change. */
  datatype DbFailure =
    | PrimaryKeyTaken      // an explicit key that is already in the table
    | RowIdSpaceExhausted  // AUTOINCREMENT after the largest possible key was used
    | RowMissing           // an update of a key that is not in the table

  /** The exceptions that cross the layers of the API. */
  datatype Exception =
    | CustomException(statusCode: Int32, message: string)
    | ArgumentNullException(paramName: string, message: string)
    | DbUpdateException(failure: DbFailure)
    | OtherException(message: string)

  /** Either the value a call returned or the exception it threw. */
  datatype Result<+T> = Success(value: T) | Failure(error: Exception)
}
