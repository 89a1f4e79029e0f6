/** Optional values and success-or-failure results for the steps of report
    generation that can fail. */
module Results {

  datatype Option<+T> = None | Some(value: T)

  /** Why a generation step failed. */
  datatype Error =
    /** A row was inserted into, or removed from, a table's row list at an
        index that list does not have. */
    | RowIndexOutOfRange(index: int, size: int)
    /** The table records were iterated although the payload gave none. */
    | NullRecords

  /** The outcome of a step that either produces a value or fails as a whole. */
  datatype Result<+T> = Success(value: T) | Failure(error: Error)
}
