/** Failure-carrying results and the errors the pipeline can raise. */
module Results {

  datatype Option<+T> = None | Some(value: T)

  datatype Result<+T, +E> = Success(value: T) | Failure(error: E)

  /** The exceptions the pipeline raises (all are `ValueError` or
      `ZeroDivisionError` in the program). */
  datatype Error =
    | UnsupportedHashType   // Encoder given neither a callable nor "sha1"
    | SortWithoutKeep       // task_dedup called with sort but not keep
    | ZeroDivision          // task_merge saw no record at all
}
