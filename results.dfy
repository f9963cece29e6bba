/** The two Python exceptions this model keeps, and a result type carrying them. */
module Results {

  /** `IndexError`: indexing an empty density ramp. `ZeroDivisionError`: aspect ratio of a zero-width image. */
  datatype Error = IndexError | ZeroDivisionError

  datatype Result<T> = Success(value: T) | Failure(error: Error)
}
