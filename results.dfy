/** Outcomes of operations that can fail with one of the source's error messages. */
module Results {

  datatype Result<+T> = Success(value: T) | Failure(error: string)
}
