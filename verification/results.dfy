/** The outcome of an operation that can fail with an `errx` diagnostic. */
module Results {

  datatype Result<+T, +E> = Success(value: T) | Failure(error: E)
}
