/** Success/Failure wrapper for operations whose collaborators may fail. */
module Results {

  datatype Result<+T, +E> = Success(value: T) | Failure(error: E)
}
