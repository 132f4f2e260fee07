/** Failure-carrying results for operations that the library rejects. */
module Wrappers {

  /** Either a value built successfully, or the reason it could not be built. */
  datatype Result<+T, +E> = Success(value: T) | Failure(error: E)
}
