/** Outcomes of the analysis: a value, or the reason there is none. */
module Outcomes {
  /** An image without pixels has no minimum or mean; an image without any
      surviving object has no mean object luminescence (0 / 0). */
  datatype Error = EmptyImage | NoObjects

  datatype Result<T> = Success(value: T) | Failure(error: Error)
}
