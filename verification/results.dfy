/** Failure-carrying values shared by every module: a nullable reference
    (`Option`) and the exceptions the pipeline can raise (`Result`). */
module Results {

  /** Kotlin's `T?`: `None` stands for `null`. */
  datatype Option<+T> = None | Some(value: T)

  /** The exceptions the modelled code can end in. */
  datatype Error =
      /** `matToBitmap` on a matrix whose channel count is not 1, 3 or 4
          (`IllegalArgumentException("Unsupported Mat channels")`). */
    | UnsupportedChannels(channels: nat)
      /** `Bitmap.createBitmap` / `createScaledBitmap` asked for a
          dimension that is not positive (`IllegalArgumentException`). */
    | InvalidDimensions(width: int, height: int)
      /** Kotlin's `coerceIn(min, max)` with `max < min`
          (`IllegalArgumentException`). */
    | EmptyRange(min: int, max: int)
      /** An OpenCV colour conversion handed an empty matrix
          (OpenCV's `!_src.empty()` assertion). */
    | EmptyMatrix

  datatype Result<+T> = Ok(value: T) | Err(error: Error) {

    predicate IsFailure() {
      Err?
    }

    function PropagateFailure<U>(): Result<U>
      requires Err?
    {
      Err(error)
    }

    function Extract(): T
      requires Ok?
    {
      value
    }
  }
}
