/** Optional values and the failures that end a run of the summariser.
    Every failure in the source is an unchecked exception that aborts the
    whole run; the model returns it as the `Err` variant instead. */
module Results {

  /** The exceptions the extractors can raise. */
  datatype Failure =
    | NoFixRecord        // Optional.orElseThrow: the log has no B record
    | IndexOutOfBounds   // String.substring(1, 7) on a B record shorter than 7 characters
    | DateTimeParse      // LocalTime.parse rejects the "kkmmss" field of a B record
    | NoSuchElement      // Optional.get: no site, or no distance, piece was found

  datatype Option<+T> = None | Some(value: T)

  datatype Result<+T> = Ok(value: T) | Err(error: Failure) {

    predicate IsFailure() {
      Err?
    }

    function PropagateFailure<U>(): Result<U>
      requires Err?
    {
      Err(error)
    }

    function Extract(): T
      requires Ok?
    {
      value
    }
  }
}
