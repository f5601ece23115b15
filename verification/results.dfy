/** Failure-compatible outcomes for the decoder. Every Java exception the core
    can throw becomes a `Failure` carrying the kind of error. */
module Results {

  /** The error kinds the decoder distinguishes. */
  datatype Error =
    | MalformedNumber      // NumberFormatException from the integer decoders
    | IndexOutOfBounds     // ArrayIndexOutOfBoundsException / arraycopy bounds
    | NegativeArraySize    // `new byte[n]` with n < 0
    | NotABoolean          // RuntimeException from readBoolean
    | DestinationTooSmall  // IllegalArgumentException from readBytes
    | TagNotFound          // RuntimeException from checkFieldExists
    | CapacityExceeded     // RuntimeException from FieldLocationsMap.put

  datatype Result<+T> = Success(value: T) | Failure(error: Error) {

    predicate IsFailure() {
      Failure?
    }

    function PropagateFailure<U>(): Result<U>
      requires Failure?
    {
      Failure(error)
    }

    function Extract(): T
      requires Success?
    {
      value
    }
  }

  datatype Option<+T> = None | Some(value: T)
}
