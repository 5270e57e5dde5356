/** Optional values and the outcome of an operation that can panic. */
module Wrappers {

  /** A reference that may be nil: an absent area or an absent block. */
  datatype Option<T> = None | Some(value: T)

  /** Why an operation of the bit set panics. */
  datatype Failure =
    | IndexOutOfRange   // a negative index, the index MaxInt32, or a range with j < i
    | NilOperand        // a strategy that reads the other set was given nil
    | NotCopyable       // reflect.Copy was given values that are not slices or arrays

  /** The outcome of an operation that either completes or panics. */
  datatype Outcome = Pass | Fail(failure: Failure)

  /** The value of an operation that either returns or panics. */
  datatype Result<T> = Ok(value: T) | Err(failure: Failure)
}
