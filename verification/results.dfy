/** The failure-carrying wrappers shared by the model. */
module Results {

  /** A value that may be absent; stands for a Java reference that may be null. */
  datatype Option<+T> = None | Some(value: T)

  /** The exceptions the reservation engine can raise; each one aborts the run. */
  datatype Error =
    | InvalidAirportCode   // IllegalArgumentException from the route key constructor
    | NullPassengerName    // IllegalArgumentException from the passenger constructor
    | IndexOutOfBounds     // LinkedList.remove with an index outside the seat pool
    | MissingField         // ArrayIndexOutOfBoundsException: a record with too few fields

  /** The outcome of an operation that may throw one of the errors above. */
  datatype Result<+T> = Ok(value: T) | Err(error: Error) {
    predicate IsFailure() { Err? }

    function PropagateFailure<U>(): Result<U>
      requires Err?
    {
      Err(error)
    }

    function Extract(): T
      requires Ok?
    {
      value
    }
  }
}
