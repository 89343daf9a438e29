/** Failure values shared by every component of the scheduler model. */
module Errors {

  /** The ways an operation of the scheduling core can fail. */
  datatype Error =
    | InvalidState     // an operation that the job's current status does not allow
    | EmptyQueue       // pop or front on an empty queue
    | NotFound         // a pid that the job table does not hold
    | NoRunnableJob    // a dispatch step found every priority level empty
    | NullDereference  // the as-written code follows a null pointer
    | LogicError       // the as-written code reaches a "should not happen" throw
    | OutOfRange       // the as-written code indexes a vector past its end

  /** A value or the error that replaced it. */
  datatype Result<T> = Ok(value: T) | Err(error: Error)

  /** Success without a value, or an error. */
  datatype Outcome = Pass | Fail(error: Error)
}
