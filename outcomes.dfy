/** Failure-carrying results shared by the document model, the table steps
    and the input-rule engine. */
module Outcomes {

  datatype Option<+T> = None | Some(value: T)

  /** How an operation of the editor core can go wrong: a step that reports
      failure through `StepResult.fail(message)`, or an exception that the
      JavaScript code would throw (a `RangeError` from `resolve`, a
      `TypeError` from reading a missing array element). */
  datatype Error =
    | StepFailed(message: string)
    | Thrown(message: string)

  datatype Result<+T> = Ok(value: T) | Err(error: Error)
}
