/** The error categories of the crate and the failure-compatible result type built on them. */
module Outcomes {

  // One value per category a caller can branch on; offsets and details are not part of the model.
  datatype ErrorKind =
    | NeedMore
    | InvalidLength
    | UnexpectedConstructor
    | InvalidPacket
    | OutputTooSmall
    | InvalidUtf8
    | Authentication
    | FeatureDisabled
    | LimitExceeded
    | InvalidState
    | SchemaMismatch

  datatype Option<+T> = None | Some(value: T)

  datatype Result<+T> = Ok(value: T) | Err(kind: ErrorKind) {
    predicate IsFailure() {
      Err?
    }

    function PropagateFailure<U>(): Result<U>
      requires Err?
    {
      Err(kind)
    }

    function Extract(): T
      requires Ok?
    {
      value
    }
  }
}
