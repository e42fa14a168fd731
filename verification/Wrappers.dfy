/** The two result shapes shared by every module. */
module Wrappers {

  datatype Option<+T> = None | Some(value: T)

  /** A refusal carries no reason: the original's error texts are not modelled. */
  datatype Result<+T> = Rejected | Ok(value: T)
  {
    predicate IsFailure() { Rejected? }

    function PropagateFailure<U>(): Result<U>
      requires Rejected?
    {
      Rejected
    }

    function Extract(): T
      requires Ok?
    {
      value
    }
  }
}
