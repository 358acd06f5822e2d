/** Failure-compatible optional values shared by every module of the model. */
module Wrappers {

  /** A value that may be absent; stands for JavaScript's `null`/`undefined`
      results and for decoders that reject their input. */
  datatype Option<+T> = None | Some(value: T) {

    predicate IsFailure() {
      None?
    }

    function PropagateFailure<U>(): Option<U>
      requires None?
    {
      None
    }

    function Extract(): T
      requires Some?
    {
      value
    }

    /** The wrapped value, or `default` when absent. */
    function GetOr(default: T): T {
      match this
      case Some(v) => v
      case None => default
    }
  }
}
