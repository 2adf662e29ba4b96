/**
  Failure-carrying result types shared by every module of the model, and the
  kinds of exception the modelled code raises.
 */
module Wrappers {

  /** Python's `None` versus a present value. */
  datatype Option<+T> = None | Some(value: T) {
    predicate IsFailure() { None? }

    function PropagateFailure<U>(): Option<U>
      requires None?
    {
      None
    }

    function Extract(): T
      requires Some?
    {
      value
    }

    function GetOr(default: T): T {
      match this
      case Some(v) => v
      case None => default
    }
  }

  /** The exception classes raised by the modelled code (or by the numpy and
      store calls it makes). */
  datatype Error =
    | ValueError      // unknown field name, bad path, zero slice step, shape that cannot broadcast
    | TypeError       // wrong operand kind, reduce over an empty sequence
    | IndexError      // index out of range, boolean mask of the wrong length
    | AttributeError  // attribute looked up on an object that lacks it
    | NoSuchNode      // store lookup of a missing node
    | NodeError       // store node already exists, or is of the wrong kind
    | ShapeError      // the model refuses a Table whose labels do not match its columns

  /** A value or the exception that replaced it. */
  datatype Result<+R> = Success(value: R) | Failure(error: Error) {
    predicate IsFailure() { Failure? }

    function PropagateFailure<U>(): Result<U>
      requires Failure?
    {
      Failure(error)
    }

    function Extract(): R
      requires Success?
    {
      value
    }

    function GetOr(default: R): R {
      match this
      case Success(v) => v
      case Failure(_) => default
    }
  }

  /** A call that returns nothing or raises. */
  datatype Outcome = Pass | Fail(error: Error) {
    predicate IsFailure() { Fail? }

    function PropagateFailure<U>(): Result<U>
      requires Fail?
    {
      Failure(error)
    }
  }

  function Need(condition: bool, error: Error): (r: Outcome)
    ensures r.Pass? <==> condition
  {
    if condition then Pass else Fail(error)
  }
}
