/** The exceptions the Python code can raise, and a failure-compatible result type for them. */
module Outcomes {

  /** Exceptions raised by the geometry and conversion code. None of them is caught by the converter. */
  datatype Error =
    | IndexError            // a list index out of range
    | ZeroDivisionError     // a float division by zero
    | ZeroNormal            // unit_normal: "The normal of the polygon has no magnitude"
    | AssertionFailed       // a failing `assert` statement
    | TriangulatorFailure   // the external triangle library gave up

  datatype Result<+T> = Ok(value: T) | Err(error: Error) {
    predicate IsFailure() { Err? }

    function PropagateFailure<U>(): Result<U>
      requires Err?
    {
      Err(error)
    }

    function Extract(): T
      requires Ok?
    {
      value
    }
  }

  /** An optional value, as a Python argument that defaults to None. */
  datatype Option<+T> = None | Some(value: T)
}
