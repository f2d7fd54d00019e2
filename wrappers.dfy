/** Failure-compatible result types and the exceptions the tensor handle can raise. */
module Wrappers {

  /** An absent (null) or present value. */
  datatype Option<+T> = None | Some(value: T)

  /** The .NET exceptions that the modelled members throw. */
  datatype Error =
    | ArgumentNull      // the constructor was handed IntPtr.Zero
    | NotSupported      // GetData<T> for an element type without a copy routine
    | Overflow          // an array was allocated with a negative length
    | AccessViolation   // a native word was read outside the mapped memory

  /** Either a value or the exception that replaced it. */
  datatype Result<+T> = Ok(value: T) | Err(error: Error) {
    predicate IsFailure() { Err? }

    function PropagateFailure<U>(): Result<U>
      requires Err?
    {
      Err(error)
    }

    function Extract(): T
      requires Ok?
    {
      value
    }
  }
}
