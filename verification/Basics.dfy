/** Result types shared by the models of the kernel, the bridge and wasm3. */
module Basics {
  datatype Option<+T> = None | Some(value: T)

  /** Failure-compatible: `:-` propagates an error as the C macro `_` does. */
  datatype Result<+T, +E> = Ok(value: T) | Err(error: E) {
    predicate IsFailure() { Err? }

    function PropagateFailure<U>(): Result<U, E>
      requires Err?
    {
      Err(error)
    }

    function Extract(): T
      requires Ok?
    {
      value
    }
  }
}
