/** Failure-compatible result types shared by every module of the model.
    Python exceptions become `Err` values that name the exception class. */
module Wrappers {

  datatype Option<+T> = None | Some(value: T)

  /** The exception a Python call would raise, with the detail a caller needs. */
  datatype Fault =
    | ValueError(reason: string)
    | KeyError(key: string)
    | IndexError
    | TypeError(reason: string)
    | AttributeError(reason: string)
    | RuntimeError(reason: string)
    | InvalidConfigError(reason: string)
    | FileNotFoundError(reason: string)

  datatype Result<+T> = Ok(value: T) | Err(fault: Fault) {
    predicate IsFailure() {
      Err?
    }

    function PropagateFailure<U>(): Result<U>
      requires Err?
    {
      Err(fault)
    }

    function Extract(): T
      requires Ok?
    {
      value
    }
  }
}
