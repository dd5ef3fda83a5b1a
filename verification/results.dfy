/** Outcomes shared by every component: a value or the exception the
    program would raise instead. */
module Results {

  /** The exceptions the tool raises or lets escape, by Python class. */
  datatype Error =
    | RuntimeError(message: string)
    | ValueError(message: string)
    /** `FileNotFoundError`: the `git` binary could not be started. */
    | FileNotFound
    /** `KeyError`, `TypeError` or `AttributeError` raised while reading the
        configuration value at `path`. */
    | BadConfig(path: seq<string>)

  datatype Result<+T> = Ok(value: T) | Err(error: Error) {

    predicate IsFailure() {
      Err?
    }

    function PropagateFailure<U>(): Result<U>
      requires Err?
    {
      Err(error)
    }

    function Extract(): T
      requires Ok?
    {
      value
    }
  }

  datatype Option<+T> = None | Some(value: T)
}
