/** Failure-carrying values for the exceptions the video cutter raises. */
module Results {

  datatype Option<+T> = None | Some(value: T)

  /** The three exceptions the core can raise. */
  datatype Error =
    | TypeError(foundType: string)              // a path argument that is neither a Path nor a str
    | ValueError(found: real, duration: real)   // strict mode: last cut point beyond the duration
    | IndexError                                // strict mode: `cut_timestamps[-1]` on an empty list

  datatype Result<+T> = Ok(value: T) | Err(error: Error) {
    predicate IsFailure() { Err? }

    function PropagateFailure<U>(): Result<U>
      requires Err?
    {
      Err(error)
    }

    function Extract(): T
      requires Ok?
    {
      value
    }
  }
}
