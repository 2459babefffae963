/** Failure-compatible datatypes shared by the model: `Option` for values that
    may be absent and `Result` for operations that return a row or an error. */
module Wrappers {

  /** An error as the text its `Error()` method prints. */
  type Error = string

  datatype Option<+T> = None | Some(value: T)

  /** The outcome of a query: the returned value, or the error Go returns beside a zero value. */
  datatype Result<+T> = Ok(value: T) | Err(error: Error) {

    predicate IsFailure() {
      Err?
    }

    function PropagateFailure<U>(): Result<U>
      requires Err?
    {
      Err(error)
    }

    function Extract(): T
      requires Ok?
    {
      value
    }
  }

  /** True iff `part` occurs as a contiguous piece of `text`. */
  predicate Contains(text: string, part: string) {
    exists i, j :: 0 <= i <= j <= |text| && text[i..j] == part
  }
}
