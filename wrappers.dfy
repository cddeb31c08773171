/** Optional values and the exceptions the pipeline's Python code can raise. */
module Wrappers {

  datatype Option<T> = None | Some(value: T)

  /** The Python exceptions the modelled code raises; each aborts the call that raised it. */
  datatype Error =
    | HttpStatusError  // httpx raise_for_status() on a non-2xx answer
    | IndexError       // indexing an empty list (`[0]`, `[-1]`, `api_keys[i]`)
    | AttributeError   // `.strip()` on the `.text` of an element that has no text (None)
    | ValueError       // datetime.strptime on a string not in the expected form
    | KeyError         // selecting a column a DataFrame does not have

  /** The outcome of a call: its value, or the exception it raised. */
  datatype Result<T> = Ok(value: T) | Err(error: Error) {

    predicate IsFailure() {
      Err?
    }

    function PropagateFailure<U>(): Result<U>
      requires Err?
    {
      Err(error)
    }

    function Extract(): T
      requires Ok?
    {
      value
    }
  }
}
