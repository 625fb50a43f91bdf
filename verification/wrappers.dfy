/** Option and Result types shared by every module of the model. */
module Wrappers {

  /** Python's `Optional[...]`: a value that may be absent (`None`). */
  datatype Option<+T> = None | Some(value: T)

  /** Why an operation failed, in the terms the Python code raises or returns. */
  datatype Error =
    | KeyError(key: string)   // `data[key]` on a dictionary without that key
    | TypeError(key: string)  // a stored value of the wrong JSON shape
    | ValueError              // `component_from_dict` on an unregistered type tag
    | NotFound                // a route's 404: the addressed record does not exist
    | BadRequest              // a route's 400: a required request field is absent or invalid
    | Diverges                // the source loops forever on a cyclic sibling chain

  /** The outcome of an operation that may fail; usable with `:-`. */
  datatype Result<+T> = Ok(value: T) | Err(error: Error) {

    predicate IsFailure() {
      Err?
    }

    function PropagateFailure<U>(): Result<U>
      requires Err?
    {
      Err(error)
    }

    function Extract(): T
      requires Ok?
    {
      value
    }
  }
}
