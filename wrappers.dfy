/** Option and result types shared by the whole model, and the Python exceptions the
    evaluation code can raise (they end the run; the model returns them instead). */
module Wrappers {

  datatype Option<T> = None | Some(value: T)

  /** The exceptions the scoring code can raise on malformed records. */
  datatype Error =
    | IndexError          // indexing an empty list (`x[0]`)
    | ValueError          // `max([])`
    | ZeroDivisionError   // a percentage over zero records
    | KeyError            // reading a score key a record does not have

  datatype Result<T> = Ok(value: T) | Err(error: Error)

  datatype Outcome = Pass | Fail(error: Error)

  /** Python's `1 if b else 0`. */
  function Flag(b: bool): (r: int)
    ensures r == 0 || r == 1
    ensures r == 1 <==> b
  {
    if b then 1 else 0
  }
}
