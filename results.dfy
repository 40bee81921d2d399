/** Outcomes of the operations that can fail. */
module Results {

  /** A value, or the absence of one. */
  datatype Option<+T> = None | Some(value: T)

  /** The JavaScript exceptions that the modelled operations can raise. */
  datatype JsError =
    | RangeError   // `String.prototype.repeat` called with a negative count
    | SyntaxError  // a regular expression built at run time does not parse

  /** A value, or the exception that the JavaScript call throws instead. */
  datatype Result<+T> = Ok(value: T) | Err(error: JsError)
}
