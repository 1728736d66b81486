/** Optional values, JavaScript exceptions and results that may carry one. */
module Wrappers {

  datatype Option<+T> = None | Some(value: T)

  /** The exceptions the modelled code can throw. */
  datatype JsError =
    | TypeError   // a property read on null/undefined, or a write to a primitive in strict mode
    | RangeError  // an invalid array length

  /** The outcome of a JavaScript computation that may throw. */
  datatype Result<+T> = Ok(value: T) | Err(error: JsError)
}
