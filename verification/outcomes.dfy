/** Optional values, results, and the run-time errors the table store can raise. */
module Outcomes {

  datatype Option<+T> = None | Some(value: T)

  /** The exceptions the store throws. All of them are JavaScript TypeErrors
      raised by reading a property of `null`/`undefined` or by calling something
      that is not a function; the constructor names which one. */
  datatype Error =
    | UnknownType(name: string)  // a schema names a type that is not registered
    | MissingTarget              // a REF field coerces an id without a target collection
    | NullArgument               // a field description meets a `null` bound argument
    | NullishValue               // a row export meets a `null` or `undefined` value
    | NotARow                    // a collection export meets a plain data object, not a row

  datatype Result<+T> = Ok(value: T) | Err(error: Error)
}
