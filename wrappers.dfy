/** Optional values and results with an error message, the shapes the source
    expresses with `null`, `undefined` and thrown errors. */
module Wrappers {

  datatype Option<T> = None | Some(value: T)

  /** `Err` stands for a thrown `Error` whose message is `error`. */
  datatype Result<T> = Ok(value: T) | Err(error: string)
}
