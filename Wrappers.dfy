/** Optional values and results that carry an error message, standing for the
    `undefined` fields and the thrown `Error`s of the TypeScript source. */
module Wrappers {

  datatype Option<+T> = None | Some(value: T)

  datatype Result<+T> = Ok(value: T) | Err(message: string)
}
