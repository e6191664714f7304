/** Optional values and results with an error, standing in for the null
    pointers and the failures of the generator. */
module Wrappers {

  /** A value, or none (a null `llvm::Value *`). */
  datatype Option<T> = None | Some(value: T)

  /** A value, or the reason there is none. */
  datatype Result<T, E> = Ok(value: T) | Err(error: E)
}
