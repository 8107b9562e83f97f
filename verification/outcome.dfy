/** Optional values and results that may fail, for the operations of the
    puzzle exercise that throw or leave a value unset. */
module Outcome {

  datatype Option<T> = None | Some(value: T)

  /** `Invalid` stands for a thrown exception, with its message. */
  datatype Result<T> = Ok(value: T) | Invalid(message: string)
}
