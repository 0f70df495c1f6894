/** Option and Result values: the model's stand-ins for PHP's `false`
    sentinels and for exceptions thrown by the compiler. */
module Wrappers {

  datatype Option<T> = None | Some(value: T)

  /** `Err` carries the message of the exception the PHP code throws. */
  datatype Result<T> = Ok(value: T) | Err(msg: string)
}
