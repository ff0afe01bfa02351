/** Failure-carrying return types shared by the model. */
module Wrappers {

  /** An optional value: a decoded feedback word, a load result. */
  datatype Option<+T> = None | Some(value: T)

  /** `std::expected<T, std::string>`: a value or an error message. */
  datatype Result<+T> = Ok(value: T) | Err(error: string)
}
