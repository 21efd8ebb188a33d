/** Option and Result, the two wrapper types the Rust code returns everywhere. */
module Wrappers {

  datatype Option<T> = None | Some(value: T)

  /** A Rust `Result<T, E>`. */
  datatype Result<T, E> = Ok(value: T) | Err(error: E)

  /** Rust's `Option::unwrap_or`. */
  function UnwrapOr<T>(o: Option<T>, default: T): T
  {
    match o
    case Some(v) => v
    case None => default
  }

  /** Rust's `Result::ok`. */
  function OkOrNone<T, E>(r: Result<T, E>): Option<T>
  {
    match r
    case Ok(v) => Some(v)
    case Err(_) => None
  }
}
