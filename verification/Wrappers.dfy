/** Optional values and results that carry the source's exceptions. */
module Wrappers {
  datatype Option<+T> = None | Some(value: T)

  datatype Result<+T, +E> = Ok(value: T) | Err(error: E)

  function ToOption<T, E>(r: Result<T, E>): Option<T> {
    match r case Ok(v) => Some(v) case Err(_) => None
  }

  function GetOr<T>(o: Option<T>, default: T): T {
    match o case Some(v) => v case None => default
  }
}
