/** The usual result types. */
module Wrappers {
  datatype Option<+T> = None | Some(value: T)

  function OrEmpty(s: Option<string>): string {
    if s.Some? then s.value else ""
  }

  datatype Result<+T, +E> = Ok(value: T) | Err(error: E)
}
