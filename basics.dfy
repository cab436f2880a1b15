/** Shared value types: optional values, backend replies and the user profile record. */
module Basics {

  datatype Option<T> = None | Some(value: T)

  /** What a backend call hands back: the requested data, or an error with its message. */
  datatype Reply<T> = Ok(value: T) | Failed(message: string)

  /** A row of the `Users` table as the pages use it. A null column is the empty string. */
  datatype Profile = Profile(username: string, profileImage: string)

  /** JavaScript's `a || b` on strings: `a` unless it is empty. */
  function OrElse(a: string, b: string): string
  {
    if a != [] then a else b
  }
}
