/** The nullable values of the PHP code (`?string`, `?KnownAgent`) as an Option. */
module Wrappers {

  datatype Option<+T> = None | Some(value: T)
}
