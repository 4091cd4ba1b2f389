/** What the other modules share. */
module Wrappers {
  /** The bytes in a page. */
  const PGSIZE := 4096

  datatype Option<+T> = None | Some(value: T)
}
