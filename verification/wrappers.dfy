/** The optional value used wherever the crawler returns `None` or a SQL column may be NULL. */
module Wrappers {

  datatype Option<+T> = None | Some(value: T)
}
