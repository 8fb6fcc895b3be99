/** The optional value that both extractors hand back to their callers
    (Python's `None` or a value). */
module Wrappers {

  datatype Option<+T> = None | Some(value: T)
}
