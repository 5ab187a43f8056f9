/** The absent-or-present value that the Python code spells `Optional[...]`/`None`. */
module Wrappers {

  datatype Option<+T> = None | Some(value: T)
}
