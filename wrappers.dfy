/** Option, the value Python code expresses with `None` or a missing dictionary key. */
module Wrappers {

  datatype Option<+T> = None | Some(value: T)

}
