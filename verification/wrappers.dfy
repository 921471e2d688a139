/** The `None`-or-value results the code passes around. */
module Wrappers {

  datatype Option<+T> = None | Some(value: T)
}
