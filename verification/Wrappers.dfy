/** The nullable result used wherever the kernel returns a pointer or NULL. */
module Wrappers {
  datatype Option<+T> = None | Some(value: T)
}
