/** The optional value used wherever the C code returns a pointer that may be NULL. */
module Wrappers {

  /** `None` stands for a NULL pointer; `Some(o)` for a pointer at offset `o` of the arena. */
  datatype Option<+T> = None | Some(value: T)
}
