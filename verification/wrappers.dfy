/** An optional value, shared by the model's modules. */
module Wrappers {

  /** `None` stands for a computation the model cannot complete (see `Middleware.Handle`). */
  datatype Option<+T> = None | Some(value: T)
}
