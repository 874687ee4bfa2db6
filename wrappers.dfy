/** Small result types shared by the modules of this model. */
module Wrappers {

  /** Rust's `Option`: the `try_*` acquire operations return `None` instead of a guard. */
  datatype Option<T> = None | Some(value: T)

  /** The outcome of an operation that either returns or panics with a message
      (`expect` and `panic!` in the source). A panic is unrecoverable for the
      caller; the model returns it so that the condition under which it happens
      can be stated. */
  datatype Fallible<T> = Done(value: T) | Panic(message: string)
}
