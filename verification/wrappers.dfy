/** An optional value, standing for Rust's `Option` and for the results of
    operations that panic on some inputs. */
module Wrappers {
  datatype Option<T> = None | Some(value: T)
}
