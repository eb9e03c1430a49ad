/** The failure-compatible Option type used for every fallible step of the decoder. */
module Wrappers {

  /** `None` stands for a panic of the decoder: a failed `unwrap()`, an
      out-of-range slice or the explicit `panic!` on an unknown marker. */
  datatype Option<+T> = None | Some(value: T)
}
