/** The optional-value datatype used for outputs that a run may or may not produce. */
module Wrappers {

  datatype Option<+T> = None | Some(value: T)

}
