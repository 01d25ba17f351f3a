/** The optional-value datatype used where the scheduler's Python code returns
    nothing, raises, or finds a value missing. */
module Wrappers {

  datatype Option<+T> = None | Some(value: T)
}
