/** The optional-value datatype used for every decode that may fail and every
    state slot that may still be empty. */
module Wrappers {

  datatype Option<+T> = None | Some(value: T)

}
