/** The optional-value datatype used for Java's nullable references and for
    the validator's "empty string means no error" convention. */
module Wrappers {

  datatype Option<+T> = None | Some(value: T)
}
