/** The optional-value type the rest of the model uses for Java's nullable
    references and for lookups that can fail. */
module Wrappers {

  datatype Option<+T> = None | Some(value: T)
}
