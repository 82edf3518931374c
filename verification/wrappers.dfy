/** The optional-value type the model uses in place of Java's null references. */
module Wrappers {

  datatype Option<+T> = None | Some(value: T)
}
